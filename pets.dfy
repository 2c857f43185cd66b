/** The PetAdoption panel: the fixed list of pets and the filter that keeps
    those whose breed belongs to the requested kind of pet. */
module PetAdoption {

  /** A pet record; the picture URL is not modelled. */
  datatype Pet = Pet(id: int, name: string, age: int, breed: string)

  /** The four pets, in the order the panel lists them; their ids, used as
      the cards' keys, are distinct. */
  function Pets(): (r: seq<Pet>)
    ensures |r| == 4
    ensures forall i, j :: 0 <= i < j < |r| ==> r[i].id != r[j].id
  {
    [ Pet(1, "Fluffy", 2, "Persian"),
      Pet(2, "Buddy", 3, "Golden Retriever"),
      Pet(3, "Whiskers", 1, "Siamese"),
      Pet(4, "Max", 4, "Labrador") ]
  }

  /** The breeds shown on the 'Cat' and on the 'Dog' tab. */
  const CatBreeds: seq<string> := ["Persian", "Siamese"]
  const DogBreeds: seq<string> := ["Golden Retriever", "Labrador"]

  /** The filter condition for one pet: only the 'Cat' and 'Dog' tabs show anything. */
  predicate Shows(petType: string, pet: Pet)
    ensures Shows(petType, pet) ==> petType == "Cat" || petType == "Dog"
  {
    (petType == "Cat" && pet.breed in CatBreeds) ||
    (petType == "Dog" && pet.breed in DogBreeds)
  }

  /** `pets.filter(...)`: the pets of `pets` that the condition keeps, in their order. */
  function Filter(petType: string, pets: seq<Pet>): (r: seq<Pet>)
    ensures |r| <= |pets|
    ensures forall i :: 0 <= i < |r| ==> Shows(petType, r[i])
    decreases |pets|
  {
    if pets == [] then []
    else
      var rest := Filter(petType, pets[1..]);
      if Shows(petType, pets[0]) then [pets[0]] + rest else rest
  }

  /** The filter keeps every copy of a pet that the condition shows and no
      copy of any other. */
  lemma {:induction false} FilterCounts(petType: string, pets: seq<Pet>, p: Pet)
    ensures multiset(Filter(petType, pets))[p] == if Shows(petType, p) then multiset(pets)[p] else 0
    decreases |pets|
  {
    if pets != [] {
      FilterCounts(petType, pets[1..], p);
      assert pets == [pets[0]] + pets[1..];
    }
  }

  /** `filteredPets`: the pets of the tab, listed in the order of the pet list. */
  function FilteredPets(petType: string): (r: seq<Pet>)
    ensures IsSubsequence(r, Pets())
    ensures forall i :: 0 <= i < |r| ==> Shows(petType, r[i])
  {
    FilterIsSubsequence(petType, Pets());
    Filter(petType, Pets())
  }

  /** `sub` is `s` with some elements removed and the rest in their order. */
  predicate IsSubsequence(sub: seq<Pet>, s: seq<Pet>)
    decreases |s|
  {
    if sub == [] then true
    else if s == [] then false
    else if sub[0] == s[0] then IsSubsequence(sub[1..], s[1..])
    else IsSubsequence(sub, s[1..])
  }

  /** The filter keeps the order of the list it filters. */
  lemma {:induction false} FilterIsSubsequence(petType: string, pets: seq<Pet>)
    ensures IsSubsequence(Filter(petType, pets), pets)
    decreases |pets|
  {
    if pets != [] {
      FilterIsSubsequence(petType, pets[1..]);
      var rest := Filter(petType, pets[1..]);
      if Shows(petType, pets[0]) {
        assert Filter(petType, pets) == [pets[0]] + rest;
        assert ([pets[0]] + rest)[1..] == rest;
      } else {
        assert Filter(petType, pets) == rest;
      }
    }
  }

  /** Filtering a concatenation filters each part: the filter looks at one pet at a time. */
  lemma {:induction false} FilterAppend(petType: string, a: seq<Pet>, b: seq<Pet>)
    ensures Filter(petType, a + b) == Filter(petType, a) + Filter(petType, b)
    decreases |a|
  {
    if a == [] {
      assert a + b == b;
    } else {
      var c := a + b;
      assert c[0] == a[0] && c[1..] == a[1..] + b;
      FilterAppend(petType, a[1..], b);
      var ka := if Shows(petType, a[0]) then [a[0]] else [];
      assert Filter(petType, c) == ka + Filter(petType, a[1..] + b);
      assert Filter(petType, a) == ka + Filter(petType, a[1..]);
    }
  }

  lemma FilterCons(petType: string, p: Pet, rest: seq<Pet>)
    ensures Filter(petType, [p] + rest)
         == if Shows(petType, p) then [p] + Filter(petType, rest) else Filter(petType, rest)
  {
    assert ([p] + rest)[0] == p && ([p] + rest)[1..] == rest;
  }

  function Keep(petType: string, p: Pet): seq<Pet> {
    if Shows(petType, p) then [p] else []
  }

  lemma FilterFour(petType: string, a: Pet, b: Pet, c: Pet, d: Pet)
    ensures Filter(petType, [a, b, c, d])
         == Keep(petType, a) + Keep(petType, b) + Keep(petType, c) + Keep(petType, d)
  {
    forall p | p in {a, b, c, d} ensures Filter(petType, [p]) == Keep(petType, p) {
      FilterCons(petType, p, []);
      assert [p] + [] == [p];
    }
    assert [a, b, c, d] == [a] + [b] + [c] + [d];
    FilterAppend(petType, [a] + [b] + [c], [d]);
    FilterAppend(petType, [a] + [b], [c]);
    FilterAppend(petType, [a], [b]);
  }

  /** The 'Cat' tab shows Fluffy the Persian and Whiskers the Siamese. */
  lemma CatTab()
    ensures FilteredPets("Cat") == [Pets()[0], Pets()[2]]
  {
    var ps := Pets();
    FilterFour("Cat", ps[0], ps[1], ps[2], ps[3]);
    assert ps == [ps[0], ps[1], ps[2], ps[3]];
    assert "Persian" in CatBreeds && "Siamese" in CatBreeds;
    assert "Golden Retriever" !in CatBreeds && "Labrador" !in CatBreeds;
    assert Keep("Cat", ps[0]) == [ps[0]] && Keep("Cat", ps[1]) == [];
    assert Keep("Cat", ps[2]) == [ps[2]] && Keep("Cat", ps[3]) == [];
  }

  /** The 'Dog' tab shows Buddy the Golden Retriever and Max the Labrador. */
  lemma DogTab()
    ensures FilteredPets("Dog") == [Pets()[1], Pets()[3]]
  {
    var ps := Pets();
    FilterFour("Dog", ps[0], ps[1], ps[2], ps[3]);
    assert ps == [ps[0], ps[1], ps[2], ps[3]];
    assert "Persian" !in DogBreeds && "Siamese" !in DogBreeds;
    assert "Golden Retriever" in DogBreeds && "Labrador" in DogBreeds;
    assert Keep("Dog", ps[0]) == [] && Keep("Dog", ps[1]) == [ps[1]];
    assert Keep("Dog", ps[2]) == [] && Keep("Dog", ps[3]) == [ps[3]];
  }

  /** No breed is shown on both tabs. */
  lemma NoPetOnBothTabs(pet: Pet)
    ensures !(Shows("Cat", pet) && Shows("Dog", pet))
  {
    assert forall b :: b in CatBreeds ==> b == "Persian" || b == "Siamese";
  }

  /** Any pet type other than 'Cat' and 'Dog' shows no pet at all. */
  lemma OtherTab(petType: string)
    requires petType != "Cat" && petType != "Dog"
    ensures FilteredPets(petType) == []
  {
  }
}
