/** The in-memory person store of the course's GraphQL server and the
    resolvers that read and extend it: personCount, allPersons (with its
    YES/NO gender-presence filter), findPerson, addPerson and the derived
    Person.address field.

    The queries are functions of the store's current contents; the store
    itself, which addPerson extends in place, is the class PersonStore. */
module Persons {
  import opened Wrappers

  /** A record's id: the seed records carry the numbers 1 to 3, records
      added later carry a freshly generated uuid string. */
  datatype Id = Num(n: int) | Uuid(text: string)

  /** A stored record. `age` is optional because addPerson builds its record
      from the mutation's arguments only, and those carry no age. `gender`
      is optional as in the schema. */
  datatype Person = Person(
    name: string,
    age: Option<int>,
    gender: Option<string>,
    street: string,
    city: string,
    id: Id)

  /** The derived Person.address object. */
  datatype Address = Address(street: string, city: string)

  /** The argument of allPersons' gender filter. */
  datatype YesNo = YES | NO

  /** The arguments of the addPerson mutation. */
  datatype PersonArgs = PersonArgs(name: string, gender: Option<string>, street: string, city: string)

  /** The user-input error addPerson raises; it carries the offending name. */
  datatype AddError = DuplicateName(name: string)

  /** What addPerson leaves behind: the new store contents and its answer. */
  datatype AddOutcome = AddOutcome(store: seq<Person>, result: Result<Person, AddError>)

  // ---------------------------------------------------------------------
  // Invariants of the store

  /** No two records share a name. */
  ghost predicate UniqueNames(s: seq<Person>)
  {
    forall i, j :: 0 <= i < j < |s| ==> s[i].name != s[j].name
  }

  /** No two records share an id. */
  ghost predicate UniqueIds(s: seq<Person>)
  {
    forall i, j :: 0 <= i < j < |s| ==> s[i].id != s[j].id
  }

  /** `id` is carried by no record of the store (what a new uuid provides). */
  predicate IsFreshId(s: seq<Person>, id: Id)
  {
    forall p :: p in s ==> p.id != id
  }

  /** JavaScript truthiness of a record's gender: a missing or null gender
      and the empty string are all false. */
  predicate HasGender(p: Person)
  {
    p.gender.Some? && p.gender.value != ""
  }

  // ---------------------------------------------------------------------
  // The seed data

  /** The three records the store starts with. */
  function Seed(): (s: seq<Person>)
    ensures |s| == 3
    ensures UniqueNames(s) && UniqueIds(s)
  {
    [ Person("Smith Jones", Some(28), Some("Male"), "724th Street", "New York", Num(1)),
      Person("Joe Biden", Some(21), Some("Male"), "120th Street", "Arizona", Num(2)),
      Person("Bruce Lee", Some(19), None, "Colombian Street", "Ohio", Num(3)) ]
  }

  // ---------------------------------------------------------------------
  // Queries

  /** personCount: the number of records, which is what allPersons returns
      without a filter. */
  function Count(s: seq<Person>): (n: nat)
    ensures n == |AllPersons(s, None)|
  {
    |s|
  }

  /** The records of `s`, in store order, whose gender presence is `present`
      (the `filter` with `byGender`). */
  function Filter(s: seq<Person>, present: bool): (r: seq<Person>)
    ensures |r| <= |s|
    ensures forall p :: p in r <==> p in s && HasGender(p) == present
  {
    if s == [] then []
    else (if HasGender(s[0]) == present then [s[0]] else []) + Filter(s[1..], present)
  }

  /** allPersons(gender): the whole store without an argument; with YES the
      records that have a gender, with NO those that have none. */
  function AllPersons(s: seq<Person>, gender: Option<YesNo>): (r: seq<Person>)
    ensures gender == None ==> r == s
    ensures gender == Some(YES) ==> forall p :: p in r <==> p in s && HasGender(p)
    ensures gender == Some(NO) ==> forall p :: p in r <==> p in s && !HasGender(p)
  {
    match gender
    case None => s
    case Some(YES) => Filter(s, true)
    case Some(NO) => Filter(s, false)
  }

  /** findPerson(name): the first record in store order with exactly that
      name, or nothing. */
  function FindPerson(s: seq<Person>, name: string): (r: Option<Person>)
    ensures r.Some? ==> r.value in s && r.value.name == name
    ensures r == None <==> forall p :: p in s ==> p.name != name
  {
    if s == [] then None
    else if s[0].name == name then Some(s[0])
    else FindPerson(s[1..], name)
  }

  /** Person.address: the street and city of the record itself. */
  function AddressOf(p: Person): (a: Address)
    ensures a.street == p.street && a.city == p.city
  {
    Address(p.street, p.city)
  }

  // ---------------------------------------------------------------------
  // The addPerson mutation, as a function of the store's contents

  /** The record addPerson builds: the arguments plus the new id, no age. */
  function NewPerson(args: PersonArgs, id: Id): Person
  {
    Person(args.name, None, args.gender, args.street, args.city, id)
  }

  /** addPerson(args): a duplicate name is refused with the store unchanged;
      otherwise the new record is appended and returned. */
  function AddPersonOutcome(s: seq<Person>, args: PersonArgs, id: Id): (o: AddOutcome)
    ensures o.result.Failure? <==> exists p :: p in s && p.name == args.name
    ensures o.result.Failure? ==> o.result.error == DuplicateName(args.name) && o.store == s
    ensures o.result.Success? ==> o.store == s + [o.result.value]
  {
    if FindPerson(s, args.name).Some? then AddOutcome(s, Failure(DuplicateName(args.name)))
    else
      var person := NewPerson(args, id);
      AddOutcome(s + [person], Success(person))
  }

  // ---------------------------------------------------------------------
  // Lemmas about the queries

  /** Filtering a concatenation filters each part: the filter keeps store order. */
  lemma {:induction false} FilterAppend(a: seq<Person>, b: seq<Person>, present: bool)
    ensures Filter(a + b, present) == Filter(a, present) + Filter(b, present)
  {
    if a == [] {
      assert a + b == b;
    } else {
      var head := if HasGender(a[0]) == present then [a[0]] else [];
      assert (a + b)[0] == a[0];
      assert (a + b)[1..] == a[1..] + b;
      FilterAppend(a[1..], b, present);
      calc {
        Filter(a + b, present);
        head + Filter(a[1..] + b, present);
        head + (Filter(a[1..], present) + Filter(b, present));
        (head + Filter(a[1..], present)) + Filter(b, present);
        Filter(a, present) + Filter(b, present);
      }
    }
  }

  /** The two filters split the store: their sizes add up to the store's. */
  lemma {:induction false} FilterSizes(s: seq<Person>)
    ensures |Filter(s, true)| + |Filter(s, false)| == |s|
  {
    if s != [] {
      FilterSizes(s[1..]);
    }
  }

  /** The two filters split the store's records with their multiplicities. */
  lemma {:induction false} FilterMultisets(s: seq<Person>)
    ensures multiset(Filter(s, true)) + multiset(Filter(s, false)) == multiset(s)
  {
    if s != [] {
      FilterMultisets(s[1..]);
      assert s == [s[0]] + s[1..];
    }
  }

  /** allPersons(YES) and allPersons(NO) partition the store: every record is
      in exactly one of them, together they hold each record as often as the
      store does, and their counts add up to personCount. */
  lemma AllPersonsPartition(s: seq<Person>)
    ensures Count(AllPersons(s, Some(YES))) + Count(AllPersons(s, Some(NO))) == Count(s)
    ensures forall p :: p in s ==> (p in AllPersons(s, Some(YES)) <==> p !in AllPersons(s, Some(NO)))
    ensures multiset(AllPersons(s, Some(YES))) + multiset(AllPersons(s, Some(NO))) == multiset(s)
  {
    FilterSizes(s);
    FilterMultisets(s);
  }

  /** findPerson returns the first record that carries the name. */
  lemma {:induction false} FindPersonIsFirst(s: seq<Person>, name: string, i: nat)
    requires i < |s| && s[i].name == name
    requires forall j :: 0 <= j < i ==> s[j].name != name
    ensures FindPerson(s, name) == Some(s[i])
  {
    if i > 0 {
      FindPersonIsFirst(s[1..], name, i - 1);
    }
  }

  /** With distinct names, findPerson retrieves every record by its name. */
  lemma FindPersonByName(s: seq<Person>, i: nat)
    requires UniqueNames(s) && i < |s|
    ensures FindPerson(s, s[i].name) == Some(s[i])
  {
    // Kept for readability: record i is the first to carry its name.
    FindPersonIsFirst(s, s[i].name, i);
  }

  // ---------------------------------------------------------------------
  // Lemmas about addPerson

  /** A new name: exactly one record is appended, the earlier records keep
      their positions, and the record is built from the arguments and id. */
  lemma AddNewNameAppends(s: seq<Person>, args: PersonArgs, id: Id)
    requires forall p :: p in s ==> p.name != args.name
    ensures var o := AddPersonOutcome(s, args, id);
      && o.result == Success(Person(args.name, None, args.gender, args.street, args.city, id))
      && Count(o.store) == Count(s) + 1
      && o.store[..|s|] == s
      && o.store[|s|] == o.result.value
  {
  }

  /** After a successful addPerson, findPerson with the new name returns the
      new record, and its address is the supplied street and city. */
  lemma AddThenFind(s: seq<Person>, args: PersonArgs, id: Id)
    requires forall p :: p in s ==> p.name != args.name
    ensures var o := AddPersonOutcome(s, args, id);
      && o.result.Success?
      && FindPerson(o.store, args.name) == Some(o.result.value)
      && AddressOf(o.result.value) == Address(args.street, args.city)
  {
    // Kept for readability: the appended record is the first with the name.
    var o := AddPersonOutcome(s, args, id);
    FindPersonIsFirst(o.store, args.name, |s|);
  }

  /** Adding the same name twice, on any store: the second call fails with
      that name and leaves the store, and so the count, as the first call
      left it. */
  lemma AddSameNameTwice(s: seq<Person>, first: PersonArgs, second: PersonArgs, id1: Id, id2: Id)
    requires second.name == first.name
    ensures var o1 := AddPersonOutcome(s, first, id1);
      var o2 := AddPersonOutcome(o1.store, second, id2);
      && o2.result == Failure(DuplicateName(first.name))
      && o2.store == o1.store
      && Count(o2.store) == Count(o1.store)
  {
    var o1 := AddPersonOutcome(s, first, id1);
    if o1.result.Success? {
      // The record the first call appended now carries the name.
      assert o1.store[|s|] in o1.store;
    }
  }

  /** addPerson keeps the store's names distinct, whatever id it is given. */
  lemma AddPreservesUniqueNames(s: seq<Person>, args: PersonArgs, id: Id)
    requires UniqueNames(s)
    ensures UniqueNames(AddPersonOutcome(s, args, id).store)
  {
    // Kept for readability: the new record's name is in no earlier record.
    var o := AddPersonOutcome(s, args, id);
    if o.result.Success? {
      forall i | 0 <= i < |s| ensures o.store[i].name != o.store[|s|].name {
        assert o.store[i] == s[i] && s[i] in s;
      }
    }
  }

  /** addPerson keeps the store's ids distinct when the new id is fresh. */
  lemma AddPreservesUniqueIds(s: seq<Person>, args: PersonArgs, id: Id)
    requires UniqueIds(s) && IsFreshId(s, id)
    ensures UniqueIds(AddPersonOutcome(s, args, id).store)
  {
    // Kept for readability: the new id is carried by no earlier record.
    var o := AddPersonOutcome(s, args, id);
    if o.result.Success? {
      forall i | 0 <= i < |s| ensures o.store[i].id != o.store[|s|].id {
        assert o.store[i] == s[i] && s[i] in s;
      }
    }
  }

  /** A new record lands at the end of exactly one of the two filtered views:
      allPersons(YES) when it has a gender, allPersons(NO) otherwise. */
  lemma AddExtendsFilteredViews(s: seq<Person>, args: PersonArgs, id: Id)
    requires forall p :: p in s ==> p.name != args.name
    ensures var p := NewPerson(args, id);
      var o := AddPersonOutcome(s, args, id);
      && o.result == Success(p)
      && AllPersons(o.store, Some(YES)) == AllPersons(s, Some(YES)) + (if HasGender(p) then [p] else [])
      && AllPersons(o.store, Some(NO)) == AllPersons(s, Some(NO)) + (if HasGender(p) then [] else [p])
  {
    var p := NewPerson(args, id);
    var o := AddPersonOutcome(s, args, id);
    assert o.store == s + [p];
    FilterOne(p, true);
    FilterOne(p, false);
    FilterAppend(s, [p], true);
    FilterAppend(s, [p], false);
  }

  /** The filter of a single record keeps it exactly when its gender presence matches. */
  lemma FilterOne(p: Person, present: bool)
    ensures Filter([p], present) == if HasGender(p) == present then [p] else []
  {
    assert [p][1..] == [];
  }

  /** The seed store: three records, the only one without a gender is
      Bruce Lee, and adding that name again is refused. */
  lemma SeedQueries()
    ensures Count(Seed()) == 3
    ensures AllPersons(Seed(), Some(NO)) == [Seed()[2]]
    ensures AllPersons(Seed(), Some(YES)) == Seed()[..2]
    ensures FindPerson(Seed(), "Bruce Lee") == Some(Seed()[2])
    ensures FindPerson(Seed(), "Jane Doe") == None
    ensures AddPersonOutcome(Seed(), PersonArgs("Bruce Lee", None, "Colombian Street", "Ohio"), Uuid("u1")).result
      == Failure(DuplicateName("Bruce Lee"))
  {
    // Kept for readability: Bruce Lee is found by his own name.
    var s := Seed();
    FindPersonByName(s, 2);
  }

  // ---------------------------------------------------------------------
  // The store

  /** The module-level `persons` array, updated in place by addPerson. */
  class PersonStore {
    var persons: seq<Person>

    /** Names and ids are distinct across the store. */
    ghost predicate Valid()
      reads this
    {
      UniqueNames(persons) && UniqueIds(persons)
    }

    /** The store as the program starts: the seed records. */
    constructor ()
      ensures Valid() && persons == Seed()
    {
      persons := Seed();
    }

    /** addPerson: scan for the name; on a duplicate raise the user-input
        error and change nothing, otherwise push the new record. The id
        stands for the uuid the source generates. */
    method AddPerson(args: PersonArgs, id: Id) returns (r: Result<Person, AddError>)
      requires Valid() && IsFreshId(persons, id)
      modifies this
      ensures Valid()
      ensures AddOutcome(persons, r) == AddPersonOutcome(old(persons), args, id)
      ensures r.Failure? ==> persons == old(persons)
      ensures r.Success? ==> persons == old(persons) + [r.value]
    {
      AddPreservesUniqueNames(persons, args, id);
      AddPreservesUniqueIds(persons, args, id);
      var existing := FindPerson(persons, args.name);
      if existing.Some? {
        r := Failure(DuplicateName(args.name));
      } else {
        var person := NewPerson(args, id);
        persons := persons + [person];
        r := Success(person);
      }
    }
  }
}
