# Person store of the course GraphQL server, in Dafny

This project models the data layer of a small GraphQL server written with Apollo Server. The server keeps a module-level array of person records. It starts with three seed records: Smith Jones, Joe Biden and Bruce Lee. The resolvers over that array are:

- `personCount`: the number of records;
- `allPersons(gender)`: the whole array, or with the `YesNo` argument only the records that do (`YES`) or do not (`NO`) have a gender;
- `findPerson(name)`: the first record with exactly that name, or null;
- `addPerson(name, gender, street, city)`: refuses a name already in the store with a user-input error that carries the name. Otherwise it pushes a new record with a fresh uuid and returns it;
- `Person.address`: the `{street, city}` object derived from a record.

`wrappers.dfy` defines `Option` and `Result`. `persons.dfy` (module `Persons`) holds the record types, the seed, the queries and the lemmas. The queries are functions of the store's current contents. `AddPersonOutcome` is the pure specification of `addPerson`. The class `PersonStore` is the mutable array: its `AddPerson` method scans for the name and extends its `persons` sequence in place. It is proved to agree with `AddPersonOutcome` and to keep names and ids distinct.

Modelling decisions:

- The YES/NO filter tests whether a gender is present, not whether it equals something, as the code does. A gender counts as present under JavaScript truthiness: the record has one and it is not the empty string (`HasGender`). Both enum values are non-empty strings, so only a missing or null argument returns the whole store (`None`).
- A record's `age` is optional. The schema declares `age: Int!` (src/index.js:46), but `addPerson` builds its record from the mutation's arguments alone (src/index.js:94, arguments declared at src/index.js:59-64), and these carry no age. The model follows the resolver code.
- Ids are `Num(n)` for the seed records (1 to 3) and `Uuid(text)` for added ones. The uuid generator is not modelled. The method takes the id as a parameter and requires that no record already carries it (`IsFreshId`). That freshness is what a uuid provides.

## Model

| member | source | states |
|---|---|---|
| `Persons.Seed` | src/index.js:5-29 | The seed holds three records with pairwise distinct names and distinct ids. |
| `Persons.SeedQueries` | src/index.js:5-29 | On the seed, the count is 3 and `allPersons(NO)` is just Bruce Lee. `allPersons(YES)` is the first two records. `findPerson("Bruce Lee")` finds him and an unknown name gives nothing. Adding "Bruce Lee" again fails with `DuplicateName("Bruce Lee")`. |
| `Persons.Count` | src/index.js:71 | `personCount` equals the length of what `allPersons` returns with no gender argument. |
| `Persons.AllPersons` | src/index.js:72-80 | With no argument, the whole store. With YES, exactly the store's records that have a gender. With NO, exactly those that have none. |
| `Persons.Filter` | src/index.js:75-79 | The filtered view holds exactly the store's records whose gender presence matches, and it is no longer than the store. |
| `Persons.FilterOne` | src/index.js:75-79 | A single record is kept exactly when its gender presence matches the filter. |
| `Persons.FilterAppend` | src/index.js:75-79 | Filtering a concatenation gives the concatenation of the filtered parts. With `FilterOne` this fixes the result: the kept records, in store order. |
| `Persons.FilterSizes` | src/index.js:75-79 | The YES and NO filters' lengths add up to the store's length. |
| `Persons.AllPersonsPartition` | src/index.js:71-79 | `allPersons(YES)` and `allPersons(NO)` partition the store. Every record is in exactly one of them, together they hold each record as many times as the store does (as multisets), and their counts sum to `personCount`. |
| `Persons.FilterMultisets` | src/index.js:75-79 | The YES and NO filters together hold exactly the store's records, each as many times as the store does. |
| `Persons.FindPerson` | src/index.js:81-84 | A found record is in the store and has the name. Nothing is found exactly when no record has the name, and that is a null answer, not an error. |
| `Persons.FindPersonIsFirst` | src/index.js:83 | When the record at position i has the name and none before it does, `findPerson` returns that record. |
| `Persons.FindPersonByName` | src/index.js:83 | In a store with distinct names, `findPerson` retrieves every record by its own name. |
| `Persons.AddressOf` | src/index.js:101-106 | The address of a record has that record's own street and city. |
| `Persons.AddPersonOutcome` | src/index.js:88-97 | `addPerson` fails exactly when some record already has the name. The error is `DuplicateName` with that name and the store is unchanged. On success the store becomes the old store plus the returned record at the end. That record is `NewPerson(args, id)`, the arguments plus the id with no age, as `AddNewNameAppends` states field by field. |
| `Persons.AddNewNameAppends` | src/index.js:94-96 | With a new name, the returned record has exactly the supplied name, gender, street and city, the new id and no age. The count rises by one, earlier records keep their positions, and the new record is last. |
| `Persons.AddThenFind` | src/index.js:81-96 | After a successful add, `findPerson` with the new name returns the new record. Its address is the supplied street and city. |
| `Persons.AddSameNameTwice` | src/index.js:89-95 | On any store, adding the same name twice: the second call fails with `DuplicateName` of that name and leaves the store, and so the count, as the first call left it. |
| `Persons.AddPreservesUniqueNames` | src/index.js:89-95 | From a store with distinct names, `addPerson` leaves names distinct, whatever id it is given. |
| `Persons.AddPreservesUniqueIds` | src/index.js:94-95 | From a store with distinct ids, `addPerson` with a fresh id leaves ids distinct. |
| `Persons.AddExtendsFilteredViews` | src/index.js:75-95 | A successfully added record is appended to `allPersons(YES)` if it has a gender and to `allPersons(NO)` otherwise. The other view is unchanged. |
| `Persons.PersonStore.constructor` | src/index.js:5-29 | The store starts as the seed records, with distinct names and ids. |
| `Persons.PersonStore.AddPerson` | src/index.js:88-97 | The in-place `addPerson` leaves the store and returns the answer that `AddPersonOutcome` gives for the old store. A duplicate leaves the store unchanged; otherwise the record is pushed at the end. Names and ids stay distinct. |

## Left out

- The Apollo server construction, `server.listen()` and the startup log line (src/index.js:110-117) are network I/O in a foreign library.
- The GraphQL schema text (src/index.js:33-66) is parsed and enforced by the library. It only fixed the argument and field types here. Parsing, validation, null coercion and serialisation are not modelled. So the model does not show that the engine would reject a `null` age when an added record's `age` is queried (the schema declares `Int!`).
- `uuid()` (src/index.js:2, 94) is foreign randomness. The id is a parameter with a freshness precondition; uniqueness of generated uuids is assumed, not proved.
- `UserInputError` is reduced to `DuplicateName(name)`. Its message text and the rest of its internals are not modelled.
- Concurrent resolver calls by the server are not modelled; the store is sequential.
- The phone-editing mutation and loading the store from a remote source belong to the repository's other server variants. They are not part of this model.
- JavaScript aliasing is not modelled: `allPersons` with no argument returns the module-level `persons` array itself (src/index.js:73), and the record `addPerson` returns is the object it pushed (src/index.js:95-96). Records and the store are values.
