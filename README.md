# PeopleProcessor, modelled in Dafny

`PeopleProcessor` groups a list of `Person` records by one name field and
collects the other name field. `createMap` takes the list, a key selector and
a value selector. It returns a map from each normalised key to the list of
normalised values, in input order. A name is normalised by replacing `null`
with `"N/A"` and then upper-casing it. `null` records are skipped, and a
`null` or empty list gives an empty map. `lastnamesByFirstname` and
`firstnamesByLastname` call `createMap` with the two getters in either order.

The model is functional, like the source (a single stream expression):

- `Wrappers.dfy` holds `Option`, which stands for Java's nullable references.
  The input list is an `Option<seq<Option<Person>>>`, so both a `null` list
  and `null` records can be written down.
- `Strings.dfy` holds an ASCII model of `String.toUpperCase()`.
- `PeopleProcessor.dfy` holds the core:
  - `Person`, with two nullable name fields.
  - `Normalize`, the null-to-"N/A"-then-upper-case step.
  - `Present`, which is `filter(Objects::nonNull)`.
  - `Group`, which is `groupingBy(key, mapping(value, toList()))`, written
    as a left fold that appends each record's value to its key's list.
  - `CreateMap`, `LastnamesByFirstname` and `FirstnamesByLastname`.

`Column(ps, key, value, k)` is an independent reference for one key's list.
It holds the normalised values of the records whose normalised key is `k`,
in input order. `GroupIsColumn` proves that the fold builds exactly these
lists.

The documentation comments of the two entry points show mixed-case results
such as `"John" -> ["Doe", "Silver"]`. The code upper-cases both keys and
values, so the model follows the code. The example lemmas state the
upper-cased maps.

## Model

| member | source | states |
|---|---|---|
| `Strings.ToUpperCase` | src/main/java/com/cgi/boat/interview/PeopleProcessor.java:59 | Upper-casing keeps the length and maps each character in place. The result has no ASCII lower-case letter. A string with no ASCII lower-case letter is unchanged, so upper-casing twice is the same as once. |
| `PeopleProcessor.Normalize` | src/main/java/com/cgi/boat/interview/PeopleProcessor.java:58-61 | A normalised name has no ASCII lower-case letter. A `null` name becomes exactly `"N/A"`. A non-null name keeps its length, and a name with no ASCII lower-case letter passes through unchanged. |
| `PeopleProcessor.Present` | src/main/java/com/cgi/boat/interview/PeopleProcessor.java:57 | The null filter never lengthens the list. Its exact count and members are proved by `PresentCount` and `PresentMembers`, and its order by `PresentAppend`. |
| `PeopleProcessor.PresentCount` | src/main/java/com/cgi/boat/interview/PeopleProcessor.java:56-57 | The null filter keeps as many records as the input has non-null entries. |
| `PeopleProcessor.PresentMembers` | src/main/java/com/cgi/boat/interview/PeopleProcessor.java:57 | A person survives the null filter exactly when the input holds a non-null reference to it. |
| `PeopleProcessor.Append` | src/main/java/com/cgi/boat/interview/PeopleProcessor.java:58-61 | Adding one record's value adds its key if the key is new. It extends that key's list by the value at the end and leaves every other key's list unchanged. |
| `PeopleProcessor.Group` | src/main/java/com/cgi/boat/interview/PeopleProcessor.java:58-61 | Every key of the grouping maps to a non-empty list. |
| `PeopleProcessor.GroupUpperCase` | src/main/java/com/cgi/boat/interview/PeopleProcessor.java:58-61 | Every key of a grouping and every value in its lists has no ASCII lower-case letter. |
| `PeopleProcessor.CreateMap` | src/main/java/com/cgi/boat/interview/PeopleProcessor.java:52-54 | A `null` list or an empty list gives the empty map. |
| `PeopleProcessor.LastnamesByFirstname` | src/main/java/com/cgi/boat/interview/PeopleProcessor.java:28-30 | A `null` or empty list gives the empty map, and every first name in the result has a non-empty list of last names. Its relation to `firstnamesByLastname` is proved by `Duality`, and the documentation example by `DocExampleByFirstname`. |
| `PeopleProcessor.FirstnamesByLastname` | src/main/java/com/cgi/boat/interview/PeopleProcessor.java:45-47 | A `null` or empty list gives the empty map, and every last name in the result has a non-empty list of first names. Its relation to `lastnamesByFirstname` is proved by `Duality`, and the documentation example by `DocExampleByLastname`. |
| `PeopleProcessor.GroupIsColumn` | src/main/java/com/cgi/boat/interview/PeopleProcessor.java:58-61 | The list under each key (empty if the key is absent) equals the reference column. That column holds the values of the records with that key, in input order, with duplicates kept. |
| `PeopleProcessor.ColumnNonEmpty` | src/main/java/com/cgi/boat/interview/PeopleProcessor.java:58-59 | A key's reference column is non-empty exactly when some record normalises to that key. |
| `PeopleProcessor.GroupKeys` | src/main/java/com/cgi/boat/interview/PeopleProcessor.java:58-59 | The keys of the grouping are exactly the normalised keys of the records. |
| `PeopleProcessor.ColumnHasRecord` | src/main/java/com/cgi/boat/interview/PeopleProcessor.java:58-61 | Every record's normalised value appears in the column of its normalised key. |
| `PeopleProcessor.SumOverRemove` | src/main/java/com/cgi/boat/interview/PeopleProcessor.java:58-61 | The total list length over a set of keys is one key's list length plus the total over the other keys. |
| `PeopleProcessor.SumOverSameLengths` | src/main/java/com/cgi/boat/interview/PeopleProcessor.java:58-61 | Two groupings whose lists have the same lengths on a set of keys have the same total over those keys. |
| `PeopleProcessor.AppendAddsOne` | src/main/java/com/cgi/boat/interview/PeopleProcessor.java:60-61 | Filing one value raises the total number of values by exactly one. |
| `PeopleProcessor.GroupConservesCount` | src/main/java/com/cgi/boat/interview/PeopleProcessor.java:58-61 | The lengths of all lists of the grouping add up to the number of records grouped. |
| `PeopleProcessor.CreateMapConservesCount` | src/main/java/com/cgi/boat/interview/PeopleProcessor.java:52-61 | The lengths of all lists in the result add up to the number of non-null records in the input. A `null` list gives a total of zero. |
| `PeopleProcessor.CreateMapShape` | src/main/java/com/cgi/boat/interview/PeopleProcessor.java:58-61 | Every key of the result maps to a non-empty list. Upper-casing any key or value of the result again changes nothing. |
| `PeopleProcessor.PresentAppend` | src/main/java/com/cgi/boat/interview/PeopleProcessor.java:57 | Filtering a concatenation gives the concatenation of the filtered parts. |
| `PeopleProcessor.NullRecordIgnored` | src/main/java/com/cgi/boat/interview/PeopleProcessor.java:52-57 | Inserting a `null` record anywhere in the list leaves the result unchanged. |
| `PeopleProcessor.CreateMapKeys` | src/main/java/com/cgi/boat/interview/PeopleProcessor.java:57-59 | A string is a key of the result exactly when some non-null record's normalised key equals it. |
| `PeopleProcessor.RecordFiled` | src/main/java/com/cgi/boat/interview/PeopleProcessor.java:57-61 | Every non-null record's normalised value is in the list under its normalised key. A `null` key field files it under `"N/A"`, and a `null` value field contributes `"N/A"`. |
| `PeopleProcessor.CreateMapIsColumn` | src/main/java/com/cgi/boat/interview/PeopleProcessor.java:56-61 | The result's list under any key is the reference column of the non-null records. This gives per-key input order, with duplicates kept. |
| `PeopleProcessor.ColumnDuality` | src/main/java/com/cgi/boat/interview/PeopleProcessor.java:58-61 | Swapping the key and value selectors transposes the columns: `v` occurs under `k` as often as `k` occurs under `v`. |
| `PeopleProcessor.Duality` | src/main/java/com/cgi/boat/interview/PeopleProcessor.java:28-47 | `v` occurs in `lastnamesByFirstname(p)[k]` as often as `k` occurs in `firstnamesByLastname(p)[v]`. An absent key counts as an empty list. |
| `PeopleProcessor.DocPeoplePresent` | src/main/java/com/cgi/boat/interview/PeopleProcessor.java:21 | The null filter keeps all three records of the example input John Doe, John Silver, Peter Doe, in order. |
| `PeopleProcessor.NormalizeAsciiName` | src/main/java/com/cgi/boat/interview/PeopleProcessor.java:60-61 | A non-null name normalises to the string whose every character is the upper case of the name's character at the same position. |
| `PeopleProcessor.DocNamesNormalized` | src/main/java/com/cgi/boat/interview/PeopleProcessor.java:21-26 | The example's names John, Peter, Doe and Silver normalise to JOHN, PETER, DOE and SILVER. |
| `PeopleProcessor.GroupOfThree` | src/main/java/com/cgi/boat/interview/PeopleProcessor.java:58-61 | Grouping three records files their values one after another, in input order. |
| `PeopleProcessor.AppendChainFirstname` | src/main/java/com/cgi/boat/interview/PeopleProcessor.java:23-26 | Filing (JOHN, DOE), (JOHN, SILVER) and (PETER, DOE) in that order gives `{JOHN: [DOE, SILVER], PETER: [DOE]}`. |
| `PeopleProcessor.AppendChainLastname` | src/main/java/com/cgi/boat/interview/PeopleProcessor.java:40-43 | Filing (DOE, JOHN), (SILVER, JOHN) and (DOE, PETER) in that order gives `{DOE: [JOHN, PETER], SILVER: [JOHN]}`. |
| `PeopleProcessor.DocExampleByFirstname` | src/main/java/com/cgi/boat/interview/PeopleProcessor.java:20-29 | `lastnamesByFirstname` of John Doe, John Silver, Peter Doe is `{JOHN: [DOE, SILVER], PETER: [DOE]}`. |
| `PeopleProcessor.DocExampleByLastname` | src/main/java/com/cgi/boat/interview/PeopleProcessor.java:37-46 | `firstnamesByLastname` of the same input is `{DOE: [JOHN, PETER], SILVER: [JOHN]}`. |
| `PeopleProcessor.NullFirstNameExample` | src/main/java/com/cgi/boat/interview/PeopleProcessor.java:58-61 | `lastnamesByFirstname` of a single person with a `null` first name and last name Doe is `{N/A: [DOE]}`. |

## Left out

- `Strings.ToUpperCase`: models ASCII upper-casing only (`a`-`z` to `A`-`Z`). Java's `toUpperCase()` follows the default locale and full Unicode case mapping, which can change a string's length (`ß` to `SS`, for example). The length and idempotence facts are proved only for the ASCII model.
- The Java Stream and Collector machinery (`stream`, `groupingBy`, `mapping`, `toList`) is not modelled as such. Only the function it computes is modelled, as a left fold over the non-null records.
- The key iteration order of the returned `HashMap` is not modelled, because the source promises none. The result is an unordered Dafny `map`.
- Mutability and identity of the returned `HashMap` and `List` objects are not modelled. The result is a value.
- The `Person` class is not part of this model. Only its two getters are used, and they become the fields of a datatype.
