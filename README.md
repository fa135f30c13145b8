# User query service — a Dafny model

This project models `UserServiceImplementation`, a stateless Java service
that answers queries over a list of users. A user has a first name, a last
name, an age and a set of privileges. Every operation of the service is one
stream pipeline over that list, and nothing is mutated. So the model is a set
of pure functions over sequences and maps, and lemmas state what each
pipeline promises.

The modules follow the layers the service is built from:

- `Wrappers`: `Option`, the model of `java.util.Optional`.
- `Comparators`: `Comparator` as a function `(T, T) -> int`; `String.compareTo`,
  `Integer.compare`, `reverseOrder`, `comparing` and `thenComparing`. `Valid`
  is the contract a comparator must meet; each combinator is proved to preserve it.
- `Streams`: the stream operations the service uses (`filter`, `map`,
  `flatMap`, `distinct`, `reduce`, `findAny` and the stable `sorted`).
  A sequential ordered stream is its sequence of elements.
- `Collectors`: `groupingBy`, `groupingBy` with `counting`, `joining` and
  `toMap`. A `HashMap` result is a Dafny `map`.
- `Domain`: `User` and `Privilege`.
- `UserService`: the service operations and their properties.
- `Scenarios`: three worked examples of the most-frequent-last-name rule.

The most subtle operation is `getMostFrequentLastName`. It counts the last
names and keeps only the names that occur more than once. It then groups
those names by count and takes the highest count. It answers only when
exactly one name has that count. `MostFrequentLastNameSpec` proves the
pipeline equal to a relational statement: the answer is `n` exactly when `n`
occurs at least twice and strictly more often than every other name.
Otherwise the answer is `None`. So there is no answer for no users, for all
names distinct, or for a tie at the top.

`filterBy` reduces its predicates with `Predicate.and`. With no predicates it
falls back to the always-true predicate. `FilterBy` is proved equal to
filtering by "every predicate holds". Filtering with no predicates keeps
the whole list.

`User` and `Privilege` (package `com.endava.internship.domain`) are outside
this model. A user is modelled as an immutable record whose privileges form a
set. `Privilege` is taken to be `CREATE, READ, UPDATE, DELETE` in that
declaration order. The service relies only on `UPDATE` and on
`Privilege.values()` listing every constant exactly once.

## Model

| member | source | states |
|---|---|---|
| `UserService.FirstNamesReverseSorted` | src/main/java/com/endava/internship/service/UserServiceImplementation.java:20-25 | the result is a permutation of the users' first names, and no name is followed by a later one in `String.compareTo` order |
| `UserService.AgeDescThenFirstNameValid` | src/main/java/com/endava/internship/service/UserServiceImplementation.java:30-31 | "age descending, then first name" is a valid comparator (sign-antisymmetric and transitive), so the sort is well defined |
| `UserService.AgeDescThenFirstNameOrder` | src/main/java/com/endava/internship/service/UserServiceImplementation.java:30-31 | a user comes no later than another exactly when older, or as old with a first name not after the other's; they tie exactly when age and first name are equal |
| `UserService.SortByAgeDescAndNameAsc` | src/main/java/com/endava/internship/service/UserServiceImplementation.java:28-33 | the result is a permutation of the input, ordered by age descending and by first name ascending among equal ages |
| `UserService.SortByAgeDescAndNameAscStable` | src/main/java/com/endava/internship/service/UserServiceImplementation.java:28-33 | users with equal age and first name keep their input order (the stream sort is stable) |
| `UserService.PrivilegesOfMembers` | src/main/java/com/endava/internship/service/UserServiceImplementation.java:38 | streaming a user's privileges yields exactly the privileges in the user's set |
| `UserService.AllDistinctPrivileges` | src/main/java/com/endava/internship/service/UserServiceImplementation.java:36-41 | no duplicates; a privilege is listed exactly when some user holds it; the order is that of first appearance in the flattened stream |
| `UserService.UpdateUserWithAgeHigherThan` | src/main/java/com/endava/internship/service/UserServiceImplementation.java:44-48 | a returned user is in the list, older than `age` and holds UPDATE; the result is empty exactly when no such user exists |
| `UserService.GroupByCountOfPrivileges` | src/main/java/com/endava/internship/service/UserServiceImplementation.java:51-53 | one key per privilege count that occurs; each group is non-empty and holds exactly the users with that count, in input order; every user is in the group of its own count and in no other |
| `UserService.AverageAgeForUsers` | src/main/java/com/endava/internship/service/UserServiceImplementation.java:57-62 | -1 for no users; otherwise the result times the number of users is the sum of the ages |
| `UserService.AverageAgeBetweenExtremes` | src/main/java/com/endava/internship/service/UserServiceImplementation.java:57-62 | the average of a non-empty list lies between the youngest and the oldest user's age |
| `UserService.RepeatedNames` | src/main/java/com/endava/internship/service/UserServiceImplementation.java:68-70 | after counting and the count > 1 filter, a name survives exactly when it occurs at least twice, keeping its occurrence count |
| `UserService.Largest` | src/main/java/com/endava/internship/service/UserServiceImplementation.java:73 | the chosen count is a group key and no key exceeds it |
| `UserService.Only` | src/main/java/com/endava/internship/service/UserServiceImplementation.java:74-75 | a group of size one yields its single name |
| `UserService.MostFrequentLastNameSound` | src/main/java/com/endava/internship/service/UserServiceImplementation.java:65-76 | a returned name occurs at least twice and strictly more often than every other last name |
| `UserService.MostFrequentLastNameComplete` | src/main/java/com/endava/internship/service/UserServiceImplementation.java:65-76 | a name that occurs at least twice and strictly more often than every other is returned |
| `UserService.MostFrequentLastNameSpec` | src/main/java/com/endava/internship/service/UserServiceImplementation.java:65-76 | the result is `Some(n)` exactly when `n` is the strict repeated most frequent name, and `None` exactly when there is no such name |
| `UserService.MostFrequentLastNameOfNoUsers` | src/main/java/com/endava/internship/service/UserServiceImplementation.java:65-76 | no users give no name |
| `UserService.MostFrequentLastNameAllDistinct` | src/main/java/com/endava/internship/service/UserServiceImplementation.java:70-73 | when every last name is unique there is no name, since the count > 1 filter leaves no candidates |
| `UserService.MostFrequentLastNameTopTie` | src/main/java/com/endava/internship/service/UserServiceImplementation.java:71-74 | two distinct names tied at the highest count (at least two) give no name, whatever lower repeats exist |
| `UserService.MostFrequentLastNameSingleRepeat` | src/main/java/com/endava/internship/service/UserServiceImplementation.java:70-75 | one repeated name among otherwise unique names is the answer |
| `Scenarios.TieAtTheTop` | src/main/java/com/endava/internship/service/UserServiceImplementation.java:65-76 | Smith, Jones, Smith, Lee, Jones gives no name |
| `Scenarios.ClearWinner` | src/main/java/com/endava/internship/service/UserServiceImplementation.java:65-76 | Smith, Jones, Smith, Lee, Lee, Lee gives Lee |
| `Scenarios.AllDistinct` | src/main/java/com/endava/internship/service/UserServiceImplementation.java:65-76 | A, B, C gives no name |
| `UserService.ConjunctionHolds` | src/main/java/com/endava/internship/service/UserServiceImplementation.java:81-82 | the reduced predicate holds of a user exactly when every supplied predicate does; with none it always holds |
| `UserService.FilterBy` | src/main/java/com/endava/internship/service/UserServiceImplementation.java:79-84 | the result is the input filtered by "every predicate holds" |
| `UserService.FilterByNothing` | src/main/java/com/endava/internship/service/UserServiceImplementation.java:81-82 | with no predicates the list is returned unchanged |
| `UserService.FilterByKeepsExactlyTheAccepted` | src/main/java/com/endava/internship/service/UserServiceImplementation.java:79-84 | each user occurs in the result as often as in the input if every predicate accepts it, and not at all otherwise |
| `UserService.FilterByKeepsOrder` | src/main/java/com/endava/internship/service/UserServiceImplementation.java:79-84 | filtering distributes over concatenation, so relative order is kept |
| `UserService.ConvertToLength` | src/main/java/com/endava/internship/service/UserServiceImplementation.java:87-89 | no users give the empty string; otherwise the length is the total length of the mapped users plus one delimiter between each two neighbours |
| `UserService.ConvertToSplits` | src/main/java/com/endava/internship/service/UserServiceImplementation.java:87-89 | with a one-character delimiter that no mapped user contains, splitting the result at it gives back the mapped users |
| `Domain.AllPrivilegesListed` | src/main/java/com/endava/internship/service/UserServiceImplementation.java:93 | the list of all privileges holds every privilege exactly once |
| `UserService.HolderEntries` | src/main/java/com/endava/internship/service/UserServiceImplementation.java:93-97 | the entries that survive the size filter have distinct keys; each pairs a privilege with its non-empty list of holders; every privilege with a holder has an entry |
| `UserService.GroupByPrivileges` | src/main/java/com/endava/internship/service/UserServiceImplementation.java:92-99 | a privilege is a key exactly when some user holds it, and maps to exactly its holders in input order |
| `UserService.NumberOfLastNames` | src/main/java/com/endava/internship/service/UserServiceImplementation.java:102-104 | the keys are exactly the last names that occur; each maps to its occurrence count, which is at least one |
| `UserService.NumberOfLastNamesSum` | src/main/java/com/endava/internship/service/UserServiceImplementation.java:102-104 | the counts add up to the number of users |
| `Comparators.CompareToValid` | src/main/java/com/endava/internship/service/UserServiceImplementation.java:23 | String's natural order is a valid comparator |
| `Comparators.CompareToZero` | src/main/java/com/endava/internship/service/UserServiceImplementation.java:31 | two strings compare equal exactly when they are equal |
| `Comparators.ThenComparingValid` | src/main/java/com/endava/internship/service/UserServiceImplementation.java:30-31 | breaking the ties of a valid comparator with a valid comparator is valid |
| `Comparators.ReversedValid` | src/main/java/com/endava/internship/service/UserServiceImplementation.java:23 | the reverse of a valid comparator is valid |
| `Comparators.ComparingValid` | src/main/java/com/endava/internship/service/UserServiceImplementation.java:30 | comparing by a key under a valid key comparator is valid |
| `Streams.SortedIsSorted` | src/main/java/com/endava/internship/service/UserServiceImplementation.java:29-30 | the stream sort returns its elements in comparator order |
| `Streams.SortedIsStable` | src/main/java/com/endava/internship/service/UserServiceImplementation.java:29-30 | the stream sort keeps the encounter order of elements the comparator ranks equal |
| `Streams.Sorted` | src/main/java/com/endava/internship/service/UserServiceImplementation.java:29-30 | the stream sort returns a permutation of its input |
| `Streams.FilterCount` | src/main/java/com/endava/internship/service/UserServiceImplementation.java:46 | a filter keeps every accepted element as often as it occurs, and nothing else |
| `Streams.FilterConcat` | src/main/java/com/endava/internship/service/UserServiceImplementation.java:81 | a filter keeps encounter order |
| `Streams.Distinct` | src/main/java/com/endava/internship/service/UserServiceImplementation.java:39 | no duplicates, the same elements, in the order of their first occurrence |
| `Streams.FindAny` | src/main/java/com/endava/internship/service/UserServiceImplementation.java:47 | some element of the stream, and empty exactly when the stream is |
| `Collectors.GroupingByGroups` | src/main/java/com/endava/internship/service/UserServiceImplementation.java:52 | the groups are exactly the keys that occur, each holding the elements with that key in encounter order |
| `Collectors.Frequencies` | src/main/java/com/endava/internship/service/UserServiceImplementation.java:68 | the keys are the elements that occur, each mapped to its number of occurrences |
| `Collectors.FrequenciesSum` | src/main/java/com/endava/internship/service/UserServiceImplementation.java:103 | the occurrence counts add up to the length of the input |
| `Collectors.JoiningSplitRoundTrip` | src/main/java/com/endava/internship/service/UserServiceImplementation.java:88 | with a one-character delimiter absent from the parts, splitting the joined string gives back the parts |
| `Collectors.ToMap` | src/main/java/com/endava/internship/service/UserServiceImplementation.java:98 | the collector fails exactly on a duplicate key; otherwise each key maps to its entry's value |

The functions that compute three of the operations have no row of their own.
They are `UserService.MostFrequentLastName` (lines 65-76), `UserService.ConvertTo`
(lines 87-89) and `UserService.Conjunction` (lines 81-82). The rows of the
lemmas about them above state what they promise. The same holds for the steps
of `MostFrequentLastName`: `UserService.Repeated` (line 70) and
`UserService.NamesByCount` (line 71). What the whole pipeline promises is
`MostFrequentLastNameSpec`.

## Left out

- `UserService.AverageAgeForUsers`: the average is exact rational arithmetic.
  The source computes it as a `double`, and its rounding is not modelled. The
  sum of the ages cannot overflow, since the source sums Java `int`s in a `long`.
- `UserService.UpdateUserWithAgeHigherThan`: `findAny` may return any qualifying
  user. The model's body takes the first one. Its contract names no particular
  user, so it is no stronger than the source's promise.
- Strings are sequences of Dafny characters (Unicode scalar values). Java
  compares UTF-16 code units, so the two orders can differ for characters
  outside the Basic Multilingual Plane.
- Ages are unbounded integers. Java `int` is 32-bit, but the service only
  compares ages and sums them in a `long`.
- The iteration order of `HashMap` results (`groupingBy`, `toMap`) is not
  modelled. The results are Dafny maps.
- The order in which `getPrivileges().stream()` yields a user's privileges
  depends on the collection `User` returns, which this model does not fix. The
  model streams them in declaration order. `UserService.AllDistinctPrivileges`
  states its order relative to that flattened stream.
- `User` and `Privilege` (package `com.endava.internship.domain`) are outside
  this model. Constants of `Privilege` other than `UPDATE` are assumed.
- `mapFun` and the predicates are treated as pure, total functions. Their side
  effects, exceptions and the short-circuit evaluation order of
  `Predicate.and` are not modelled; only the boolean result is.
- Nulls are not modelled, because Dafny strings, sets and sequences cannot be
  null. This covers null lists, users and predicates, and the null-dereference
  exceptions they cause. It also covers null fields, which can throw only on
  some inputs (line numbers are those of `UserServiceImplementation.java`):
  - A null first name throws when it is compared. At line 23 that needs two or
    more users. At line 31 it happens only between users of equal age.
  - A null last name throws at lines 68 and 103.
  - A null privilege collection throws at lines 38, 52 and 95. At line 46 it
    throws only for a user older than `age` that the filter reaches, because
    the age test comes first and `findAny` stops at the first match.
  - A null result of `mapFun` does not throw: `joining` writes the text "null"
    (line 88).
- `Collectors.Split` is the model's own inverse of joining. It is not
  `String.split`, which drops trailing empty strings. The round trip is stated
  only for one-character delimiters.
