/**
 * UserServiceImplementation: stateless queries over a list of users. Each
 * operation is one stream pipeline; here each is a function over the
 * sequence of users, and the lemmas beside it state what the pipeline
 * promises.
 */
module UserService {
  import opened Wrappers
  import opened Comparators
  import opened Streams
  import opened Collectors
  import opened Domain

  // ---------------------------------------------------------------------
  // getFirstNamesReverseSorted

  /** The first names, sorted in reverse natural order of String. */
  function FirstNamesReverseSorted(users: seq<User>): (r: seq<string>)
    ensures multiset(r) == multiset(MapEach(users, FirstName))
    ensures forall i, j :: 0 <= i < j < |r| ==> CompareTo(r[i], r[j]) >= 0
  {
    CompareToValid();
    ReversedValid(CompareTo);
    var r := Sorted(MapEach(users, FirstName), Reversed(CompareTo));
    SortedIsSorted(MapEach(users, FirstName), Reversed(CompareTo));
    forall i, j | 0 <= i < j < |r| ensures CompareTo(r[i], r[j]) >= 0 {
      CompareToAntisymmetric(r[i], r[j]);
    }
    r
  }

  // ---------------------------------------------------------------------
  // sortByAgeDescAndNameAsc

  /** Compares users by age in reverse order, then by first name in natural order. */
  function AgeDescThenFirstName(): Comparator<User> {
    ThenComparing(Comparing(Age, Reversed(IntegerCompare)), Comparing(FirstName, CompareTo))
  }

  lemma AgeDescThenFirstNameValid()
    ensures Valid(AgeDescThenFirstName())
  {
    IntegerCompareValid();
    ReversedValid(IntegerCompare);
    ComparingValid(Age, Reversed(IntegerCompare));
    CompareToValid();
    ComparingValid(FirstName, CompareTo);
    ThenComparingValid(Comparing(Age, Reversed(IntegerCompare)), Comparing(FirstName, CompareTo));
  }

  /** a comes no later than b: it is older, or as old with a first name not after b's. */
  lemma AgeDescThenFirstNameOrder(a: User, b: User)
    ensures AgeDescThenFirstName()(a, b) <= 0 <==>
      a.age > b.age || (a.age == b.age && CompareTo(a.firstName, b.firstName) <= 0)
    ensures AgeDescThenFirstName()(a, b) == 0 <==> a.age == b.age && a.firstName == b.firstName
  {
    var byAge := Comparing(Age, Reversed(IntegerCompare));
    assert byAge(a, b) == IntegerCompare(b.age, a.age);
    assert Comparing(FirstName, CompareTo)(a, b) == CompareTo(a.firstName, b.firstName);
    CompareToZero(a.firstName, b.firstName);
  }

  /** Users ordered by age, oldest first, and by first name among equal ages. */
  function SortByAgeDescAndNameAsc(users: seq<User>): (r: seq<User>)
    ensures multiset(r) == multiset(users)
    ensures forall i, j :: 0 <= i < j < |r| ==>
      r[i].age > r[j].age || (r[i].age == r[j].age && CompareTo(r[i].firstName, r[j].firstName) <= 0)
  {
    AgeDescThenFirstNameValid();
    var r := Sorted(users, AgeDescThenFirstName());
    SortedIsSorted(users, AgeDescThenFirstName());
    forall i, j | 0 <= i < j < |r|
      ensures r[i].age > r[j].age || (r[i].age == r[j].age && CompareTo(r[i].firstName, r[j].firstName) <= 0)
    {
      AgeDescThenFirstNameOrder(r[i], r[j]);
    }
    r
  }

  /** The users with the same age and first name as y. */
  function SameAgeAndFirstName(y: User): User -> bool {
    (u: User) => u.age == y.age && u.firstName == y.firstName
  }

  /** Users that tie on age and first name keep their relative order (the sort is stable). */
  lemma SortByAgeDescAndNameAscStable(users: seq<User>, y: User)
    ensures Filter(SortByAgeDescAndNameAsc(users), SameAgeAndFirstName(y)) == Filter(users, SameAgeAndFirstName(y))
  {
    var cmp := AgeDescThenFirstName();
    AgeDescThenFirstNameValid();
    SortedIsStable(users, cmp, y);
    forall u ensures SameRank(cmp, y)(u) == SameAgeAndFirstName(y)(u) {
      AgeDescThenFirstNameOrder(u, y);
    }
    FilterAgree(users, SameRank(cmp, y), SameAgeAndFirstName(y));
    FilterAgree(Sorted(users, cmp), SameRank(cmp, y), SameAgeAndFirstName(y));
  }

  // ---------------------------------------------------------------------
  // getAllDistinctPrivileges

  /** The privileges in a set, streamed in declaration order. */
  function PrivilegesOf(u: User): seq<Privilege> {
    Filter(AllPrivileges, p => p in u.privileges)
  }

  lemma PrivilegesOfMembers(u: User)
    ensures forall p :: p in PrivilegesOf(u) <==> p in u.privileges
  {
    FilterMembers(AllPrivileges, p => p in u.privileges);
    forall p ensures p in AllPrivileges { AllPrivilegesListed(p); }
  }

  /** Every user's privileges, one user after another. */
  function AllPrivilegeOccurrences(users: seq<User>): seq<Privilege> {
    FlatMap(users, PrivilegesOf)
  }

  /**
   * Every privilege some user holds, once each, in the order of first
   * appearance in the flattened stream of privileges.
   */
  function AllDistinctPrivileges(users: seq<User>): (r: seq<Privilege>)
    ensures NoDuplicates(r)
    ensures forall p :: p in r <==> exists u :: u in users && p in u.privileges
    ensures forall p :: p in r <==> p in AllPrivilegeOccurrences(users)
    ensures forall i, j :: 0 <= i < j < |r| ==>
      FirstIndex(AllPrivilegeOccurrences(users), r[i]) < FirstIndex(AllPrivilegeOccurrences(users), r[j])
  {
    forall u | u in users { PrivilegesOfMembers(u); }
    Distinct(AllPrivilegeOccurrences(users))
  }

  // ---------------------------------------------------------------------
  // getUpdateUserWithAgeHigherThan

  /** Older than age and holding UPDATE. */
  function OlderWithUpdate(age: int): User -> bool {
    (u: User) => u.age > age && UPDATE in u.privileges
  }

  /** Some user older than age who holds UPDATE, or nothing when there is none. */
  function UpdateUserWithAgeHigherThan(users: seq<User>, age: int): (r: Option<User>)
    ensures r.Some? ==> r.value in users && r.value.age > age && UPDATE in r.value.privileges
    ensures r.None? <==> forall u :: u in users ==> !(u.age > age && UPDATE in u.privileges)
  {
    FilterMembers(users, OlderWithUpdate(age));
    var candidates := Filter(users, OlderWithUpdate(age));
    assert candidates != [] ==> candidates[0] in candidates;
    FindAny(candidates)
  }

  // ---------------------------------------------------------------------
  // groupByCountOfPrivileges

  /** The number of privileges a user holds. */
  function PrivilegeCount(u: User): int { |u.privileges| }

  /**
   * Users grouped by how many privileges they hold: a key for every count
   * that occurs, mapped to the users with that count in input order.
   */
  function GroupByCountOfPrivileges(users: seq<User>): (r: map<int, seq<User>>)
    ensures r.Keys == set u | u in users :: |u.privileges|
    ensures forall k :: k in r ==> r[k] == Filter(users, KeyIs(PrivilegeCount, k))
    ensures forall k :: k in r ==> |r[k]| > 0
    ensures forall u :: u in users ==> u in r[|u.privileges|]
    ensures forall k, u :: k in r && u in r[k] ==> |u.privileges| == k
  {
    var r := GroupingBy(users, PrivilegeCount);
    GroupingByGroups(users, PrivilegeCount);
    forall k | k in r { GroupsAreNonEmpty(users, PrivilegeCount, k); }
    forall u | u in users ensures u in r[|u.privileges|] {
      assert |u.privileges| in KeysOf(users, PrivilegeCount);
      GroupsPartition(users, PrivilegeCount, u, |u.privileges|);
    }
    r
  }

  // ---------------------------------------------------------------------
  // getAverageAgeForUsers

  /** The sum of the ages, as IntStream.average accumulates it (in a long). */
  function SumOfAges(users: seq<User>): int
    decreases |users|
  {
    if |users| == 0 then 0 else SumOfAges(users[..|users| - 1]) + users[|users| - 1].age
  }

  /**
   * The mean age, or -1 for no users. The mean is exact here; the source
   * computes it in double precision.
   */
  function AverageAgeForUsers(users: seq<User>): (r: real)
    ensures |users| == 0 ==> r == -1.0
    ensures |users| > 0 ==> r * (|users| as real) == SumOfAges(users) as real
  {
    if |users| == 0 then -1.0 else SumOfAges(users) as real / |users| as real
  }

  lemma MultiplySuccessor(n: real, a: real)
    ensures (n + 1.0) * a == n * a + a
  {
  }

  /** All ages below a make the sum fall short of |users| * a. */
  lemma {:induction false} SumOfAgesBelow(users: seq<User>, a: real)
    requires |users| > 0
    requires forall i :: 0 <= i < |users| ==> users[i].age as real < a
    ensures (SumOfAges(users) as real) < (|users| as real) * a
    decreases |users|
  {
    if |users| > 1 {
      var init := users[..|users| - 1];
      assert forall i :: 0 <= i < |init| ==> init[i].age as real < a;
      SumOfAgesBelow(init, a);
      MultiplySuccessor(|init| as real, a);
      assert |users| as real == |init| as real + 1.0;
    }
  }

  /** All ages above a make the sum exceed |users| * a. */
  lemma {:induction false} SumOfAgesAbove(users: seq<User>, a: real)
    requires |users| > 0
    requires forall i :: 0 <= i < |users| ==> users[i].age as real > a
    ensures (SumOfAges(users) as real) > (|users| as real) * a
    decreases |users|
  {
    if |users| > 1 {
      var init := users[..|users| - 1];
      assert forall i :: 0 <= i < |init| ==> init[i].age as real > a;
      SumOfAgesAbove(init, a);
      MultiplySuccessor(|init| as real, a);
      assert |users| as real == |init| as real + 1.0;
    }
  }

  /** The mean of a non-empty list lies between the youngest and the oldest age. */
  lemma AverageAgeBetweenExtremes(users: seq<User>)
    requires |users| > 0
    ensures exists i :: 0 <= i < |users| && users[i].age as real <= AverageAgeForUsers(users)
    ensures exists j :: 0 <= j < |users| && users[j].age as real >= AverageAgeForUsers(users)
  {
    var avg := AverageAgeForUsers(users);
    if forall i :: 0 <= i < |users| ==> users[i].age as real > avg {
      SumOfAgesAbove(users, avg);
      assert false;
    }
    if forall j :: 0 <= j < |users| ==> users[j].age as real < avg {
      SumOfAgesBelow(users, avg);
      assert false;
    }
  }

  // ---------------------------------------------------------------------
  // getNumberOfLastNames

  /** The last names of the users, in order. */
  function LastNames(users: seq<User>): seq<string> {
    MapEach(users, LastName)
  }

  /** How many users carry each last name that occurs. */
  function NumberOfLastNames(users: seq<User>): (r: map<string, nat>)
    ensures r.Keys == set u | u in users :: u.lastName
    ensures forall n :: n in r ==> r[n] == multiset(LastNames(users))[n] && r[n] >= 1
  {
    var names := LastNames(users);
    assert (set n | n in names) == set u | u in users :: u.lastName by {
      forall n | n in names ensures exists u :: u in users && u.lastName == n {
        var i :| 0 <= i < |names| && names[i] == n;
        assert users[i] in users && users[i].lastName == n;
      }
      forall u | u in users ensures u.lastName in names {
        var i :| 0 <= i < |users| && users[i] == u;
        assert names[i] == u.lastName;
      }
    }
    Frequencies(names)
  }

  /** The counts add up to the number of users. */
  lemma NumberOfLastNamesSum(users: seq<User>)
    ensures SumValues(NumberOfLastNames(users)) == |users|
  {
    FrequenciesSum(LastNames(users));
  }

  // ---------------------------------------------------------------------
  // getMostFrequentLastName

  /** The entries whose count exceeds one: the names that occur more than once. */
  function Repeated(counts: map<string, nat>): map<string, nat> {
    map n | n in counts && counts[n] > 1 :: counts[n]
  }

  /**
   * The entries grouped by their count: for each count, the names with that
   * count. Java groups the entries into lists, and the model groups their
   * names into sets. The two have the same size, because the entries come
   * from one map and so have distinct names. Therefore the test that a group
   * has exactly one member means the same in both.
   */
  function NamesByCount(counts: map<string, nat>): map<nat, set<string>> {
    map c | c in counts.Values :: set n | n in counts && counts[n] == c
  }

  /** m is the largest element of s. */
  predicate IsLargest(s: set<nat>, m: nat) {
    m in s && forall x :: x in s ==> x <= m
  }

  /** A finite non-empty set of counts has a largest element. */
  lemma {:induction false} LargestExists(s: set<nat>)
    requires s != {}
    ensures exists m :: IsLargest(s, m)
    decreases |s|
  {
    var y :| y in s;
    var rest := s - {y};
    assert s == rest + {y};
    if rest == {} {
      assert IsLargest(s, y);
    } else {
      LargestExists(rest);
      var m :| IsLargest(rest, m);
      if y > m {
        assert IsLargest(s, y);
      } else {
        assert IsLargest(s, m);
      }
    }
  }

  /** The largest count among the groups (Stream.max by key). */
  function Largest(s: set<nat>): (m: nat)
    requires s != {}
    ensures m in s && forall x :: x in s ==> x <= m
  {
    LargestExists(s);
    var m :| IsLargest(s, m); m
  }

  /** The one name of a group of size one. */
  function Only(s: set<string>): (x: string)
    requires |s| == 1
    ensures s == {x}
  {
    var x :| x in s;
    assert s == {x} by {
      assert |s - {x}| == 0;
    }
    x
  }

  /**
   * The last name that occurs more often than any other and at least twice;
   * nothing when there are no users, when every last name is unique, or
   * when two or more names share the highest repeated count.
   */
  function MostFrequentLastName(users: seq<User>): Option<string> {
    var groups := NamesByCount(Repeated(Frequencies(LastNames(users))));
    if |groups| == 0 then None
    else
      assert groups.Keys != {};
      var top := Largest(groups.Keys);
      if |groups[top]| == 1 then Some(Only(groups[top])) else None
  }

  /** n occurs at least twice and strictly more often than every other name. */
  ghost predicate IsMostFrequentRepeated(names: seq<string>, n: string) {
    multiset(names)[n] >= 2 && forall m :: m != n ==> multiset(names)[m] < multiset(names)[n]
  }

  /** A name is repeated exactly when it occurs at least twice, and then it keeps its count. */
  lemma RepeatedNames(names: seq<string>, n: string)
    ensures n in Repeated(Frequencies(names)) <==> multiset(names)[n] >= 2
    ensures n in Repeated(Frequencies(names)) ==> Repeated(Frequencies(names))[n] == multiset(names)[n]
  {
    if multiset(names)[n] >= 2 {
      assert n in names;
    }
  }

  /** A count is a key of NamesByCount exactly when some name has it, and its group holds exactly those names. */
  lemma NamesByCountGroups(rep: map<string, nat>, c: nat, n: string)
    ensures c in NamesByCount(rep) <==> exists m :: m in rep && rep[m] == c
    ensures c in NamesByCount(rep) ==> (n in NamesByCount(rep)[c] <==> n in rep && rep[n] == c)
  {
    if exists m :: m in rep && rep[m] == c {
      var m :| m in rep && rep[m] == c;
      assert c in rep.Values;
    }
  }

  /** A name found is the strict, repeated most frequent last name. */
  lemma MostFrequentLastNameSound(users: seq<User>)
    ensures MostFrequentLastName(users).Some? ==>
      IsMostFrequentRepeated(LastNames(users), MostFrequentLastName(users).value)
  {
    var names := LastNames(users);
    var rep := Repeated(Frequencies(names));
    var groups := NamesByCount(rep);
    if MostFrequentLastName(users).Some? {
      var top := Largest(groups.Keys);
      var n := Only(groups[top]);
      assert n == MostFrequentLastName(users).value;
      NamesByCountGroups(rep, top, n);
      RepeatedNames(names, n);
      forall m | m != n ensures multiset(names)[m] < multiset(names)[n] {
        RepeatedNames(names, m);
        if m in rep {
          NamesByCountGroups(rep, rep[m], m);
          NamesByCountGroups(rep, top, m);
        }
      }
    }
  }

  /** The strict, repeated most frequent last name is always found. */
  lemma MostFrequentLastNameComplete(users: seq<User>, n: string)
    requires IsMostFrequentRepeated(LastNames(users), n)
    ensures MostFrequentLastName(users) == Some(n)
  {
    var names := LastNames(users);
    var rep := Repeated(Frequencies(names));
    var groups := NamesByCount(rep);
    RepeatedNames(names, n);
    NamesByCountGroups(rep, rep[n], n);
    var top := Largest(groups.Keys);
    NamesByCountGroups(rep, top, n);
    var m :| m in rep && rep[m] == top;
    RepeatedNames(names, m);
    assert m == n;
    forall x | x in groups[top] ensures x == n {
      NamesByCountGroups(rep, top, x);
      RepeatedNames(names, x);
    }
    assert groups[top] == {n};
    assert |groups| != 0;
    assert Only(groups[top]) == n;
  }

  /** The result is a name exactly when that name is the strict, repeated most frequent one. */
  lemma MostFrequentLastNameSpec(users: seq<User>, n: string)
    ensures MostFrequentLastName(users) == Some(n) <==> IsMostFrequentRepeated(LastNames(users), n)
    ensures MostFrequentLastName(users) == None <==> forall m :: !IsMostFrequentRepeated(LastNames(users), m)
  {
    MostFrequentLastNameSound(users);
    if IsMostFrequentRepeated(LastNames(users), n) {
      MostFrequentLastNameComplete(users, n);
    }
    if MostFrequentLastName(users) == None {
      forall m ensures !IsMostFrequentRepeated(LastNames(users), m) {
        if IsMostFrequentRepeated(LastNames(users), m) {
          MostFrequentLastNameComplete(users, m);
        }
      }
    }
  }

  /** No users, no name. */
  lemma MostFrequentLastNameOfNoUsers()
    ensures MostFrequentLastName([]) == None
  {
    MostFrequentLastNameSound([]);
  }

  /** In a sequence without duplicates every element occurs at most once. */
  lemma {:induction false} OccursAtMostOnce(s: seq<string>, x: string)
    requires NoDuplicates(s)
    ensures multiset(s)[x] <= 1
    decreases |s|
  {
    if |s| > 0 {
      var init := s[..|s| - 1];
      OccursAtMostOnce(init, x);
      assert s == init + [s[|s| - 1]];
      if x == s[|s| - 1] {
        assert x !in init;
      }
    }
  }

  /** When every last name is unique there is no repeated name to return. */
  lemma MostFrequentLastNameAllDistinct(users: seq<User>)
    requires forall i, j :: 0 <= i < j < |users| ==> users[i].lastName != users[j].lastName
    ensures MostFrequentLastName(users) == None
  {
    var names := LastNames(users);
    MostFrequentLastNameSound(users);
    if MostFrequentLastName(users).Some? {
      OccursAtMostOnce(names, MostFrequentLastName(users).value);
    }
  }

  /** Two names tied at the highest count leave no answer, whatever lower repeats exist. */
  lemma MostFrequentLastNameTopTie(users: seq<User>, a: string, b: string)
    requires a != b
    requires multiset(LastNames(users))[a] == multiset(LastNames(users))[b] >= 2
    requires forall m :: multiset(LastNames(users))[m] <= multiset(LastNames(users))[a]
    ensures MostFrequentLastName(users) == None
  {
    MostFrequentLastNameSound(users);
  }

  /** A single repeated name among otherwise unique names is the answer. */
  lemma MostFrequentLastNameSingleRepeat(users: seq<User>, n: string)
    requires multiset(LastNames(users))[n] >= 2
    requires forall m :: m != n ==> multiset(LastNames(users))[m] <= 1
    ensures MostFrequentLastName(users) == Some(n)
  {
    MostFrequentLastNameComplete(users, n);
  }

  // ---------------------------------------------------------------------
  // filterBy

  /** Predicate.and: both predicates hold. */
  function And(p: User -> bool, q: User -> bool): User -> bool {
    u => p(u) && q(u)
  }

  /** The predicate that accepts every user. */
  function AlwaysTrue(): User -> bool {
    u => true
  }

  /** The predicates reduced with Predicate.and, or the always-true predicate when there are none. */
  function Conjunction(predicates: seq<User -> bool>): User -> bool {
    Reduce(predicates, And).GetOr(AlwaysTrue())
  }

  /** Every predicate holds of u. */
  function SatisfiesAll(predicates: seq<User -> bool>): User -> bool {
    u => forall i :: 0 <= i < |predicates| ==> predicates[i](u)
  }

  lemma {:induction false} FoldAndHolds(acc: User -> bool, rest: seq<User -> bool>, u: User)
    ensures FoldLeft(acc, rest, And)(u) <==> acc(u) && SatisfiesAll(rest)(u)
    decreases |rest|
  {
    if |rest| > 0 {
      FoldAndHolds(And(acc, rest[0]), rest[1..], u);
      assert rest == [rest[0]] + rest[1..];
    }
  }

  /** The folded predicate holds exactly when every predicate holds; with none it always holds. */
  lemma ConjunctionHolds(predicates: seq<User -> bool>, u: User)
    ensures Conjunction(predicates)(u) <==> SatisfiesAll(predicates)(u)
  {
    if |predicates| > 0 {
      FoldAndHolds(predicates[0], predicates[1..], u);
      assert predicates == [predicates[0]] + predicates[1..];
    }
  }

  /** The users every predicate accepts. */
  function FilterBy(users: seq<User>, predicates: seq<User -> bool>): (r: seq<User>)
    ensures r == Filter(users, SatisfiesAll(predicates))
  {
    forall u ensures Conjunction(predicates)(u) == SatisfiesAll(predicates)(u) {
      ConjunctionHolds(predicates, u);
    }
    FilterAgree(users, Conjunction(predicates), SatisfiesAll(predicates));
    Filter(users, Conjunction(predicates))
  }

  /** With no predicates nothing is filtered out. */
  lemma FilterByNothing(users: seq<User>)
    ensures FilterBy(users, []) == users
  {
    FilterAll(users, SatisfiesAll([]));
  }

  /** Each user is kept as often as it occurs when all predicates accept it, and dropped otherwise. */
  lemma FilterByKeepsExactlyTheAccepted(users: seq<User>, predicates: seq<User -> bool>, u: User)
    ensures multiset(FilterBy(users, predicates))[u]
         == if forall i :: 0 <= i < |predicates| ==> predicates[i](u) then multiset(users)[u] else 0
  {
    FilterCount(users, SatisfiesAll(predicates));
  }

  /** Filtering keeps the input order: it distributes over concatenation. */
  lemma FilterByKeepsOrder(a: seq<User>, b: seq<User>, predicates: seq<User -> bool>)
    ensures FilterBy(a + b, predicates) == FilterBy(a, predicates) + FilterBy(b, predicates)
  {
    FilterConcat(a, b, SatisfiesAll(predicates));
  }

  // ---------------------------------------------------------------------
  // convertTo

  /** Each user mapped by mapFun, joined with the delimiter. */
  function ConvertTo(users: seq<User>, delimiter: string, mapFun: User -> string): string {
    Joining(MapEach(users, mapFun), delimiter)
  }

  /** The result holds each mapped user and one delimiter between neighbours. */
  lemma ConvertToLength(users: seq<User>, delimiter: string, mapFun: User -> string)
    ensures |users| == 0 ==> ConvertTo(users, delimiter, mapFun) == ""
    ensures |users| > 0 ==>
      |ConvertTo(users, delimiter, mapFun)| == TotalLength(MapEach(users, mapFun)) + (|users| - 1) * |delimiter|
  {
    if |users| > 0 {
      JoiningLength(MapEach(users, mapFun), delimiter);
    }
  }

  /** Splitting at a one-character delimiter no mapped user contains gives back the mapped users. */
  lemma ConvertToSplits(users: seq<User>, c: char, mapFun: User -> string)
    requires |users| > 0
    requires forall u :: u in users ==> c !in mapFun(u)
    ensures Split(ConvertTo(users, [c], mapFun), c) == MapEach(users, mapFun)
  {
    var parts := MapEach(users, mapFun);
    assert forall i :: 0 <= i < |parts| ==> c !in parts[i] by {
      forall i | 0 <= i < |parts| ensures c !in parts[i] { assert users[i] in users; }
    }
    JoiningSplitRoundTrip(parts, c);
  }

  // ---------------------------------------------------------------------
  // groupByPrivileges

  /** The users holding privilege p. */
  function Holds(p: Privilege): User -> bool {
    (u: User) => p in u.privileges
  }

  /** The entry pairing a privilege with the users holding it. */
  function HoldersEntry(users: seq<User>): Privilege -> (Privilege, seq<User>) {
    p => (p, Filter(users, Holds(p)))
  }

  /** The entry lists at least one user. */
  function HasHolders(e: (Privilege, seq<User>)): bool {
    |e.1| > 0
  }

  /** The entries that survive the size filter, one per privilege that someone holds. */
  function HolderEntries(users: seq<User>): (r: seq<(Privilege, seq<User>)>)
    ensures DistinctKeys(r)
    ensures forall i :: 0 <= i < |r| ==> r[i] == HoldersEntry(users)(r[i].0) && |r[i].1| > 0
    ensures forall p :: p in AllPrivileges && |Filter(users, Holds(p))| > 0 ==> exists i :: 0 <= i < |r| && r[i].0 == p
  {
    var all := MapEach(AllPrivileges, HoldersEntry(users));
    var r := Filter(all, HasHolders);
    FilterMembers(all, HasHolders);
    assert forall e :: e in all ==> e == HoldersEntry(users)(e.0);
    assert DistinctKeys(r) by {
      assert DistinctKeys(all);
      FilterKeepsDistinctKeys(all, HasHolders);
    }
    forall p | p in AllPrivileges && |Filter(users, Holds(p))| > 0
      ensures exists i :: 0 <= i < |r| && r[i].0 == p
    {
      var k :| 0 <= k < |AllPrivileges| && AllPrivileges[k] == p;
      assert all[k] in r;
    }
    r
  }

  lemma {:induction false} FilterKeepsDistinctKeys(s: seq<(Privilege, seq<User>)>, p: ((Privilege, seq<User>)) -> bool)
    requires DistinctKeys(s)
    ensures DistinctKeys(Filter(s, p))
    ensures forall e :: e in Filter(s, p) ==> e in s
    decreases |s|
  {
    if |s| > 0 {
      var init := s[..|s| - 1];
      FilterKeepsDistinctKeys(init, p);
      FilterMembers(s, p);
      assert forall e :: e in init ==> e.0 != s[|s| - 1].0;
    }
  }

  /**
   * For every privilege someone holds, the users holding it in input order;
   * privileges nobody holds get no key.
   */
  function GroupByPrivileges(users: seq<User>): (r: map<Privilege, seq<User>>)
    ensures forall p :: p in r <==> exists u :: u in users && p in u.privileges
    ensures forall p :: p in r ==> r[p] == Filter(users, Holds(p))
  {
    var entries := HolderEntries(users);
    var m := ToMap(entries).value;
    forall p ensures p in m <==> exists u :: u in users && p in u.privileges {
      AllPrivilegesListed(p);
      FilterMembers(users, Holds(p));
      if p in m {
        var i :| 0 <= i < |entries| && entries[i].0 == p;
        var f := Filter(users, Holds(p));
        assert entries[i].1 == f && |f| > 0;
        assert f[0] in f;
      }
      if exists u :: u in users && p in u.privileges {
        var u :| u in users && p in u.privileges;
        assert u in Filter(users, Holds(p));
      }
    }
    forall p | p in m ensures m[p] == Filter(users, Holds(p)) {
      var i :| 0 <= i < |entries| && entries[i].0 == p;
    }
    m
  }
}
