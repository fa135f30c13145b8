/**
 * The java.util.stream operations the user service is built from. Every
 * stream here is sequential and ordered, so a stream is the sequence of its
 * elements in encounter order and each operation is a function on sequences.
 */
module Streams {
  import opened Wrappers
  import opened Comparators

  predicate NoDuplicates<T(==)>(s: seq<T>) {
    forall i, j :: 0 <= i < j < |s| ==> s[i] != s[j]
  }

  /** Stream.filter: the elements satisfying p, in encounter order. */
  function Filter<T>(s: seq<T>, p: T -> bool): (r: seq<T>)
    ensures |r| <= |s|
    decreases |s|
  {
    if |s| == 0 then []
    else
      var last := s[|s| - 1];
      Filter(s[..|s| - 1], p) + if p(last) then [last] else []
  }

  /** Filtering keeps every element that satisfies p, as often as it occurs, and nothing else. */
  lemma {:induction false} FilterCount<T(!new)>(s: seq<T>, p: T -> bool)
    ensures forall x :: multiset(Filter(s, p))[x] == if p(x) then multiset(s)[x] else 0
    decreases |s|
  {
    if |s| > 0 {
      FilterCount(s[..|s| - 1], p);
      assert s == s[..|s| - 1] + [s[|s| - 1]];
    }
  }

  /** An element is kept exactly when it occurs and satisfies p. */
  lemma FilterMembers<T(!new)>(s: seq<T>, p: T -> bool)
    ensures forall x :: x in Filter(s, p) <==> x in s && p(x)
  {
    FilterCount(s, p);
    forall x ensures x in Filter(s, p) <==> x in s && p(x) {
      assert x in Filter(s, p) <==> x in multiset(Filter(s, p));
      assert x in s <==> x in multiset(s);
    }
  }

  /** Filtering keeps encounter order: it distributes over concatenation. */
  lemma {:induction false} FilterConcat<T>(a: seq<T>, b: seq<T>, p: T -> bool)
    ensures Filter(a + b, p) == Filter(a, p) + Filter(b, p)
    decreases |b|
  {
    if |b| > 0 {
      assert (a + b)[..|a + b| - 1] == a + b[..|b| - 1];
      FilterConcat(a, b[..|b| - 1], p);
    } else {
      assert a + b == a;
    }
  }

  /** Filtering a single element. */
  lemma FilterSingleton<T>(x: T, p: T -> bool)
    ensures Filter([x], p) == if p(x) then [x] else []
  {
    assert [x][..0] == [];
  }

  /** Filtering a prefix element followed by the rest. */
  lemma FilterCons<T>(x: T, s: seq<T>, p: T -> bool)
    ensures Filter([x] + s, p) == (if p(x) then [x] else []) + Filter(s, p)
  {
    FilterConcat([x], s, p);
    FilterSingleton(x, p);
  }

  /** A filter that every element passes keeps the whole sequence. */
  lemma {:induction false} FilterAll<T>(s: seq<T>, p: T -> bool)
    requires forall i :: 0 <= i < |s| ==> p(s[i])
    ensures Filter(s, p) == s
    decreases |s|
  {
    if |s| > 0 {
      FilterAll(s[..|s| - 1], p);
      assert s == s[..|s| - 1] + [s[|s| - 1]];
    }
  }

  /** A filter that no element passes keeps nothing. */
  lemma {:induction false} FilterNone<T>(s: seq<T>, p: T -> bool)
    requires forall i :: 0 <= i < |s| ==> !p(s[i])
    ensures Filter(s, p) == []
    decreases |s|
  {
    if |s| > 0 {
      FilterNone(s[..|s| - 1], p);
    }
  }

  /** Two predicates that agree on every element select the same elements. */
  lemma {:induction false} FilterAgree<T>(s: seq<T>, p: T -> bool, q: T -> bool)
    requires forall i :: 0 <= i < |s| ==> p(s[i]) == q(s[i])
    ensures Filter(s, p) == Filter(s, q)
    decreases |s|
  {
    if |s| > 0 {
      FilterAgree(s[..|s| - 1], p, q);
    }
  }

  /** Stream.map */
  function MapEach<T, U>(s: seq<T>, f: T -> U): (r: seq<U>)
    ensures |r| == |s| && forall i :: 0 <= i < |s| ==> r[i] == f(s[i])
  {
    seq(|s|, i requires 0 <= i < |s| => f(s[i]))
  }

  /** Stream.flatMap: the streams f yields for each element, one after another. */
  function FlatMap<T, U(!new)>(s: seq<T>, f: T -> seq<U>): (r: seq<U>)
    ensures forall y :: y in r <==> exists x :: x in s && y in f(x)
    decreases |s|
  {
    if |s| == 0 then []
    else
      assert s == s[..|s| - 1] + [s[|s| - 1]];
      FlatMap(s[..|s| - 1], f) + f(s[|s| - 1])
  }

  /** The position of the first occurrence of x in s. */
  function FirstIndex<T(==)>(s: seq<T>, x: T): (i: nat)
    requires x in s
    ensures i < |s| && s[i] == x && x !in s[..i]
  {
    if s[0] == x then 0
    else
      var i := 1 + FirstIndex(s[1..], x);
      assert s[..i] == [s[0]] + s[1..][..i - 1];
      i
  }

  /** Any index holding the first occurrence of x is the one FirstIndex finds. */
  lemma FirstIndexUnique<T>(s: seq<T>, x: T, i: nat)
    requires i < |s| && s[i] == x && x !in s[..i]
    ensures FirstIndex(s, x) == i
  {
  }

  /** Extending a sequence does not move the first occurrence of an element it holds. */
  lemma FirstIndexPrefix<T>(s: seq<T>, t: seq<T>, x: T)
    requires x in s
    ensures FirstIndex(s + t, x) == FirstIndex(s, x)
  {
    var i := FirstIndex(s, x);
    assert (s + t)[..i] == s[..i];
    FirstIndexUnique(s + t, x, i);
  }

  /**
   * Stream.distinct: the first occurrence of every element, in the order of
   * those first occurrences.
   */
  function Distinct<T(==,!new)>(s: seq<T>): (r: seq<T>)
    ensures NoDuplicates(r)
    ensures forall x :: x in r <==> x in s
    ensures forall i, j :: 0 <= i < j < |r| ==> FirstIndex(s, r[i]) < FirstIndex(s, r[j])
    decreases |s|
  {
    if |s| == 0 then []
    else
      var init, last := s[..|s| - 1], s[|s| - 1];
      var d := Distinct(init);
      assert s == init + [last];
      if last in d then
        assert forall i :: 0 <= i < |d| ==> FirstIndex(s, d[i]) == FirstIndex(init, d[i]) by {
          forall i | 0 <= i < |d| { FirstIndexPrefix(init, [last], d[i]); }
        }
        d
      else
        var r := d + [last];
        assert FirstIndex(s, last) == |init| by {
          assert s[..|init|] == init;
          FirstIndexUnique(s, last, |init|);
        }
        assert forall i :: 0 <= i < |d| ==> FirstIndex(s, d[i]) == FirstIndex(init, d[i]) by {
          forall i | 0 <= i < |d| { FirstIndexPrefix(init, [last], d[i]); }
        }
        r
  }

  /** Left fold of op over s starting from acc. */
  function FoldLeft<T>(acc: T, s: seq<T>, op: (T, T) -> T): T
    decreases |s|
  {
    if |s| == 0 then acc else FoldLeft(op(acc, s[0]), s[1..], op)
  }

  /** Stream.reduce(accumulator): empty for an empty stream, else the left fold. */
  function Reduce<T>(s: seq<T>, op: (T, T) -> T): (r: Option<T>)
    ensures r.None? <==> |s| == 0
  {
    if |s| == 0 then None else Some(FoldLeft(s[0], s[1..], op))
  }

  /**
   * Stream.findAny on a sequential stream: some element of the stream, or
   * nothing when it is empty. The source does not say which element; this
   * model picks the first, and its contract does not reveal that choice.
   */
  function FindAny<T>(s: seq<T>): (r: Option<T>)
    ensures r.None? <==> |s| == 0
    ensures r.Some? ==> r.value in s
  {
    if |s| == 0 then None else Some(s[0])
  }

  /** Every element is "not after" every later one. */
  ghost predicate IsSortedBy<T>(s: seq<T>, cmp: Comparator<T>) {
    forall i, j :: 0 <= i < j < |s| ==> cmp(s[i], s[j]) <= 0
  }

  /** The elements the comparator ranks equal to y. */
  function SameRank<T>(cmp: Comparator<T>, y: T): T -> bool {
    x => cmp(x, y) == 0
  }

  /** Places x before the first element it is not after. */
  function Insert<T>(x: T, s: seq<T>, cmp: Comparator<T>): (r: seq<T>)
    ensures multiset(r) == multiset(s) + multiset{x}
    decreases |s|
  {
    if |s| == 0 then [x]
    else if cmp(x, s[0]) <= 0 then [x] + s
    else
      assert s == [s[0]] + s[1..];
      [s[0]] + Insert(x, s[1..], cmp)
  }

  /**
   * Stream.sorted(comparator), a stable sort; it is modelled as insertion
   * sort, a permutation of its input.
   */
  function Sorted<T>(s: seq<T>, cmp: Comparator<T>): (r: seq<T>)
    ensures multiset(r) == multiset(s)
    decreases |s|
  {
    if |s| == 0 then []
    else
      assert s == [s[0]] + s[1..];
      Insert(s[0], Sorted(s[1..], cmp), cmp)
  }

  /** b is not after any element of s. */
  ghost predicate NotAfterAny<T>(b: T, s: seq<T>, cmp: Comparator<T>) {
    forall i :: 0 <= i < |s| ==> cmp(b, s[i]) <= 0
  }

  lemma {:induction false} InsertKeepsBound<T>(b: T, x: T, s: seq<T>, cmp: Comparator<T>)
    requires NotAfterAny(b, s, cmp) && cmp(b, x) <= 0
    ensures NotAfterAny(b, Insert(x, s, cmp), cmp)
    decreases |s|
  {
    if |s| > 0 && cmp(x, s[0]) > 0 {
      InsertKeepsBound(b, x, s[1..], cmp);
    }
  }

  /** The head of a sorted sequence is not after anything behind it. */
  lemma HeadNotAfterRest<T>(s: seq<T>, cmp: Comparator<T>)
    requires |s| > 0 && IsSortedBy(s, cmp)
    ensures NotAfterAny(s[0], s[1..], cmp) && IsSortedBy(s[1..], cmp)
  {
  }

  /** An element not after b is not after anything b is not after. */
  lemma BoundBelowBound<T(!new)>(x: T, b: T, s: seq<T>, cmp: Comparator<T>)
    requires Valid(cmp) && cmp(x, b) <= 0 && NotAfterAny(b, s, cmp)
    ensures NotAfterAny(x, s, cmp)
  {
  }

  /** A sorted sequence behind an element not after any of it is sorted. */
  lemma ConsSorted<T>(b: T, s: seq<T>, cmp: Comparator<T>)
    requires NotAfterAny(b, s, cmp) && IsSortedBy(s, cmp)
    ensures IsSortedBy([b] + s, cmp)
  {
    var r := [b] + s;
    forall i, j | 0 <= i < j < |r| ensures cmp(r[i], r[j]) <= 0 {
      if i > 0 {
        assert r[i] == s[i - 1] && r[j] == s[j - 1];
      } else {
        assert r[j] == s[j - 1];
      }
    }
  }

  lemma {:induction false} InsertSorted<T(!new)>(x: T, s: seq<T>, cmp: Comparator<T>)
    requires Valid(cmp) && IsSortedBy(s, cmp)
    ensures IsSortedBy(Insert(x, s, cmp), cmp)
    decreases |s|
  {
    if |s| == 0 {
      assert Insert(x, s, cmp) == [x];
    } else {
      HeadNotAfterRest(s, cmp);
      if cmp(x, s[0]) <= 0 {
        BoundBelowBound(x, s[0], s[1..], cmp);
        assert NotAfterAny(x, s, cmp);
        ConsSorted(x, s, cmp);
      } else {
        assert cmp(s[0], x) <= 0;
        InsertSorted(x, s[1..], cmp);
        InsertKeepsBound(s[0], x, s[1..], cmp);
        ConsSorted(s[0], Insert(x, s[1..], cmp), cmp);
      }
    }
  }

  /** Stream.sorted returns its elements in comparator order. */
  lemma {:induction false} SortedIsSorted<T(!new)>(s: seq<T>, cmp: Comparator<T>)
    requires Valid(cmp)
    ensures IsSortedBy(Sorted(s, cmp), cmp)
    decreases |s|
  {
    if |s| > 0 {
      SortedIsSorted(s[1..], cmp);
      InsertSorted(s[0], Sorted(s[1..], cmp), cmp);
    }
  }

  /** Two elements ranked equal to the same y are ranked equal to each other. */
  lemma SameRankTogether<T(!new)>(cmp: Comparator<T>, x: T, z: T, y: T)
    requires Valid(cmp) && cmp(x, y) == 0 && cmp(z, y) == 0
    ensures cmp(x, z) <= 0
  {
    assert cmp(y, z) <= 0;
  }

  lemma {:induction false} InsertStable<T(!new)>(x: T, s: seq<T>, cmp: Comparator<T>, y: T)
    requires Valid(cmp)
    ensures Filter(Insert(x, s, cmp), SameRank(cmp, y))
         == (if cmp(x, y) == 0 then [x] else []) + Filter(s, SameRank(cmp, y))
    decreases |s|
  {
    var p := SameRank(cmp, y);
    if |s| == 0 {
      FilterSingleton(x, p);
    } else if cmp(x, s[0]) <= 0 {
      FilterCons(x, s, p);
    } else {
      var s0, tail := s[0], s[1..];
      assert s == [s0] + tail;
      assert Insert(x, s, cmp) == [s0] + Insert(x, tail, cmp);
      InsertStable(x, tail, cmp, y);
      FilterCons(s0, Insert(x, tail, cmp), p);
      FilterCons(s0, tail, p);
      if p(x) && p(s0) {
        SameRankTogether(cmp, x, s0, y);
        assert false;
      }
      assert Filter(Insert(x, s, cmp), p) == (if p(s0) then [s0] else []) + ((if p(x) then [x] else []) + Filter(tail, p));
      assert Filter(s, p) == (if p(s0) then [s0] else []) + Filter(tail, p);
    }
  }

  /**
   * Stream.sorted is stable: the elements the comparator ranks equal keep
   * their encounter order.
   */
  lemma {:induction false} SortedIsStable<T(!new)>(s: seq<T>, cmp: Comparator<T>, y: T)
    requires Valid(cmp)
    ensures Filter(Sorted(s, cmp), SameRank(cmp, y)) == Filter(s, SameRank(cmp, y))
    decreases |s|
  {
    if |s| > 0 {
      var p := SameRank(cmp, y);
      var s0, tail := s[0], s[1..];
      SortedIsStable(tail, cmp, y);
      InsertStable(s0, Sorted(tail, cmp), cmp, y);
      assert Sorted(s, cmp) == Insert(s0, Sorted(tail, cmp), cmp);
      assert Filter(Sorted(s, cmp), p) == (if p(s0) then [s0] else []) + Filter(tail, p);
      FilterCons(s0, tail, p);
      assert s == [s0] + tail;
    }
  }
}
