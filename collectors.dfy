/**
 * The java.util.stream.Collectors the user service ends its pipelines with.
 * A HashMap result is a Dafny map: its iteration order is not modelled.
 */
module Collectors {
  import opened Wrappers
  import opened Streams

  /** The elements whose key is k. */
  function KeyIs<T, K(==)>(key: T -> K, k: K): T -> bool {
    x => key(x) == k
  }

  /** The keys of the elements of s. */
  ghost function KeysOf<T, K>(s: seq<T>, key: T -> K): set<K> {
    set x | x in s :: key(x)
  }

  /**
   * Collectors.groupingBy(key): each element is appended to the list of its
   * key, so every key that occurs maps to the elements with that key, in
   * encounter order.
   */
  function GroupingBy<T, K(==)>(s: seq<T>, key: T -> K): map<K, seq<T>>
    decreases |s|
  {
    if |s| == 0 then map[]
    else
      var m, last := GroupingBy(s[..|s| - 1], key), s[|s| - 1];
      m[key(last) := (if key(last) in m then m[key(last)] else []) + [last]]
  }

  /**
   * The groups are exactly the keys that occur, each holding the elements
   * with that key in encounter order.
   */
  lemma {:induction false} GroupingByGroups<T(!new), K>(s: seq<T>, key: T -> K)
    ensures GroupingBy(s, key).Keys == KeysOf(s, key)
    ensures forall k :: k in GroupingBy(s, key) ==> GroupingBy(s, key)[k] == Filter(s, KeyIs(key, k))
    decreases |s|
  {
    if |s| > 0 {
      var init, last := s[..|s| - 1], s[|s| - 1];
      var m, k := GroupingBy(init, key), key(last);
      var r := GroupingBy(s, key);
      GroupingByGroups(init, key);
      assert s == init + [last];
      assert KeysOf(s, key) == KeysOf(init, key) + {k};
      forall j | j in r ensures r[j] == Filter(s, KeyIs(key, j)) {
        if j == k && k !in m {
          assert forall i :: 0 <= i < |init| ==> key(init[i]) in KeysOf(init, key);
          FilterNone(init, KeyIs(key, k));
        }
      }
    }
  }

  /** Every group is non-empty and holds only elements with its key. */
  lemma GroupsAreNonEmpty<T(!new), K>(s: seq<T>, key: T -> K, k: K)
    requires k in GroupingBy(s, key)
    ensures |GroupingBy(s, key)[k]| > 0
    ensures forall x :: x in GroupingBy(s, key)[k] ==> x in s && key(x) == k
  {
    var g := GroupingBy(s, key);
    GroupingByGroups(s, key);
    FilterMembers(s, KeyIs(key, k));
    var x :| x in s && key(x) == k;
    assert x in g[k];
  }

  /** Every element lands in the group of its own key and in no other group. */
  lemma GroupsPartition<T(!new), K>(s: seq<T>, key: T -> K, x: T, k: K)
    requires x in s && k in GroupingBy(s, key)
    ensures x in GroupingBy(s, key)[k] <==> key(x) == k
  {
    GroupingByGroups(s, key);
    FilterMembers(s, KeyIs(key, k));
  }

  /**
   * Collectors.groupingBy(identity, counting()): the number of occurrences
   * of every element that occurs.
   */
  function Frequencies<K(==)>(s: seq<K>): (r: map<K, nat>)
    ensures r.Keys == set x | x in s
    ensures forall k :: k in r ==> r[k] == multiset(s)[k]
    decreases |s|
  {
    if |s| == 0 then map[]
    else
      var init, last := s[..|s| - 1], s[|s| - 1];
      var m := Frequencies(init);
      assert s == init + [last];
      m[last := (if last in m then m[last] else 0) + 1]
  }

  /** Some key of a non-empty map. */
  ghost function AnyKey<K>(m: map<K, nat>): K
    requires |m| > 0
  {
    assert m.Keys != {};
    var k :| k in m; k
  }

  /** The sum of the values of a map. */
  ghost function SumValues<K>(m: map<K, nat>): nat
    decreases |m|
  {
    if |m| == 0 then 0
    else
      var k := AnyKey(m);
      assert (m - {k}).Keys == m.Keys - {k};
      m[k] + SumValues(m - {k})
  }

  /** The sum does not depend on which key is taken out first. */
  lemma {:induction false} SumValuesRemove<K>(m: map<K, nat>, k: K)
    requires k in m
    ensures SumValues(m) == m[k] + SumValues(m - {k})
    decreases |m|
  {
    var j := AnyKey(m);
    if j != k {
      assert (m - {j}).Keys == m.Keys - {j};
      assert (m - {k}).Keys == m.Keys - {k};
      SumValuesRemove(m - {j}, k);
      SumValuesRemove(m - {k}, j);
      assert m - {j} - {k} == m - {k} - {j};
    }
  }

  /** Bumping one entry by one bumps the sum by one. */
  lemma SumValuesBump<K>(m: map<K, nat>, k: K)
    ensures SumValues(m[k := (if k in m then m[k] else 0) + 1]) == SumValues(m) + 1
  {
    var m' := m[k := (if k in m then m[k] else 0) + 1];
    SumValuesRemove(m', k);
    if k in m {
      SumValuesRemove(m, k);
      assert m' - {k} == m - {k};
    } else {
      assert m' - {k} == m;
    }
  }

  /** The occurrence counts add up to the length of the sequence. */
  lemma {:induction false} FrequenciesSum<K>(s: seq<K>)
    ensures SumValues(Frequencies(s)) == |s|
    decreases |s|
  {
    if |s| > 0 {
      FrequenciesSum(s[..|s| - 1]);
      SumValuesBump(Frequencies(s[..|s| - 1]), s[|s| - 1]);
    }
  }

  /** Collectors.joining(delimiter): the parts with the delimiter between neighbours. */
  function Joining(parts: seq<string>, delimiter: string): (r: string)
    decreases |parts|
  {
    if |parts| == 0 then ""
    else if |parts| == 1 then parts[0]
    else parts[0] + delimiter + Joining(parts[1..], delimiter)
  }

  /** The total length of a sequence of strings. */
  function TotalLength(parts: seq<string>): nat
    decreases |parts|
  {
    if |parts| == 0 then 0 else |parts[0]| + TotalLength(parts[1..])
  }

  /** A joined string holds every part and one delimiter between each two neighbours. */
  lemma {:induction false} JoiningLength(parts: seq<string>, delimiter: string)
    requires |parts| > 0
    ensures |Joining(parts, delimiter)| == TotalLength(parts) + (|parts| - 1) * |delimiter|
    decreases |parts|
  {
    if |parts| > 1 {
      JoiningLength(parts[1..], delimiter);
    }
  }

  /** Splits s at every occurrence of the separator c (String.split without its dropping of trailing empty strings). */
  function Split(s: string, c: char): (r: seq<string>)
    ensures |r| > 0
    decreases |s|
  {
    if |s| == 0 then [""]
    else
      var rest := Split(s[1..], c);
      if s[0] == c then [""] + rest else [[s[0]] + rest[0]] + rest[1..]
  }

  /** A prefix free of the separator extends the first piece. */
  lemma {:induction false} SplitPrefix(p: string, t: string, c: char)
    requires c !in p
    ensures Split(p + t, c) == [p + Split(t, c)[0]] + Split(t, c)[1..]
    decreases |p|
  {
    if |p| > 0 {
      SplitPrefix(p[1..], t, c);
      assert (p + t)[0] == p[0] != c;
      assert (p + t)[1..] == p[1..] + t;
      assert p == [p[0]] + p[1..];
      assert [p[0]] + (p[1..] + Split(t, c)[0]) == p + Split(t, c)[0];
    } else {
      assert p + t == t;
      assert p + Split(t, c)[0] == Split(t, c)[0];
      assert Split(t, c) == [Split(t, c)[0]] + Split(t, c)[1..];
    }
  }

  /**
   * With a one-character delimiter that occurs in no part, splitting the
   * joined string at the delimiter gives the parts back.
   */
  lemma {:induction false} JoiningSplitRoundTrip(parts: seq<string>, c: char)
    requires |parts| > 0
    requires forall i :: 0 <= i < |parts| ==> c !in parts[i]
    ensures Split(Joining(parts, [c]), c) == parts
    decreases |parts|
  {
    SplitPrefix(parts[0], "", c);
    assert parts[0] + "" == parts[0];
    if |parts| > 1 {
      var rest := Joining(parts[1..], [c]);
      JoiningSplitRoundTrip(parts[1..], c);
      SplitPrefix(parts[0], [c] + rest, c);
      assert parts[0] + [c] + rest == parts[0] + ([c] + rest);
      assert ([c] + rest)[1..] == rest;
      assert parts == [parts[0]] + parts[1..];
    }
  }

  /** No key occurs twice among the entries. */
  predicate DistinctKeys<K(==), V>(entries: seq<(K, V)>) {
    forall i, j :: 0 <= i < j < |entries| ==> entries[i].0 != entries[j].0
  }

  /**
   * Collectors.toMap(key, value): the entries as a map; a key that occurs
   * twice makes the collector throw IllegalStateException, modelled as None.
   */
  function ToMap<K(==), V>(entries: seq<(K, V)>): (r: Option<map<K, V>>)
    ensures r.Some? <==> DistinctKeys(entries)
    ensures r.Some? ==> r.value.Keys == set i | 0 <= i < |entries| :: entries[i].0
    ensures r.Some? ==> forall i :: 0 <= i < |entries| ==> r.value[entries[i].0] == entries[i].1
    decreases |entries|
  {
    if |entries| == 0 then Some(map[])
    else
      var init, last := entries[..|entries| - 1], entries[|entries| - 1];
      match ToMap(init)
      case None => None
      case Some(m) =>
        if last.0 in m then
          var i :| 0 <= i < |init| && init[i].0 == last.0;
          assert entries[i].0 == entries[|entries| - 1].0;
          None
        else
          Some(m[last.0 := last.1])
  }
}
