/**
 * java.util.Comparator as a function returning a negative number, zero or a
 * positive number, together with the comparators and combinators the user
 * service builds its orderings from.
 */
module Comparators {

  type Comparator<!T> = (T, T) -> int

  /**
   * The contract every Comparator must meet for a sort to be well defined:
   * the sign of cmp(a, b) is the opposite of the sign of cmp(b, a), and
   * "not after" (cmp <= 0) is transitive.
   */
  ghost predicate Valid<T(!new)>(cmp: Comparator<T>) {
    && (forall a, b :: cmp(a, b) < 0 <==> cmp(b, a) > 0)
    && (forall a, b, c :: cmp(a, b) <= 0 && cmp(b, c) <= 0 ==> cmp(a, c) <= 0)
  }

  /** Integer.compare */
  function IntegerCompare(a: int, b: int): int {
    if a < b then -1 else if a == b then 0 else 1
  }

  /**
   * String.compareTo: the difference of the first two characters that
   * differ, or else the difference of the lengths.
   */
  function CompareTo(a: string, b: string): int
    decreases |a|
  {
    if |a| == 0 || |b| == 0 then |a| - |b|
    else if a[0] != b[0] then a[0] as int - b[0] as int
    else CompareTo(a[1..], b[1..])
  }

  /** Comparator.reverseOrder / Comparator.reversed */
  function Reversed<T>(cmp: Comparator<T>): Comparator<T> {
    (a, b) => cmp(b, a)
  }

  /** Comparator.comparing(keyExtractor, keyComparator) */
  function Comparing<T, K>(key: T -> K, keyCmp: Comparator<K>): Comparator<T> {
    (a, b) => keyCmp(key(a), key(b))
  }

  /** Comparator.thenComparing: the second comparator breaks ties of the first. */
  function ThenComparing<T>(first: Comparator<T>, second: Comparator<T>): Comparator<T> {
    (a, b) => if first(a, b) != 0 then first(a, b) else second(a, b)
  }

  /** Two strings compare equal exactly when they are the same string. */
  lemma {:induction false} CompareToZero(a: string, b: string)
    ensures CompareTo(a, b) == 0 <==> a == b
    decreases |a|
  {
    if |a| == 0 || |b| == 0 {
    } else if a[0] != b[0] {
      assert a != b;
    } else {
      CompareToZero(a[1..], b[1..]);
      assert a == [a[0]] + a[1..] && b == [b[0]] + b[1..];
    }
  }

  /** Swapping the arguments of String.compareTo negates the result. */
  lemma {:induction false} CompareToAntisymmetric(a: string, b: string)
    ensures CompareTo(b, a) == -CompareTo(a, b)
    decreases |a|
  {
    if |a| > 0 && |b| > 0 && a[0] == b[0] {
      CompareToAntisymmetric(a[1..], b[1..]);
    }
  }

  /** The lexicographic "not after" relation of String.compareTo is transitive. */
  lemma {:induction false} CompareToTransitive(a: string, b: string, c: string)
    requires CompareTo(a, b) <= 0 && CompareTo(b, c) <= 0
    ensures CompareTo(a, c) <= 0
    decreases |a|
  {
    if |a| > 0 && |b| > 0 && |c| > 0 && a[0] == b[0] && b[0] == c[0] {
      CompareToTransitive(a[1..], b[1..], c[1..]);
    }
  }

  /** String's natural order is a valid comparator. */
  lemma CompareToValid()
    ensures Valid(CompareTo)
  {
    forall a, b ensures CompareTo(a, b) < 0 <==> CompareTo(b, a) > 0 {
      CompareToAntisymmetric(a, b);
    }
    forall a, b, c | CompareTo(a, b) <= 0 && CompareTo(b, c) <= 0
      ensures CompareTo(a, c) <= 0
    {
      CompareToTransitive(a, b, c);
    }
  }

  /** Integer's natural order is a valid comparator. */
  lemma IntegerCompareValid()
    ensures Valid(IntegerCompare)
  {
  }

  /** Reversing a valid comparator gives a valid comparator. */
  lemma ReversedValid<T(!new)>(cmp: Comparator<T>)
    requires Valid(cmp)
    ensures Valid(Reversed(cmp))
  {
    var r := Reversed(cmp);
    forall a, b, c | r(a, b) <= 0 && r(b, c) <= 0 ensures r(a, c) <= 0 {
      assert cmp(c, b) <= 0 && cmp(b, a) <= 0;
    }
  }

  /** Comparing by a key under a valid key comparator is valid. */
  lemma ComparingValid<T(!new), K(!new)>(key: T -> K, keyCmp: Comparator<K>)
    requires Valid(keyCmp)
    ensures Valid(Comparing(key, keyCmp))
  {
    var c := Comparing(key, keyCmp);
    forall a, b, d | c(a, b) <= 0 && c(b, d) <= 0 ensures c(a, d) <= 0 {
      assert keyCmp(key(a), key(b)) <= 0 && keyCmp(key(b), key(d)) <= 0;
    }
  }

  /** Breaking the ties of a valid comparator with a valid comparator is valid. */
  lemma ThenComparingValid<T(!new)>(first: Comparator<T>, second: Comparator<T>)
    requires Valid(first) && Valid(second)
    ensures Valid(ThenComparing(first, second))
  {
    var t := ThenComparing(first, second);
    forall a, b ensures t(a, b) < 0 <==> t(b, a) > 0 {
      assert first(a, b) == 0 <==> first(b, a) == 0;
    }
    forall a, b, c | t(a, b) <= 0 && t(b, c) <= 0 ensures t(a, c) <= 0 {
      assert first(a, b) <= 0 && first(b, c) <= 0;
      assert first(a, c) <= 0;
      if first(a, c) == 0 {
        // a and c tie, so neither step can be strict
        assert first(c, a) == 0;
        assert first(c, b) <= 0 && first(b, a) <= 0;
        assert first(a, b) == 0 && first(b, c) == 0;
        assert second(a, b) <= 0 && second(b, c) <= 0;
      }
    }
  }
}
