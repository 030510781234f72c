/**
 * Sequence helpers shared by the dashboard and the cleaning script: pandas'
 * `Series.unique()` and `DataFrame.drop_duplicates()` both keep the first
 * occurrence of each value, in order of first appearance.
 */
module Sequences {

  /** No value occurs twice. */
  predicate Distinct<T(==)>(s: seq<T>)
  {
    forall i, j :: 0 <= i < j < |s| ==> s[i] != s[j]
  }

  /**
   * The distinct values of `s`, each at its first occurrence, in order.
   * The last element is kept exactly when it did not occur before it.
   */
  function Unique<T(==)>(s: seq<T>): (u: seq<T>)
    ensures |u| <= |s|
  {
    if s == [] then []
    else
      var init := s[..|s| - 1];
      if s[|s| - 1] in init then Unique(init) else Unique(init) + [s[|s| - 1]]
  }

  /** Index of the first occurrence of `x` in `s`. */
  function IndexOf<T(==)>(s: seq<T>, x: T): (i: nat)
    requires x in s
    ensures i < |s| && s[i] == x && x !in s[..i]
  {
    if s[0] == x then 0 else 1 + IndexOf(s[1..], x)
  }

  /** Unique loses no value, adds none, and repeats none. */
  lemma {:induction false} UniqueElements<T>(s: seq<T>)
    ensures forall x :: x in Unique(s) <==> x in s
    ensures Distinct(Unique(s))
  {
    if s != [] {
      var init := s[..|s| - 1];
      UniqueElements(init);
      assert s == init + [s[|s| - 1]];
    }
  }

  /** A sequence without repeats is its own Unique: nothing is removed. */
  lemma {:induction false} UniqueOfDistinct<T>(s: seq<T>)
    requires Distinct(s)
    ensures Unique(s) == s
  {
    if s != [] {
      var init := s[..|s| - 1];
      assert Distinct(init);
      UniqueOfDistinct(init);
      assert s[|s| - 1] !in init;
      assert s == init + [s[|s| - 1]];
    }
  }

  /** Appending after a value does not move its first occurrence. */
  lemma {:induction false} IndexOfAppend<T>(a: seq<T>, b: seq<T>, x: T)
    requires x in a
    ensures x in a + b && IndexOf(a + b, x) == IndexOf(a, x)
  {
    if a[0] != x {
      assert (a + b)[1..] == a[1..] + b;
      IndexOfAppend(a[1..], b, x);
    }
  }

  /** A value seen for the first time at the end sits at the last index. */
  lemma IndexOfLast<T>(a: seq<T>, x: T)
    requires x !in a
    ensures x in a + [x] && IndexOf(a + [x], x) == |a|
  {
  }

  /**
   * Unique keeps first occurrences in their original relative order:
   * `x` comes before `y` in Unique(s) exactly when `x` first appears
   * before `y` in `s`.
   */
  lemma {:induction false} UniqueKeepsFirstAppearanceOrder<T>(s: seq<T>, x: T, y: T)
    requires x in s && y in s
    ensures x in Unique(s) && y in Unique(s)
    ensures IndexOf(Unique(s), x) < IndexOf(Unique(s), y) <==> IndexOf(s, x) < IndexOf(s, y)
  {
    UniqueElements(s);
    var init, last := s[..|s| - 1], s[|s| - 1];
    assert s == init + [last];
    var u := Unique(init);
    UniqueElements(init);
    if x in init && y in init {
      UniqueKeepsFirstAppearanceOrder(init, x, y);
      IndexOfAppend(init, [last], x);
      IndexOfAppend(init, [last], y);
      if last !in init {
        IndexOfAppend(u, [last], x);
        IndexOfAppend(u, [last], y);
      }
    } else if x in init {
      assert y == last && last !in init;
      IndexOfAppend(init, [last], x);
      IndexOfLast(init, y);
      IndexOfAppend(u, [last], x);
      IndexOfLast(u, y);
    } else if y in init {
      assert x == last && last !in init;
      IndexOfAppend(init, [last], y);
      IndexOfLast(init, x);
      IndexOfAppend(u, [last], y);
      IndexOfLast(u, x);
    } else {
      assert x == last == y;
    }
  }
}
