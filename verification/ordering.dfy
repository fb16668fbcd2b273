/**
 * `sorted(set(...))` on strings: Python orders strings lexicographically by
 * code point, a proper prefix first.
 */
module Ordering {

  /** Python's `a < b` on strings. */
  predicate StrLess(a: string, b: string) {
    if a == [] then b != []
    else if b == [] then false
    else if a[0] != b[0] then a[0] < b[0]
    else StrLess(a[1..], b[1..])
  }

  lemma {:induction false} StrLessIrreflexive(a: string)
    ensures !StrLess(a, a)
  {
    if a != [] {
      StrLessIrreflexive(a[1..]);
    }
  }

  lemma {:induction false} StrLessTransitive(a: string, b: string, c: string)
    requires StrLess(a, b) && StrLess(b, c)
    ensures StrLess(a, c)
  {
    if a != [] && a[0] == b[0] && b[0] == c[0] {
      StrLessTransitive(a[1..], b[1..], c[1..]);
    }
  }

  /** Any two different strings are ordered one way or the other. */
  lemma {:induction false} StrLessTotal(a: string, b: string)
    requires a != b
    ensures StrLess(a, b) || StrLess(b, a)
  {
    if a != [] && b != [] && a[0] == b[0] {
      assert a == [a[0]] + a[1..] && b == [b[0]] + b[1..];
      StrLessTotal(a[1..], b[1..]);
    }
  }

  /** A proper prefix sorts before the string it begins. */
  lemma {:induction false} StrLessPrefix(a: string, b: string)
    requires |a| < |b| && a == b[..|a|]
    ensures StrLess(a, b)
  {
    if a != [] {
      assert a[1..] == b[1..][..|a| - 1];
      StrLessPrefix(a[1..], b[1..]);
    }
  }

  /** Strings with a common prefix are ordered as what follows it: the
      paths of one directory sort as the names of its entries. */
  lemma {:induction false} StrLessCommonPrefix(p: string, a: string, b: string)
    ensures StrLess(p + a, p + b) <==> StrLess(a, b)
  {
    if p == [] {
      assert p + a == a && p + b == b;
    } else {
      assert (p + a)[1..] == p[1..] + a && (p + b)[1..] == p[1..] + b;
      StrLessCommonPrefix(p[1..], a, b);
    }
  }

  /** Ascending with no repeats. */
  predicate StrictlySorted(xs: seq<string>) {
    forall i, j :: 0 <= i < j < |xs| ==> StrLess(xs[i], xs[j])
  }

  /** The set of elements of a sequence. */
  function Elems(xs: seq<string>): set<string> {
    set x | x in xs
  }

  lemma ElemsCons(h: string, t: seq<string>)
    ensures Elems([h] + t) == {h} + Elems(t)
  {
    assert forall x :: x in [h] + t <==> x == h || x in t;
  }

  /** The tail of an ascending sequence without repeats lacks its head. */
  lemma TailElems(a: seq<string>)
    requires a != [] && StrictlySorted(a)
    ensures Elems(a[1..]) == Elems(a) - {a[0]}
  {
    StrLessIrreflexive(a[0]);
    assert a == [a[0]] + a[1..];
    ElemsCons(a[0], a[1..]);
    forall k | 1 <= k < |a| ensures a[k] != a[0] {
      assert StrLess(a[0], a[k]);
    }
  }

  /** Inserts `x` into an ascending sequence unless it is there already. */
  function InsertSorted(xs: seq<string>, x: string): seq<string> {
    if xs == [] then [x]
    else if x == xs[0] then xs
    else if StrLess(x, xs[0]) then [x] + xs
    else [xs[0]] + InsertSorted(xs[1..], x)
  }

  lemma {:induction false} InsertSortedSpec(xs: seq<string>, x: string)
    requires StrictlySorted(xs)
    ensures StrictlySorted(InsertSorted(xs, x))
    ensures Elems(InsertSorted(xs, x)) == Elems(xs) + {x}
  {
    if xs == [] {
    } else if x == xs[0] {
    } else if StrLess(x, xs[0]) {
      var r := [x] + xs;
      forall i, j | 0 <= i < j < |r| ensures StrLess(r[i], r[j]) {
        if i == 0 && j > 1 {
          StrLessTransitive(x, xs[0], xs[j - 1]);
        }
      }
    } else {
      StrLessTotal(x, xs[0]);
      InsertSortedSpec(xs[1..], x);
      var rest := InsertSorted(xs[1..], x);
      var r := [xs[0]] + rest;
      forall i, j | 0 <= i < j < |r| ensures StrLess(r[i], r[j]) {
        if i == 0 {
          assert r[j] in Elems(xs[1..]) + {x};
        }
      }
      assert xs == [xs[0]] + xs[1..];
      ElemsCons(xs[0], xs[1..]);
      ElemsCons(xs[0], rest);
    }
  }

  /** `sorted(set(xs))`: the distinct elements of `xs` in ascending order. */
  function SortDistinct(xs: seq<string>): seq<string> {
    if xs == [] then []
    else InsertSorted(SortDistinct(xs[..|xs| - 1]), xs[|xs| - 1])
  }

  /** The result is ascending with no repeats and holds exactly the elements
      of the input. */
  lemma {:induction false} SortDistinctSpec(xs: seq<string>)
    ensures StrictlySorted(SortDistinct(xs))
    ensures Elems(SortDistinct(xs)) == Elems(xs)
  {
    if xs != [] {
      var init := xs[..|xs| - 1];
      SortDistinctSpec(init);
      InsertSortedSpec(SortDistinct(init), xs[|xs| - 1]);
      assert xs == init + [xs[|xs| - 1]];
    }
  }

  lemma ElemsEmpty(a: seq<string>)
    ensures Elems(a) == {} <==> a == []
  {
    if a != [] {
      assert a[0] in Elems(a);
    }
  }

  /** Nothing in an ascending sequence comes before its head. */
  lemma HeadNotAfter(a: seq<string>, x: string)
    requires StrictlySorted(a) && x in Elems(a)
    ensures !StrLess(x, a[0])
  {
    var k :| 0 <= k < |a| && a[k] == x;
    StrLessIrreflexive(a[0]);
    if k > 0 && StrLess(x, a[0]) {
      StrLessTransitive(a[0], x, a[0]);
    }
  }

  /** Two ascending sequences without repeats that hold the same elements
      are equal: the result above is the only one possible. */
  lemma {:induction false} SortedUnique(a: seq<string>, b: seq<string>)
    requires StrictlySorted(a) && StrictlySorted(b) && Elems(a) == Elems(b)
    ensures a == b
  {
    ElemsEmpty(a);
    ElemsEmpty(b);
    if a != [] && b != [] {
      assert a[0] in Elems(b) && b[0] in Elems(a);
      HeadNotAfter(a, b[0]);
      HeadNotAfter(b, a[0]);
      if a[0] != b[0] {
        StrLessTotal(a[0], b[0]);
      }
      TailElems(a);
      TailElems(b);
      SortedUnique(a[1..], b[1..]);
      assert a == [a[0]] + a[1..] && b == [b[0]] + b[1..];
    }
  }
}
