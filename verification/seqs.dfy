/**
 * The two loop shapes the core repeats: appending the kept elements of a
 * sequence to a list (a filtering list comprehension), and assigning
 * `d[key] = value` for the kept elements in order, so that the last
 * assignment to a key wins.
 */
module Seqs {

  /** The positions `i` of `xs` whose element is kept, in increasing order. */
  function Kept<T>(xs: seq<T>, keep: T -> bool): (ks: seq<nat>)
    ensures forall k :: 0 <= k < |ks| ==> ks[k] < |xs| && keep(xs[ks[k]])
    ensures forall k, l :: 0 <= k < l < |ks| ==> ks[k] < ks[l]
    ensures forall i :: 0 <= i < |xs| && keep(xs[i]) ==> i in ks
  {
    if xs == [] then []
    else
      var ks := Kept(xs[..|xs| - 1], keep);
      if keep(xs[|xs| - 1]) then ks + [|xs| - 1] else ks
  }

  /** `[f(x) for x in xs if keep(x)]`, built by appending. */
  function FilterMap<T, U>(xs: seq<T>, keep: T -> bool, f: T -> U): seq<U> {
    if xs == [] then []
    else
      var ys := FilterMap(xs[..|xs| - 1], keep, f);
      if keep(xs[|xs| - 1]) then ys + [f(xs[|xs| - 1])] else ys
  }

  /** The list holds one element per kept position, in the order of the
      positions: the `k`-th element comes from the `k`-th kept position. */
  lemma {:induction false} FilterMapFollowsKept<T, U>(xs: seq<T>, keep: T -> bool, f: T -> U)
    ensures |FilterMap(xs, keep, f)| == |Kept(xs, keep)|
    ensures forall k :: 0 <= k < |Kept(xs, keep)| ==> FilterMap(xs, keep, f)[k] == f(xs[Kept(xs, keep)[k]])
  {
    if xs != [] {
      var init := xs[..|xs| - 1];
      FilterMapFollowsKept(init, keep, f);
      assert forall i :: 0 <= i < |init| ==> init[i] == xs[i];
    }
  }

  /** A value is in the list exactly when some kept element maps to it. */
  lemma {:induction false} FilterMapElems<T, U>(xs: seq<T>, keep: T -> bool, f: T -> U, y: U)
    ensures y in FilterMap(xs, keep, f) <==> exists i :: 0 <= i < |xs| && keep(xs[i]) && f(xs[i]) == y
  {
    if xs != [] {
      var init := xs[..|xs| - 1];
      FilterMapElems(init, keep, f, y);
      assert forall i :: 0 <= i < |init| ==> init[i] == xs[i];
    }
  }

  /** The map made by `d[key(x)] = val(x)` for the kept `x` of `xs`, in order. */
  function Assoc<T, K, V>(xs: seq<T>, keep: T -> bool, key: T -> K, val: T -> V): map<K, V> {
    if xs == [] then map[]
    else
      var m := Assoc(xs[..|xs| - 1], keep, key, val);
      var x := xs[|xs| - 1];
      if keep(x) then m[key(x) := val(x)] else m
  }

  /** A key is in the map exactly when some kept element has it. */
  lemma {:induction false} AssocKeys<T, K, V>(xs: seq<T>, keep: T -> bool, key: T -> K, val: T -> V, k: K)
    ensures k in Assoc(xs, keep, key, val) <==> exists i :: 0 <= i < |xs| && keep(xs[i]) && key(xs[i]) == k
  {
    if xs != [] {
      var init := xs[..|xs| - 1];
      AssocKeys(init, keep, key, val, k);
      assert forall i :: 0 <= i < |init| ==> init[i] == xs[i];
    }
  }

  /** The kept element at `i` with no later kept element of the same key
      supplies that key's value: the last assignment wins. */
  lemma {:induction false} AssocLastWins<T, K, V>(xs: seq<T>, keep: T -> bool, key: T -> K, val: T -> V, i: nat)
    requires i < |xs| && keep(xs[i])
    requires forall j :: i < j < |xs| && keep(xs[j]) ==> key(xs[j]) != key(xs[i])
    ensures key(xs[i]) in Assoc(xs, keep, key, val)
    ensures Assoc(xs, keep, key, val)[key(xs[i])] == val(xs[i])
  {
    if i < |xs| - 1 {
      var init := xs[..|xs| - 1];
      assert init[i] == xs[i];
      AssocLastWins(init, keep, key, val, i);
    }
  }

  /** Every key of the map holds the value of the last kept element with that
      key. */
  lemma {:induction false} AssocFromLast<T, K, V>(xs: seq<T>, keep: T -> bool, key: T -> K, val: T -> V, k: K)
    returns (i: nat)
    requires k in Assoc(xs, keep, key, val)
    ensures i < |xs| && keep(xs[i]) && key(xs[i]) == k
    ensures forall j :: i < j < |xs| && keep(xs[j]) ==> key(xs[j]) != k
    ensures Assoc(xs, keep, key, val)[k] == val(xs[i])
  {
    var x := xs[|xs| - 1];
    if keep(x) && key(x) == k {
      i := |xs| - 1;
    } else {
      var init := xs[..|xs| - 1];
      i := AssocFromLast(init, keep, key, val, k);
      assert init[i] == xs[i];
    }
  }
}
