/**
 * The string primitives the core is built from: `str.lower()`, `str.strip()`,
 * `str.startswith`, the `in` substring test, and the two shapes of `re.sub`
 * that the key normaliser and the slug generator use — replacing every maximal
 * run of a character class by one character, and deleting every character
 * outside a class.
 */
module Strings {
  import opened Chars

  /** Every character of `s` is in class `p`. */
  predicate AllChars(s: string, p: char -> bool) {
    forall i :: 0 <= i < |s| ==> p(s[i])
  }

  /** No two neighbouring characters of `s` are both in class `p`. */
  predicate NoAdjacent(s: string, p: char -> bool) {
    forall i :: 0 <= i < |s| - 1 ==> !(p(s[i]) && p(s[i + 1]))
  }

  /** `s` neither starts nor ends with a character of class `p`. */
  predicate Trimmed(s: string, p: char -> bool) {
    s == [] || (!p(s[0]) && !p(s[|s| - 1]))
  }

  /** Concatenation is associative. */
  lemma AppendAssoc(x: string, y: string, z: string)
    ensures x + (y + z) == (x + y) + z
  {
  }

  /** `str.lower()`, ASCII only. */
  function Lower(s: string): string {
    seq(|s|, i requires 0 <= i < |s| => LowerChar(s[i]))
  }

  /** Lower-casing changes nothing in a string without upper-case letters. */
  lemma LowerFixes(s: string)
    requires forall i :: 0 <= i < |s| ==> !IsUpperLetter(s[i])
    ensures Lower(s) == s
  {
  }

  /** Lower-casing commutes with taking a slice. */
  lemma LowerSlice(s: string, a: nat, b: nat)
    requires a <= b <= |s|
    ensures Lower(s[a..b]) == Lower(s)[a..b]
  {
  }

  /** Drops the leading characters of class `p` (`str.lstrip`). */
  function StripLeft(s: string, p: char -> bool): (r: string)
    ensures |r| <= |s|
  {
    if s != [] && p(s[0]) then StripLeft(s[1..], p) else s
  }

  /** What `StripLeft` keeps is a suffix that does not start with class `p`,
      and all it drops is class `p`. */
  lemma {:induction false} StripLeftSpec(s: string, p: char -> bool)
    ensures StripLeft(s, p) == s[|s| - |StripLeft(s, p)|..]
    ensures forall i :: 0 <= i < |s| - |StripLeft(s, p)| ==> p(s[i])
    ensures StripLeft(s, p) == [] || !p(StripLeft(s, p)[0])
  {
    if s != [] && p(s[0]) {
      StripLeftSpec(s[1..], p);
    }
  }

  /** Drops the trailing characters of class `p` (`str.rstrip`). */
  function StripRight(s: string, p: char -> bool): (r: string)
    ensures |r| <= |s|
  {
    if s != [] && p(s[|s| - 1]) then StripRight(s[..|s| - 1], p) else s
  }

  /** What `StripRight` keeps is a prefix that does not end with class `p`,
      and all it drops is class `p`. */
  lemma {:induction false} StripRightSpec(s: string, p: char -> bool)
    ensures StripRight(s, p) == s[..|StripRight(s, p)|]
    ensures forall i :: |StripRight(s, p)| <= i < |s| ==> p(s[i])
    ensures StripRight(s, p) == [] || !p(StripRight(s, p)[|StripRight(s, p)| - 1])
  {
    if s != [] && p(s[|s| - 1]) {
      StripRightSpec(s[..|s| - 1], p);
      assert forall i :: 0 <= i < |s| - 1 ==> s[..|s| - 1][i] == s[i];
    }
  }

  /** `str.strip()` (with `p` the whitespace class) and `str.strip('-')`. */
  function Strip(s: string, p: char -> bool): (r: string)
    ensures |r| <= |s| && Trimmed(r, p)
    ensures Trimmed(s, p) ==> r == s
  {
    var t := StripLeft(s, p);
    StripLeftSpec(s, p);
    StripRightSpec(t, p);
    var r := StripRight(t, p);
    assert r != [] ==> r[0] == t[0];
    r
  }

  /** The result of `Strip` is the slice `s[a..b]`, and everything cut off on
      either side is in class `p`. */
  lemma StripSlice(s: string, p: char -> bool) returns (a: nat, b: nat)
    ensures a <= b <= |s| && Strip(s, p) == s[a..b]
    ensures forall i :: 0 <= i < a ==> p(s[i])
    ensures forall i :: b <= i < |s| ==> p(s[i])
  {
    var t := StripLeft(s, p);
    StripLeftSpec(s, p);
    StripRightSpec(t, p);
    a := |s| - |t|;
    b := a + |StripRight(t, p)|;
    assert forall i :: b <= i < |s| ==> s[i] == t[i - a];
  }

  /** Stripping keeps every class a string lies in, and keeps a class from
      having neighbours. */
  lemma StripKeeps(s: string, p: char -> bool, q: char -> bool)
    ensures AllChars(s, q) ==> AllChars(Strip(s, p), q)
    ensures NoAdjacent(s, q) ==> NoAdjacent(Strip(s, p), q)
  {
    var a, b := StripSlice(s, p);
    var r := Strip(s, p);
    assert forall i :: 0 <= i < |r| ==> r[i] == s[a + i];
  }


  /**
   * `re.sub('[P]+', c, s)`: every maximal run of characters of class `p` is
   * replaced by the single character `c`; everything else is kept in order.
   */
  function SubRuns(s: string, p: char -> bool, c: char): string
    decreases |s|
  {
    if s == [] then []
    else if p(s[0]) then [c] + SubRuns(StripLeft(s[1..], p), p, c)
    else [s[0]] + SubRuns(s[1..], p, c)
  }

  /** After the substitution, every character of class `p` is `c`, a string
      that starts outside the class keeps its first character, and, when `c`
      is itself in the class, no two class characters are neighbours. */
  lemma {:induction false} SubRunsSpec(s: string, p: char -> bool, c: char)
    ensures forall i :: 0 <= i < |SubRuns(s, p, c)| ==> SubRuns(s, p, c)[i] == c || !p(SubRuns(s, p, c)[i])
    ensures s != [] && !p(s[0]) ==> SubRuns(s, p, c) != [] && SubRuns(s, p, c)[0] == s[0]
    ensures p(c) ==> NoAdjacent(SubRuns(s, p, c), p)
    decreases |s|
  {
    if s != [] {
      if p(s[0]) {
        var rest := StripLeft(s[1..], p);
        StripLeftSpec(s[1..], p);
        SubRunsSpec(rest, p, c);
      } else {
        SubRunsSpec(s[1..], p, c);
      }
    }
  }

  /** The substitution keeps every class that holds the replacement
      character and every character of `s`. */
  lemma {:induction false} SubRunsKeeps(s: string, p: char -> bool, c: char, q: char -> bool)
    requires AllChars(s, q) && q(c)
    ensures AllChars(SubRuns(s, p, c), q)
    decreases |s|
  {
    if s != [] {
      if p(s[0]) {
        var rest := StripLeft(s[1..], p);
        StripLeftSpec(s[1..], p);
        assert AllChars(rest, q) by {
          assert forall i :: 0 <= i < |rest| ==> rest[i] == s[|s| - |rest| + i];
        }
        SubRunsKeeps(rest, p, c, q);
      } else {
        SubRunsKeeps(s[1..], p, c, q);
      }
    }
  }

  /** On a string whose only characters of class `p` are isolated copies of
      `c`, the substitution changes nothing. */
  lemma {:induction false} SubRunsFixes(s: string, p: char -> bool, c: char)
    requires forall i :: 0 <= i < |s| ==> p(s[i]) ==> s[i] == c
    requires NoAdjacent(s, p)
    ensures SubRuns(s, p, c) == s
    decreases |s|
  {
    if s != [] {
      if p(s[0]) {
        assert s[1..] == [] || !p(s[1]);
        assert StripLeft(s[1..], p) == s[1..];
      }
      SubRunsFixes(s[1..], p, c);
    }
  }

  /** `re.sub('[^P]', '', s)`: deletes every character outside class `p`. */
  function Keep(s: string, p: char -> bool): string {
    if s == [] then []
    else if p(s[0]) then [s[0]] + Keep(s[1..], p)
    else Keep(s[1..], p)
  }

  /** What is kept is all of class `p`, and a string all of class `p` is kept
      whole. */
  lemma {:induction false} KeepSpec(s: string, p: char -> bool)
    ensures AllChars(Keep(s, p), p)
    ensures AllChars(s, p) ==> Keep(s, p) == s
  {
    if s != [] {
      var rest := Keep(s[1..], p);
      KeepSpec(s[1..], p);
      if p(s[0]) {
        assert Keep(s, p) == [s[0]] + rest;
        assert s == [s[0]] + s[1..];
      } else {
        assert Keep(s, p) == rest;
      }
    }
  }

  /** `w` occurs in `s` at position `i`. */
  predicate OccursAt(s: string, w: string, i: nat) {
    i + |w| <= |s| && s[i..i + |w|] == w
  }

  /** `w in s`, for strings. */
  predicate Contains(s: string, w: string) {
    exists i: nat | i <= |s| :: OccursAt(s, w, i)
  }

  /** `s.startswith(w)`. */
  predicate StartsWith(s: string, w: string) {
    OccursAt(s, w, 0)
  }

  /** A string that starts with `w` also contains it. */
  lemma StartsWithContains(s: string, w: string)
    requires StartsWith(s, w)
    ensures Contains(s, w)
  {
    assert OccursAt(s, w, 0);
  }

  /** A word that occurs in a slice of `s` occurs in `s`. */
  lemma ContainsOfSlice(s: string, a: nat, b: nat, w: string)
    requires a <= b <= |s| && Contains(s[a..b], w)
    ensures Contains(s, w)
  {
    var t := s[a..b];
    var i: nat :| i <= |t| && OccursAt(t, w, i);
    assert forall k :: 0 <= k < |w| ==> s[a + i + k] == t[i + k] == w[k];
    assert s[a + i..a + i + |w|] == w;
    assert OccursAt(s, w, a + i);
  }

  /** A non-empty word without characters of class `p` that occurs in `s`
      lies between a prefix and a suffix made of class `p` only. */
  lemma ContainsInSlice(s: string, p: char -> bool, a: nat, b: nat, w: string)
    requires a <= b <= |s|
    requires forall i :: 0 <= i < a ==> p(s[i])
    requires forall i :: b <= i < |s| ==> p(s[i])
    requires w != [] && forall k :: 0 <= k < |w| ==> !p(w[k])
    requires Contains(s, w)
    ensures Contains(s[a..b], w)
  {
    var t := s[a..b];
    var i: nat :| i <= |s| && OccursAt(s, w, i);
    assert s[i] == w[0] && s[i + |w| - 1] == w[|w| - 1];
    assert a <= i && i + |w| <= b;
    assert forall k :: 0 <= k < |w| ==> t[i - a + k] == s[i + k] == w[k];
    assert t[i - a..i - a + |w|] == w;
    assert OccursAt(t, w, i - a);
  }

  /** A non-empty word without characters of class `p` occurs in `s` exactly
      when it occurs in the part of `s` between a prefix and a suffix made of
      class `p` only. */
  lemma ContainsInCore(s: string, p: char -> bool, a: nat, b: nat, w: string)
    requires a <= b <= |s|
    requires forall i :: 0 <= i < a ==> p(s[i])
    requires forall i :: b <= i < |s| ==> p(s[i])
    requires w != [] && forall k :: 0 <= k < |w| ==> !p(w[k])
    ensures Contains(s[a..b], w) <==> Contains(s, w)
  {
    if Contains(s[a..b], w) {
      ContainsOfSlice(s, a, b, w);
    }
    if Contains(s, w) {
      ContainsInSlice(s, p, a, b, w);
    }
  }

  /** Lower-casing twice is lower-casing once. */
  lemma LowerTwice(s: string)
    ensures Lower(Lower(s)) == Lower(s)
  {
  }

  /** Lower-casing neither makes nor unmakes whitespace, so it commutes with
      `lstrip`. */
  lemma {:induction false} StripLeftLower(s: string)
    ensures StripLeft(Lower(s), IsSpace) == Lower(StripLeft(s, IsSpace))
  {
    if s != [] {
      LowerSlice(s, 1, |s|);
      assert IsSpace(Lower(s)[0]) == IsSpace(s[0]);
      if IsSpace(s[0]) {
        assert Lower(s)[1..] == Lower(s[1..]);
        StripLeftLower(s[1..]);
        assert StripLeft(Lower(s), IsSpace) == StripLeft(Lower(s[1..]), IsSpace);
      }
    }
  }

  /** Lower-casing commutes with `rstrip`. */
  lemma {:induction false} StripRightLower(s: string)
    ensures StripRight(Lower(s), IsSpace) == Lower(StripRight(s, IsSpace))
  {
    if s != [] {
      LowerSlice(s, 0, |s| - 1);
      if IsSpace(s[|s| - 1]) {
        StripRightLower(s[..|s| - 1]);
      }
    }
  }

  /** Lower-casing commutes with `strip`. */
  lemma StripLower(s: string)
    ensures Strip(Lower(s), IsSpace) == Lower(Strip(s, IsSpace))
  {
    StripLeftLower(s);
    StripRightLower(StripLeft(s, IsSpace));
  }

  /** Deleting the characters outside a class distributes over
      concatenation. */
  lemma {:induction false} KeepAppend(x: string, y: string, q: char -> bool)
    ensures Keep(x + y, q) == Keep(x, q) + Keep(y, q)
  {
    if x == [] {
      assert x + y == y;
    } else {
      assert (x + y)[0] == x[0] && (x + y)[1..] == x[1..] + y;
      KeepAppend(x[1..], y, q);
    }
  }

  /** Nothing is kept of a string with no character of the class. */
  lemma {:induction false} KeepNone(x: string, q: char -> bool)
    requires forall i :: 0 <= i < |x| ==> !q(x[i])
    ensures Keep(x, q) == []
  {
    if x != [] {
      KeepNone(x[1..], q);
    }
  }

  /** Stripping a class `p` disjoint from `q` changes nothing that is kept
      of class `q`. */
  lemma KeepStrip(s: string, p: char -> bool, q: char -> bool)
    requires forall c :: p(c) ==> !q(c)
    ensures Keep(Strip(s, p), q) == Keep(s, q)
  {
    var a, b := StripSlice(s, p);
    assert s == s[..a] + s[a..b] + s[b..];
    KeepAppend(s[..a] + s[a..b], s[b..], q);
    KeepAppend(s[..a], s[a..b], q);
    KeepNone(s[..a], q);
    KeepNone(s[b..], q);
  }

  /** `lstrip` of a class `p` disjoint from `q` changes nothing that is kept
      of class `q`. */
  lemma {:induction false} KeepStripLeft(s: string, p: char -> bool, q: char -> bool)
    requires forall c :: p(c) ==> !q(c)
    ensures Keep(StripLeft(s, p), q) == Keep(s, q)
  {
    if s != [] && p(s[0]) {
      KeepStripLeft(s[1..], p, q);
    }
  }

  /** Replacing the runs of a class `p` by a character `c`, both outside
      class `q`, changes nothing that is kept of class `q`. */
  lemma {:induction false} KeepSubRuns(s: string, p: char -> bool, c: char, q: char -> bool)
    requires forall d :: p(d) ==> !q(d)
    requires !q(c)
    ensures Keep(SubRuns(s, p, c), q) == Keep(s, q)
    decreases |s|
  {
    if s != [] {
      if p(s[0]) {
        var rest := StripLeft(s[1..], p);
        KeepSubRuns(rest, p, c, q);
        KeepStripLeft(s[1..], p, q);
        assert ([c] + SubRuns(rest, p, c))[1..] == SubRuns(rest, p, c);
      } else {
        KeepSubRuns(s[1..], p, c, q);
        assert ([s[0]] + SubRuns(s[1..], p, c))[1..] == SubRuns(s[1..], p, c);
      }
    }
  }

  /** Keeping class `p` and then its subclass `q` keeps class `q`. */
  lemma {:induction false} KeepKeep(s: string, p: char -> bool, q: char -> bool)
    requires forall d :: q(d) ==> p(d)
    ensures Keep(Keep(s, p), q) == Keep(s, q)
  {
    if s != [] {
      KeepKeep(s[1..], p, q);
      if p(s[0]) {
        assert ([s[0]] + Keep(s[1..], p))[1..] == Keep(s[1..], p);
      }
    }
  }

  /** `s` and `t` differ at most at positions where both hold a character of
      class `p`. */
  predicate AgreeOutside(s: string, t: string, p: char -> bool) {
    |s| == |t| && forall i :: 0 <= i < |s| ==> s[i] == t[i] || (p(s[i]) && p(t[i]))
  }

  /** Strings that differ in one position, where both hold class `p`,
      agree outside `p`. */
  lemma AgreeOutsideSwap(x: string, d: char, e: char, y: string, p: char -> bool)
    requires p(d) && p(e)
    ensures AgreeOutside(x + [d] + y, x + [e] + y, p)
  {
  }

  /** Dropping the first character keeps two strings in agreement. */
  lemma AgreeOutsideTail(s: string, t: string, p: char -> bool)
    requires s != [] && AgreeOutside(s, t, p)
    ensures AgreeOutside(s[1..], t[1..], p)
  {
    assert forall i :: 0 <= i < |s| - 1 ==> s[1..][i] == s[i + 1] && t[1..][i] == t[i + 1];
  }

  /** `lstrip` of a class `q` on which the characters of class `p` all agree
      keeps two strings in agreement outside `p`. */
  lemma {:induction false} StripLeftAgree(s: string, t: string, p: char -> bool, q: char -> bool)
    requires AgreeOutside(s, t, p)
    requires forall c, d :: p(c) && p(d) ==> q(c) == q(d)
    ensures AgreeOutside(StripLeft(s, q), StripLeft(t, q), p)
  {
    if s != [] && q(s[0]) {
      AgreeOutsideTail(s, t, p);
      StripLeftAgree(s[1..], t[1..], p, q);
    }
  }

  /** Two strings that differ only in which characters of class `p` they
      hold give the same result when the runs of `p` are replaced. */
  lemma {:induction false} SubRunsAgree(s: string, t: string, p: char -> bool, c: char)
    requires AgreeOutside(s, t, p)
    ensures SubRuns(s, p, c) == SubRuns(t, p, c)
    decreases |s|
  {
    if s != [] {
      AgreeOutsideTail(s, t, p);
      if p(s[0]) {
        StripLeftAgree(s[1..], t[1..], p, p);
        SubRunsAgree(StripLeft(s[1..], p), StripLeft(t[1..], p), p, c);
      } else {
        SubRunsAgree(s[1..], t[1..], p, c);
      }
    }
  }

  /** The character the run substitution writes for `d`: `d` itself when it
      is outside class `p`, otherwise `c` at the start of a run and nothing
      inside one. */
  function Emit(d: char, p: char -> bool, c: char, inRun: bool): string {
    if !p(d) then [d] else if inRun then [] else [c]
  }

  /** The run substitution as a left-to-right scan that remembers whether
      the previous character was of class `p`. */
  function SubRunsFrom(s: string, p: char -> bool, c: char, inRun: bool): string {
    if s == [] then [] else Emit(s[0], p, c, inRun) + SubRunsFrom(s[1..], p, c, p(s[0]))
  }

  /** Whether the scan is inside a run after reading `x` from state `inRun`. */
  function InRunAfter(x: string, p: char -> bool, inRun: bool): bool {
    if x == [] then inRun else p(x[|x| - 1])
  }

  /** The scan agrees with the substitution: from outside a run it is
      `SubRuns`, and from inside one it first skips the rest of the run. */
  lemma {:induction false} SubRunsFromSpec(s: string, p: char -> bool, c: char)
    ensures SubRunsFrom(s, p, c, false) == SubRuns(s, p, c)
    ensures SubRunsFrom(s, p, c, true) == SubRuns(StripLeft(s, p), p, c)
    decreases |s|
  {
    if s != [] {
      SubRunsFromSpec(s[1..], p, c);
    }
  }

  /** Reading `x + y` is reading `x` and then reading `y` in the state `x`
      leaves. */
  lemma {:induction false} SubRunsFromAppend(x: string, y: string, p: char -> bool, c: char, inRun: bool)
    ensures SubRunsFrom(x + y, p, c, inRun)
      == SubRunsFrom(x, p, c, inRun) + SubRunsFrom(y, p, c, InRunAfter(x, p, inRun))
    decreases |x|
  {
    if x == [] {
      assert x + y == y;
    } else {
      var e := Emit(x[0], p, c, inRun);
      assert (x + y)[0] == x[0] && (x + y)[1..] == x[1..] + y;
      SubRunsFromAppend(x[1..], y, p, c, p(x[0]));
      assert InRunAfter(x[1..], p, p(x[0])) == InRunAfter(x, p, inRun);
      AppendAssoc(e, SubRunsFrom(x[1..], p, c, p(x[0])), SubRunsFrom(y, p, c, InRunAfter(x, p, inRun)));
    }
  }

  /** A string that does not start with class `p` is read the same way from
      either state. */
  lemma SubRunsFromOutside(s: string, p: char -> bool, c: char)
    requires s == [] || !p(s[0])
    ensures SubRunsFrom(s, p, c, true) == SubRunsFrom(s, p, c, false)
  {
  }

  /** Read from outside a run, a string gives what it gives from inside one,
      preceded by at most one `c`. */
  lemma SubRunsFromLead(s: string, p: char -> bool, c: char) returns (d: string)
    requires p(c)
    ensures AllChars(d, p) && SubRunsFrom(s, p, c, false) == d + SubRunsFrom(s, p, c, true)
  {
    if s == [] || !p(s[0]) {
      d := [];
      SubRunsFromOutside(s, p, c);
      assert d + SubRunsFrom(s, p, c, true) == SubRunsFrom(s, p, c, true);
    } else {
      d := [c];
      var rest := SubRunsFrom(s[1..], p, c, true);
      assert SubRunsFrom(s, p, c, true) == [] + rest == rest;
      assert SubRunsFrom(s, p, c, false) == [c] + rest;
    }
  }

  /** A string made of class `p` reads as class `p` only. */
  lemma {:induction false} SubRunsFromAll(s: string, p: char -> bool, c: char, inRun: bool)
    requires p(c) && AllChars(s, p)
    ensures AllChars(SubRunsFrom(s, p, c, inRun), p)
    decreases |s|
  {
    if s != [] {
      SubRunsFromAll(s[1..], p, c, true);
    }
  }

  /** When the cut between `x` and `y` does not fall inside a run, the
      substitution works on the two parts separately. */
  lemma SubRunsAppend(x: string, y: string, p: char -> bool, c: char)
    requires x == [] || y == [] || !p(x[|x| - 1]) || !p(y[0])
    ensures SubRuns(x + y, p, c) == SubRuns(x, p, c) + SubRuns(y, p, c)
  {
    SubRunsFromSpec(x + y, p, c);
    SubRunsFromSpec(x, p, c);
    SubRunsFromSpec(y, p, c);
    SubRunsFromAppend(x, y, p, c, false);
    if InRunAfter(x, p, false) {
      SubRunsFromOutside(y, p, c);
    }
  }

  /** A string with no character of class `p` is left as it is. */
  lemma {:induction false} SubRunsNone(s: string, p: char -> bool, c: char)
    requires forall i :: 0 <= i < |s| ==> !p(s[i])
    ensures SubRuns(s, p, c) == s
  {
    if s != [] {
      SubRunsNone(s[1..], p, c);
    }
  }

  /** A non-empty run of class `p` becomes the single character `c`. */
  lemma SubRunsRun(r: string, p: char -> bool, c: char)
    requires r != [] && AllChars(r, p)
    ensures SubRuns(r, p, c) == [c]
  {
    StripLeftSpec(r[1..], p);
  }

  /** A maximal run of class `p` between `a` and `b` becomes exactly one `c`,
      and `a` and `b` are substituted on their own. */
  lemma SubRunsSplit(a: string, r: string, b: string, p: char -> bool, c: char)
    requires a == [] || !p(a[|a| - 1])
    requires r != [] && AllChars(r, p)
    requires b == [] || !p(b[0])
    ensures SubRuns(a + r + b, p, c) == SubRuns(a, p, c) + [c] + SubRuns(b, p, c)
  {
    SubRunsAppend(r, b, p, c);
    SubRunsRun(r, p, c);
    AppendAssoc(a, r, b);
    SubRunsAppend(a, r + b, p, c);
    AppendAssoc(SubRuns(a, p, c), [c], SubRuns(b, p, c));
  }

  /** `re.sub('[P]', c, s)`: every character of class `p`, one by one,
      becomes `c`. */
  function Replace(s: string, p: char -> bool, c: char): string {
    seq(|s|, i requires 0 <= i < |s| => if p(s[i]) then c else s[i])
  }

  /** Replacing works character by character. */
  lemma ReplaceAppend(x: string, y: string, p: char -> bool, c: char)
    ensures Replace(x + y, p, c) == Replace(x, p, c) + Replace(y, p, c)
  {
  }

  /** Replacing a non-empty string: its first character, then the rest. */
  lemma ReplaceCons(x: string, p: char -> bool, c: char)
    requires x != []
    ensures Replace(x, p, c) == [if p(x[0]) then c else x[0]] + Replace(x[1..], p, c)
  {
  }

  /** Replacing changes nothing in a string without class `p`. */
  lemma ReplaceNone(s: string, p: char -> bool, c: char)
    requires forall i :: 0 <= i < |s| ==> !p(s[i])
    ensures Replace(s, p, c) == s
  {
  }

  /** When every character of class `r` is either replaced by `c` or already
      of class `q`, and `c` is of class `q`, replacing turns strings that
      agree outside `r` into strings that agree outside `q`. */
  lemma ReplaceAgree(s: string, t: string, r: char -> bool, p: char -> bool, c: char, q: char -> bool)
    requires AgreeOutside(s, t, r)
    requires forall d :: r(d) ==> p(d) || q(d)
    requires q(c)
    ensures AgreeOutside(Replace(s, p, c), Replace(t, p, c), q)
  {
  }

  /** Likewise, a string made of class `r` becomes one made of class `q`. */
  lemma ReplaceAll(s: string, r: char -> bool, p: char -> bool, c: char, q: char -> bool)
    requires AllChars(s, r)
    requires forall d :: r(d) ==> p(d) || q(d)
    requires q(c)
    ensures AllChars(Replace(s, p, c), q)
  {
  }

  /** Lower-casing works character by character. */
  lemma LowerAppend(x: string, y: string)
    ensures Lower(x + y) == Lower(x) + Lower(y)
  {
  }

  /** Lower-casing keeps two strings in agreement outside a class without
      upper-case letters. */
  lemma LowerAgree(s: string, t: string, p: char -> bool)
    requires AgreeOutside(s, t, p)
    requires forall d :: p(d) ==> !IsUpperLetter(d)
    ensures AgreeOutside(Lower(s), Lower(t), p)
  {
  }

  /** One step of deletion: a first character is kept exactly when it is of
      class `k`. */
  lemma KeepCons(d: char, s: string, k: char -> bool)
    ensures Keep([d] + s, k) == (if k(d) then [d] else []) + Keep(s, k)
  {
    assert ([d] + s)[0] == d && ([d] + s)[1..] == s;
  }

  /** Deleting the characters outside a class `k` that holds `p` keeps two
      strings in agreement outside `p`. */
  lemma {:induction false} KeepAgree(s: string, t: string, p: char -> bool, k: char -> bool)
    requires AgreeOutside(s, t, p)
    requires forall d :: p(d) ==> k(d)
    ensures AgreeOutside(Keep(s, k), Keep(t, k), p)
  {
    if s != [] {
      AgreeOutsideTail(s, t, p);
      KeepAgree(s[1..], t[1..], p, k);
      var x, y := Keep(s[1..], k), Keep(t[1..], k);
      if k(s[0]) {
        assert AgreeOutside([s[0]] + x, [t[0]] + y, p);
      }
    }
  }

  /** One step of the collapse after the deletion, on the output of one
      character. */
  lemma CollapseStep(e: string, rest: string, q: char -> bool, k: char -> bool, c: char, inRun: bool)
    ensures SubRunsFrom(Keep(e + rest, k), q, c, inRun)
      == SubRunsFrom(Keep(e, k), q, c, inRun) + SubRunsFrom(Keep(rest, k), q, c, InRunAfter(Keep(e, k), q, inRun))
  {
    KeepAppend(e, rest, k);
    SubRunsFromAppend(Keep(e, k), Keep(rest, k), q, c, inRun);
  }

  /**
   * Replacing the runs of class `p` by `c`, deleting what is outside class
   * `k` and then replacing the runs of class `q` by `c`, where `c` is in
   * both `k` and `q`, gives what replacing the characters of class `p` one
   * by one would give: the second pass merges the runs of `c` either way.
   * (The scan of the first pass is inside a run only when that of the
   * second is.)
   */
  lemma {:induction false} ReplaceThenCollapseFrom(x: string, p: char -> bool, k: char -> bool, q: char -> bool, c: char, inP: bool, inQ: bool)
    requires k(c) && q(c) && (inP ==> inQ)
    ensures SubRunsFrom(Keep(SubRunsFrom(x, p, c, inP), k), q, c, inQ)
      == SubRunsFrom(Keep(Replace(x, p, c), k), q, c, inQ)
    decreases |x|
  {
    if x != [] {
      var d := x[0];
      var e := Emit(d, p, c, inP);
      var y := if p(d) then c else d;
      var rest := SubRunsFrom(x[1..], p, c, p(d));
      ReplaceCons(x, p, c);
      CollapseStep(e, rest, q, k, c, inQ);
      CollapseStep([y], Replace(x[1..], p, c), q, k, c, inQ);
      var inQ' := InRunAfter(Keep([y], k), q, inQ);
      if p(d) && inP {
        assert Keep(e, k) == [];
        KeepCons(c, [], k);
        assert SubRunsFrom(Keep([y], k), q, c, inQ) == [];
        ReplaceThenCollapseFrom(x[1..], p, k, q, c, true, inQ);
      } else {
        assert e == [y];
        ReplaceThenCollapseFrom(x[1..], p, k, q, c, p(d), inQ');
      }
    }
  }

  /** `ReplaceThenCollapseFrom` for whole strings. */
  lemma ReplaceThenCollapse(x: string, p: char -> bool, k: char -> bool, q: char -> bool, c: char)
    requires k(c) && q(c)
    ensures SubRuns(Keep(SubRuns(x, p, c), k), q, c) == SubRuns(Keep(Replace(x, p, c), k), q, c)
  {
    ReplaceThenCollapseFrom(x, p, k, q, c, false, false);
    SubRunsFromSpec(x, p, c);
    SubRunsFromSpec(Keep(SubRuns(x, p, c), k), q, c);
    SubRunsFromSpec(Keep(Replace(x, p, c), k), q, c);
  }

  /** Stripping a string that is a trimmed middle between a prefix and a
      suffix of class `q` gives that middle. */
  lemma StripDetermined(u: string, m: string, v: string, q: char -> bool)
    requires AllChars(u, q) && AllChars(v, q) && Trimmed(m, q)
    ensures Strip(u + m + v, q) == m
  {
    var s := u + m + v;
    var a, b := StripSlice(s, q);
    var r := Strip(s, q);
    if m == [] {
      assert AllChars(s, q);
      assert r == [];
    } else {
      assert s[|u|] == m[0] && s[|u| + |m| - 1] == m[|m| - 1];
      assert a <= |u| && |u| + |m| <= b;
      assert r != [] && r[0] == s[a] && r[|r| - 1] == s[b - 1];
      assert a == |u| && b == |u| + |m|;
      assert s[a..b] == m;
    }
  }

  /** Moving the parts of a five-part concatenation between groups. */
  lemma Regroup(u: string, x: string, y: string, z: string, v: string)
    ensures u + (x + y + z) + v == (u + x) + y + (z + v)
  {
  }

  /** Padding with class `q` on either side does not change the stripped
      string. */
  lemma StripPad(u: string, w: string, v: string, q: char -> bool)
    requires AllChars(u, q) && AllChars(v, q)
    ensures Strip(u + w + v, q) == Strip(w, q)
  {
    var a, b := StripSlice(w, q);
    var u', v' := u + w[..a], w[b..] + v;
    SliceThree(w, a, b);
    Regroup(u, w[..a], w[a..b], w[b..], v);
    StripDetermined(u', w[a..b], v', q);
  }

  /** Padding with class `q` on either side changes nothing once the runs of
      `q` are replaced by `c`, itself of class `q`, and the result stripped. */
  lemma StripSubRunsPad(u: string, w: string, v: string, q: char -> bool, c: char)
    requires q(c) && AllChars(u, q) && AllChars(v, q)
    ensures Strip(SubRuns(u + w + v, q, c), q) == Strip(SubRuns(w, q, c), q)
  {
    var inU := InRunAfter(u, q, false);
    var inW := InRunAfter(w, q, inU);
    SubRunsFromSpec(u + w + v, q, c);
    SubRunsFromSpec(w, q, c);
    SubRunsFromAppend(u + w, v, q, c, false);
    SubRunsFromAppend(u, w, q, c, false);
    var pu := SubRunsFrom(u, q, c, false);
    var pv := SubRunsFrom(v, q, c, InRunAfter(u + w, q, false));
    SubRunsFromAll(u, q, c, false);
    SubRunsFromAll(v, q, c, InRunAfter(u + w, q, false));
    var lead := SubRunsFromLead(w, q, c);
    var tail := SubRunsFrom(w, q, c, true);
    StripPad(lead, tail, [], q);
    assert lead + tail + [] == lead + tail;
    if inU {
      StripPad(pu, tail, pv, q);
    } else {
      StripPad(pu, lead + tail, pv, q);
      assert Strip(lead + tail, q) == Strip(tail, q);
    }
  }

  /** Stripping `x + j + y`, where `x` ends and `y` starts outside class
      `q`, strips `x` and `y` separately. */
  lemma StripJoin(x: string, j: string, y: string, q: char -> bool)
    requires x != [] && !q(x[|x| - 1]) && y != [] && !q(y[0])
    ensures Strip(x + j + y, q) == Strip(x, q) + j + Strip(y, q)
  {
    var a1, b1 := StripSlice(x, q);
    var a2, b2 := StripSlice(y, q);
    assert b1 == |x| && a2 == 0;
    var m := Strip(x, q) + j + Strip(y, q);
    assert m[0] == x[a1] && m[|m| - 1] == y[b2 - 1];
    assert x + j + y == x[..a1] + m + y[b2..];
    StripDetermined(x[..a1], m, y[b2..], q);
  }

  /**
   * Lower-case; replace every character of class `p` by `c`; delete every
   * character outside class `k`; replace every run of class `q` by `c`;
   * strip class `q` from both ends. The key normaliser and the slug
   * generator both reduce to this shape.
   */
  function Canonical(s: string, p: char -> bool, k: char -> bool, q: char -> bool, c: char): string {
    Strip(SubRuns(Keep(Replace(Lower(s), p, c), k), q, c), q)
  }

  /** The part of `Canonical` that works character by character. */
  function Sifted(s: string, p: char -> bool, k: char -> bool, c: char): string {
    Keep(Replace(Lower(s), p, c), k)
  }

  /** `Sifted` distributes over concatenation. */
  lemma SiftedAppend(x: string, y: string, p: char -> bool, k: char -> bool, c: char)
    ensures Sifted(x + y, p, k, c) == Sifted(x, p, k, c) + Sifted(y, p, k, c)
  {
    LowerAppend(x, y);
    ReplaceAppend(Lower(x), Lower(y), p, c);
    KeepAppend(Replace(Lower(x), p, c), Replace(Lower(y), p, c), k);
  }

  /** Two strings that differ only in which characters of class `r` they
      hold have the same canonical form, when class `r` has no upper-case
      letter and each of its characters is either replaced by `c` or already
      of class `q`. */
  lemma CanonicalAgree(s: string, t: string, r: char -> bool, p: char -> bool, k: char -> bool, q: char -> bool, c: char)
    requires AgreeOutside(s, t, r)
    requires forall d :: r(d) ==> !IsUpperLetter(d)
    requires forall d :: r(d) ==> p(d) || q(d)
    requires forall d :: q(d) ==> k(d)
    requires q(c)
    ensures Canonical(s, p, k, q, c) == Canonical(t, p, k, q, c)
  {
    LowerAgree(s, t, r);
    ReplaceAgree(Lower(s), Lower(t), r, p, c, q);
    KeepAgree(Replace(Lower(s), p, c), Replace(Lower(t), p, c), q, k);
    SubRunsAgree(Sifted(s, p, k, c), Sifted(t, p, k, c), q, c);
  }

  /** Characters that are not upper-case, not replaced and not kept leave
      nothing behind. */
  lemma SiftedNone(z: string, p: char -> bool, k: char -> bool, c: char)
    requires forall i :: 0 <= i < |z| ==> !IsUpperLetter(z[i]) && !p(z[i]) && !k(z[i])
    ensures Sifted(z, p, k, c) == []
  {
    LowerFixes(z);
    ReplaceNone(z, p, c);
    KeepNone(z, k);
  }

  /** Characters that are not upper-case, not replaced and not kept can be
      deleted anywhere without changing the canonical form. */
  lemma CanonicalIgnores(x: string, z: string, y: string, p: char -> bool, k: char -> bool, q: char -> bool, c: char)
    requires forall i :: 0 <= i < |z| ==> !IsUpperLetter(z[i]) && !p(z[i]) && !k(z[i])
    ensures Canonical(x + z + y, p, k, q, c) == Canonical(x + y, p, k, q, c)
  {
    SiftedAppend(x + z, y, p, k, c);
    SiftedAppend(x, z, p, k, c);
    SiftedAppend(x, y, p, k, c);
    SiftedNone(z, p, k, c);
    assert Sifted(x, p, k, c) + [] == Sifted(x, p, k, c);
  }

  /** A string ending in a letter or digit still ends in it, lower-cased,
      after the character pass, when lower-case letters and digits are kept
      and not replaced. */
  lemma SiftedLast(a: string, p: char -> bool, k: char -> bool, c: char)
    requires a != [] && IsAlnum(a[|a| - 1])
    requires forall d :: IsLowerAlnum(d) ==> k(d) && !p(d)
    ensures var x := Sifted(a, p, k, c);
      x != [] && x[|x| - 1] == LowerChar(a[|a| - 1])
  {
    var n := |a| - 1;
    assert a == a[..n] + [a[n]];
    SiftedAppend(a[..n], [a[n]], p, k, c);
    assert Lower([a[n]]) == [LowerChar(a[n])];
    var l := LowerChar(a[n]);
    assert Replace([l], p, c) == [l];
    KeepCons(l, [], k);
    assert [l] + [] == [l];
    assert Sifted([a[n]], p, k, c) == [l];
  }

  /** Likewise for a string starting with a letter or digit. */
  lemma SiftedFirst(b: string, p: char -> bool, k: char -> bool, c: char)
    requires b != [] && IsAlnum(b[0])
    requires forall d :: IsLowerAlnum(d) ==> k(d) && !p(d)
    ensures var x := Sifted(b, p, k, c);
      x != [] && x[0] == LowerChar(b[0])
  {
    assert b == [b[0]] + b[1..];
    SiftedAppend([b[0]], b[1..], p, k, c);
    assert Lower([b[0]]) == [LowerChar(b[0])];
    var l := LowerChar(b[0]);
    assert Replace([l], p, c) == [l];
    KeepCons(l, [], k);
    assert [l] + [] == [l];
    assert Sifted([b[0]], p, k, c) == [l];
  }

  /** A non-empty run of separators, each replaced or kept as a character
      of class `q`, comes out of the character pass as a non-empty run of
      class `q`. */
  lemma SiftedRun(r: string, sep: char -> bool, p: char -> bool, k: char -> bool, q: char -> bool, c: char)
    requires r != [] && AllChars(r, sep)
    requires forall d :: sep(d) ==> !IsUpperLetter(d) && (p(d) || (k(d) && q(d)))
    requires k(c) && q(c)
    ensures Sifted(r, p, k, c) != [] && AllChars(Sifted(r, p, k, c), q)
  {
    LowerFixes(r);
    ReplaceAll(r, sep, p, c, q);
    ReplaceAll(r, sep, p, c, k);
    KeepSpec(Replace(r, p, c), k);
  }

  /** A substitution of the runs of `q` keeps a last character outside
      `q`. */
  lemma SubRunsLast(x: string, q: char -> bool, c: char)
    requires x != [] && !q(x[|x| - 1])
    ensures var y := SubRuns(x, q, c);
      y != [] && y[|y| - 1] == x[|x| - 1]
  {
    var n := |x| - 1;
    assert x == x[..n] + [x[n]];
    SubRunsAppend(x[..n], [x[n]], q, c);
    SubRunsNone([x[n]], q, c);
  }

  /**
   * A non-empty run of separators between a letter or digit on its left and
   * one on its right becomes exactly one `c` in the canonical form, and the
   * two sides are normalised on their own; this holds when lower-case
   * letters and digits are kept and belong to neither `p` nor `q`, and each
   * separator is not upper-case and either replaced or kept as class `q`.
   */
  lemma CanonicalJoin(a: string, r: string, b: string, sep: char -> bool, p: char -> bool, k: char -> bool, q: char -> bool, c: char)
    requires a != [] && IsAlnum(a[|a| - 1])
    requires r != [] && AllChars(r, sep)
    requires b != [] && IsAlnum(b[0])
    requires forall d :: sep(d) ==> !IsUpperLetter(d) && (p(d) || (k(d) && q(d)))
    requires forall d :: IsLowerAlnum(d) ==> k(d) && !p(d) && !q(d)
    requires k(c) && q(c)
    ensures Canonical(a + r + b, p, k, q, c) == Canonical(a, p, k, q, c) + [c] + Canonical(b, p, k, q, c)
  {
    var xa, xr, xb := Sifted(a, p, k, c), Sifted(r, p, k, c), Sifted(b, p, k, c);
    SiftedAppend(a + r, b, p, k, c);
    SiftedAppend(a, r, p, k, c);
    SiftedLast(a, p, k, c);
    SiftedFirst(b, p, k, c);
    SiftedRun(r, sep, p, k, q, c);
    SubRunsSplit(xa, xr, xb, q, c);
    var ya, yb := SubRuns(xa, q, c), SubRuns(xb, q, c);
    SubRunsLast(xa, q, c);
    SubRunsSpec(xb, q, c);
    StripJoin(ya, [c], yb, q);
  }

  /** Whitespace that is replaced by or kept as class `q` survives the
      character pass as class `q`. */
  lemma SiftedSpaces(u: string, p: char -> bool, k: char -> bool, q: char -> bool, c: char)
    requires AllChars(u, IsSpace)
    requires forall d :: IsSpace(d) ==> p(d) || (k(d) && q(d))
    requires k(c) && q(c)
    ensures Keep(Replace(u, p, c), k) == Replace(u, p, c) && AllChars(Replace(u, p, c), q)
  {
    ReplaceAll(u, IsSpace, p, c, q);
    ReplaceAll(u, IsSpace, p, c, k);
    KeepSpec(Replace(u, p, c), k);
  }

  /** A string is its three slices put back together. */
  lemma SliceThree(x: string, a: nat, b: nat)
    requires a <= b <= |x|
    ensures x == x[..a] + x[a..b] + x[b..]
  {
  }

  /** The character pass on a lower-cased string cut in three. */
  lemma KeepReplace3(u: string, m: string, v: string, p: char -> bool, k: char -> bool, c: char)
    ensures Keep(Replace(u + m + v, p, c), k)
      == Keep(Replace(u, p, c), k) + Keep(Replace(m, p, c), k) + Keep(Replace(v, p, c), k)
  {
    ReplaceAppend(u + m, v, p, c);
    ReplaceAppend(u, m, p, c);
    KeepAppend(Replace(u, p, c) + Replace(m, p, c), Replace(v, p, c), k);
    KeepAppend(Replace(u, p, c), Replace(m, p, c), k);
  }

  /**
   * Trimming whitespace, lower-casing, replacing the runs of class `p` by
   * `c`, deleting what is outside class `k`, replacing the runs of class `q`
   * by `c` and stripping class `q` gives the canonical form, when each
   * whitespace character is either replaced or kept as class `q`: the
   * whitespace the first trim removes would be stripped at the end anyway.
   */
  lemma CanonicalOfPipeline(s: string, p: char -> bool, k: char -> bool, q: char -> bool, c: char)
    requires forall d :: IsSpace(d) ==> p(d) || (k(d) && q(d))
    requires k(c) && q(c)
    ensures Strip(SubRuns(Keep(SubRuns(Lower(Strip(s, IsSpace)), p, c), k), q, c), q)
      == Canonical(s, p, k, q, c)
  {
    var x := Lower(s);
    var a, b := StripSlice(x, IsSpace);
    var u, m, v := x[..a], Strip(x, IsSpace), x[b..];
    StripLower(s);
    ReplaceThenCollapse(m, p, k, q, c);
    SliceThree(x, a, b);
    KeepReplace3(u, m, v, p, k, c);
    SiftedSpaces(u, p, k, q, c);
    SiftedSpaces(v, p, k, q, c);
    StripSubRunsPad(Replace(u, p, c), Keep(Replace(m, p, c), k), Replace(v, p, c), q, c);
  }
}
