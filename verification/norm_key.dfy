/**
 * The key normaliser `_norm_key`: the canonical form under which every icon
 * is filed and looked up.
 */
module Keys {
  import opened Chars
  import opened Strings

  /** A normalised key: only `a-z`, `0-9` and spaces, never two spaces in a
      row, no space at either end. */
  predicate IsKey(s: string) {
    AllChars(s, IsKeyChar) && NoAdjacent(s, IsSpace) && Trimmed(s, IsSpace)
  }

  /**
   * Trim and lower-case; every run of `_`/`-` becomes one space; every
   * character other than `a-z`, `0-9` and whitespace is deleted; every
   * whitespace run becomes one space; trim again.
   */
  function NormKey(s: string): string {
    var lowered := Lower(Strip(s, IsSpace));
    var spaced := SubRuns(lowered, IsHyphenOrUnderscore, ' ');
    var kept := Keep(spaced, IsAlnumOrSpace);
    var collapsed := SubRuns(kept, IsSpace, ' ');
    Strip(collapsed, IsSpace)
  }

  /** Every normalised string is a key. */
  lemma NormKeyIsKey(s: string)
    ensures IsKey(NormKey(s))
  {
    var lowered := Lower(Strip(s, IsSpace));
    var spaced := SubRuns(lowered, IsHyphenOrUnderscore, ' ');
    var kept := Keep(spaced, IsAlnumOrSpace);
    var collapsed := SubRuns(kept, IsSpace, ' ');
    KeepSpec(spaced, IsAlnumOrSpace);
    SubRunsSpec(kept, IsSpace, ' ');
    SubRunsKeeps(kept, IsSpace, ' ', IsAlnumOrSpace);
    assert AllChars(collapsed, IsKeyChar);
    StripKeeps(collapsed, IsSpace, IsKeyChar);
    StripKeeps(collapsed, IsSpace, IsSpace);
  }

  /** A string that is already a key normalises to itself. */
  lemma NormKeyFixesKeys(s: string)
    requires IsKey(s)
    ensures NormKey(s) == s
  {
    assert Strip(s, IsSpace) == s;
    LowerFixes(s);
    SubRunsFixes(s, IsHyphenOrUnderscore, ' ');
    KeepSpec(s, IsAlnumOrSpace);
    SubRunsFixes(s, IsSpace, ' ');
  }

  /** Normalising twice gives the same key as normalising once. */
  lemma NormKeyIdempotent(s: string)
    ensures NormKey(NormKey(s)) == NormKey(s)
  {
    NormKeyIsKey(s);
    NormKeyFixesKeys(NormKey(s));
  }

  /** Case does not matter: a label and its lower-cased form have the same
      key. */
  lemma NormKeyIgnoresCase(s: string)
    ensures NormKey(Lower(s)) == NormKey(s)
  {
    StripLower(s);
    LowerTwice(Strip(s, IsSpace));
  }

  /** The letters and digits of the key are those of the lower-cased label,
      all of them and in order: normalising only drops other characters and
      rearranges spaces. */
  lemma NormKeyLettersAndDigits(s: string)
    ensures Keep(NormKey(s), IsLowerAlnum) == Keep(Lower(s), IsLowerAlnum)
  {
    var lowered := Lower(Strip(s, IsSpace));
    var spaced := SubRuns(lowered, IsHyphenOrUnderscore, ' ');
    var kept := Keep(spaced, IsAlnumOrSpace);
    var collapsed := SubRuns(kept, IsSpace, ' ');
    KeepStrip(collapsed, IsSpace, IsLowerAlnum);
    KeepSubRuns(kept, IsSpace, ' ', IsLowerAlnum);
    KeepKeep(spaced, IsAlnumOrSpace, IsLowerAlnum);
    KeepSubRuns(lowered, IsHyphenOrUnderscore, ' ', IsLowerAlnum);
    StripLower(s);
    KeepStrip(Lower(s), IsSpace, IsLowerAlnum);
  }

  /** The key is the canonical form in which every `_` and `-`, one by one,
      becomes a space: replacing their runs, as the source does, and
      collapsing whitespace afterwards comes to the same thing, and so does
      trimming first. */
  lemma NormKeyAsCanonical(s: string)
    ensures NormKey(s) == Canonical(s, IsHyphenOrUnderscore, IsAlnumOrSpace, IsSpace, ' ')
  {
    CanonicalOfPipeline(s, IsHyphenOrUnderscore, IsAlnumOrSpace, IsSpace, ' ');
  }

  /** Separators are all alike: labels that differ only in which whitespace
      character, `_` or `-` stands at some positions have the same key, so
      "red sandalwood", "red_sandalwood" and "red-sandalwood" share one. */
  lemma NormKeySeparators(s: string, t: string)
    requires AgreeOutside(s, t, IsSeparator)
    ensures NormKey(s) == NormKey(t)
  {
    NormKeyAsCanonical(s);
    NormKeyAsCanonical(t);
    CanonicalAgree(s, t, IsSeparator, IsHyphenOrUnderscore, IsAlnumOrSpace, IsSpace, ' ');
  }

  /** A run of separators between two letters or digits becomes exactly one
      space, and the words on either side are normalised on their own. */
  lemma NormKeyJoin(a: string, r: string, b: string)
    requires a != [] && IsAlnum(a[|a| - 1])
    requires r != [] && AllChars(r, IsSeparator)
    requires b != [] && IsAlnum(b[0])
    ensures NormKey(a + r + b) == NormKey(a) + " " + NormKey(b)
  {
    NormKeyAsCanonical(a + r + b);
    NormKeyAsCanonical(a);
    NormKeyAsCanonical(b);
    KeyJoin(a, r, b);
  }

  /** `NormKeyJoin` on the canonical form. */
  lemma KeyJoin(a: string, r: string, b: string)
    requires a != [] && IsAlnum(a[|a| - 1])
    requires r != [] && AllChars(r, IsSeparator)
    requires b != [] && IsAlnum(b[0])
    ensures Canonical(a + r + b, IsHyphenOrUnderscore, IsAlnumOrSpace, IsSpace, ' ')
      == Canonical(a, IsHyphenOrUnderscore, IsAlnumOrSpace, IsSpace, ' ') + " "
        + Canonical(b, IsHyphenOrUnderscore, IsAlnumOrSpace, IsSpace, ' ')
  {
    CanonicalJoin(a, r, b, IsSeparator, IsHyphenOrUnderscore, IsAlnumOrSpace, IsSpace, ' ');
  }

  /** Characters other than letters, digits, whitespace, `_` and `-` are
      deleted wherever they stand, so "sandalwood!!" and "sandalwood" have
      the same key. */
  lemma NormKeyIgnoresOthers(x: string, z: string, y: string)
    requires forall i :: 0 <= i < |z| ==> !IsAlnum(z[i]) && !IsSeparator(z[i])
    ensures NormKey(x + z + y) == NormKey(x + y)
  {
    NormKeyAsCanonical(x + z + y);
    NormKeyAsCanonical(x + y);
    CanonicalIgnores(x, z, y, IsHyphenOrUnderscore, IsAlnumOrSpace, IsSpace, ' ');
  }

  /** Two words joined by a `-`, by a `_` or by a space have the same key
      as the lower-cased words joined by `_`. */
  lemma SeparatorsOfTwoWords(x: string, y: string, d: char)
    requires IsSeparator(d)
    ensures NormKey(x + [d] + y) == NormKey(Lower(x) + "_" + Lower(y))
  {
    NormKeyIgnoresCase(x + [d] + y);
    LowerAppend(x + [d], y);
    LowerAppend(x, [d]);
    assert Lower([d]) == [d];
    AgreeOutsideSwap(Lower(x), d, '_', Lower(y), IsSeparator);
    NormKeySeparators(Lower(x) + [d] + Lower(y), Lower(x) + "_" + Lower(y));
  }

  /** The words of the example, lower-cased. */
  lemma SandalwoodLower()
    ensures Lower("Red") == "red" && Lower("RED") == "red"
    ensures Lower("Sandalwood") == "sandalwood" && Lower("SANDALWOOD") == "sandalwood"
    ensures Lower("red") == "red" && Lower("sandalwood") == "sandalwood"
  {
  }

  /** The spellings of the example, as words and separators. */
  lemma SandalwoodSpellings()
    ensures "Red" + " " + "Sandalwood" == "Red Sandalwood"
    ensures "red" + "_" + "sandalwood" == "red_sandalwood"
    ensures "RED" + "-" + "SANDALWOOD" + "!!" + "" == "RED-SANDALWOOD!!"
    ensures "RED" + "-" + "SANDALWOOD" + "" == "RED" + "-" + "SANDALWOOD"
  {
  }

  /** "Red Sandalwood", "red_sandalwood" and "RED-SANDALWOOD!!" share one key. */
  lemma SandalwoodVariants()
    ensures NormKey("Red Sandalwood") == NormKey("red_sandalwood") == NormKey("RED-SANDALWOOD!!")
  {
    SandalwoodLower();
    SandalwoodSpellings();
    SeparatorsOfTwoWords("Red", "Sandalwood", ' ');
    SeparatorsOfTwoWords("red", "sandalwood", '_');
    SeparatorsOfTwoWords("RED", "SANDALWOOD", '-');
    NormKeyIgnoresOthers("RED" + "-" + "SANDALWOOD", "!!", "");
  }
}
