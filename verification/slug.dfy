/**
 * The slug generator `slugify`: the record id and the name of a species'
 * photo directory, derived from the scientific name.
 */
module Slug {
  import opened Chars
  import opened Strings

  /** A slug: only `a-z`, `0-9` and `-`, never `--`, no `-` at either end. */
  predicate IsSlug(s: string) {
    AllChars(s, IsSlugChar) && NoAdjacent(s, IsHyphen) && Trimmed(s, IsHyphen)
  }

  /**
   * Trim and lower-case; every run of whitespace/`_` becomes one `-`; every
   * character other than `a-z`, `0-9` and `-` is deleted; every run of `-`
   * becomes one `-`; `-` is stripped from both ends.
   */
  function Slugify(name: string): string {
    var lowered := Lower(Strip(name, IsSpace));
    var hyphened := SubRuns(lowered, IsSpaceOrUnderscore, '-');
    var kept := Keep(hyphened, IsSlugChar);
    var collapsed := SubRuns(kept, IsHyphen, '-');
    Strip(collapsed, IsHyphen)
  }

  /** Every slugified name is a slug. */
  lemma SlugifyIsSlug(name: string)
    ensures IsSlug(Slugify(name))
  {
    var lowered := Lower(Strip(name, IsSpace));
    var hyphened := SubRuns(lowered, IsSpaceOrUnderscore, '-');
    var kept := Keep(hyphened, IsSlugChar);
    var collapsed := SubRuns(kept, IsHyphen, '-');
    KeepSpec(hyphened, IsSlugChar);
    SubRunsSpec(kept, IsHyphen, '-');
    SubRunsKeeps(kept, IsHyphen, '-', IsSlugChar);
    StripKeeps(collapsed, IsHyphen, IsSlugChar);
    StripKeeps(collapsed, IsHyphen, IsHyphen);
  }

  /** A string that is already a slug is its own slug. */
  lemma SlugifyFixesSlugs(s: string)
    requires IsSlug(s)
    ensures Slugify(s) == s
  {
    assert Trimmed(s, IsSpace);
    assert Strip(s, IsSpace) == s;
    var lowered := Lower(Strip(s, IsSpace));
    LowerFixes(s);
    assert lowered == s;
    SubRunsFixes(s, IsSpaceOrUnderscore, '-');
    var hyphened := SubRuns(lowered, IsSpaceOrUnderscore, '-');
    KeepSpec(s, IsSlugChar);
    assert Keep(hyphened, IsSlugChar) == s;
    SubRunsFixes(s, IsHyphen, '-');
    assert Strip(s, IsHyphen) == s;
  }

  /** Slugifying a slug changes nothing. */
  lemma SlugifyIdempotent(name: string)
    ensures Slugify(Slugify(name)) == Slugify(name)
  {
    SlugifyIsSlug(name);
    SlugifyFixesSlugs(Slugify(name));
  }

  /** Case does not matter: a name and its lower-cased form have the same
      slug. */
  lemma SlugifyIgnoresCase(name: string)
    ensures Slugify(Lower(name)) == Slugify(name)
  {
    StripLower(name);
    LowerTwice(Strip(name, IsSpace));
  }

  /** The letters and digits of the slug are those of the lower-cased name,
      all of them and in order. */
  lemma SlugifyLettersAndDigits(name: string)
    ensures Keep(Slugify(name), IsLowerAlnum) == Keep(Lower(name), IsLowerAlnum)
  {
    var lowered := Lower(Strip(name, IsSpace));
    var hyphened := SubRuns(lowered, IsSpaceOrUnderscore, '-');
    var kept := Keep(hyphened, IsSlugChar);
    var collapsed := SubRuns(kept, IsHyphen, '-');
    KeepStrip(collapsed, IsHyphen, IsLowerAlnum);
    KeepSubRuns(kept, IsHyphen, '-', IsLowerAlnum);
    KeepKeep(hyphened, IsSlugChar, IsLowerAlnum);
    KeepSubRuns(lowered, IsSpaceOrUnderscore, '-', IsLowerAlnum);
    StripLower(name);
    KeepStrip(Lower(name), IsSpace, IsLowerAlnum);
  }

  /** The slug is the canonical form in which every whitespace character and
      `_`, one by one, becomes `-`: replacing their runs, as the source does,
      and collapsing `-` afterwards comes to the same thing, and so does
      trimming first. */
  lemma SlugifyAsCanonical(name: string)
    ensures Slugify(name) == Canonical(name, IsSpaceOrUnderscore, IsSlugChar, IsHyphen, '-')
  {
    CanonicalOfPipeline(name, IsSpaceOrUnderscore, IsSlugChar, IsHyphen, '-');
  }

  /** Separators are all alike: names that differ only in which whitespace
      character, `_` or `-` stands at some positions have the same slug, so
      "Santalum album", "Santalum_album" and "Santalum-album" share one. */
  lemma SlugifySeparators(s: string, t: string)
    requires AgreeOutside(s, t, IsSlugSeparator)
    ensures Slugify(s) == Slugify(t)
  {
    SlugifyAsCanonical(s);
    SlugifyAsCanonical(t);
    CanonicalAgree(s, t, IsSlugSeparator, IsSpaceOrUnderscore, IsSlugChar, IsHyphen, '-');
  }

  /** A run of separators between two letters or digits becomes exactly one
      `-`, and the words on either side are slugified on their own:
      "Santalum album" gives "santalum-album". */
  lemma SlugifyJoin(a: string, r: string, b: string)
    requires a != [] && IsAlnum(a[|a| - 1])
    requires r != [] && AllChars(r, IsSlugSeparator)
    requires b != [] && IsAlnum(b[0])
    ensures Slugify(a + r + b) == Slugify(a) + "-" + Slugify(b)
  {
    SlugifyAsCanonical(a + r + b);
    SlugifyAsCanonical(a);
    SlugifyAsCanonical(b);
    SlugJoin(a, r, b);
  }

  /** `SlugifyJoin` on the canonical form. */
  lemma SlugJoin(a: string, r: string, b: string)
    requires a != [] && IsAlnum(a[|a| - 1])
    requires r != [] && AllChars(r, IsSlugSeparator)
    requires b != [] && IsAlnum(b[0])
    ensures Canonical(a + r + b, IsSpaceOrUnderscore, IsSlugChar, IsHyphen, '-')
      == Canonical(a, IsSpaceOrUnderscore, IsSlugChar, IsHyphen, '-') + "-"
        + Canonical(b, IsSpaceOrUnderscore, IsSlugChar, IsHyphen, '-')
  {
    CanonicalJoin(a, r, b, IsSlugSeparator, IsSpaceOrUnderscore, IsSlugChar, IsHyphen, '-');
  }

  /** The words of the example are slugs once lower-cased. */
  lemma SantalumWords()
    ensures Lower("Santalum") == "santalum" && IsSlug("santalum") && IsSlug("album")
  {
  }

  /** "Santalum album" has the slug "santalum-album". */
  lemma SantalumAlbum()
    ensures Slugify("Santalum album") == "santalum-album"
  {
    SantalumWords();
    assert "Santalum" + " " + "album" == "Santalum album";
    assert "santalum" + "-" + "album" == "santalum-album";
    SlugifyJoin("Santalum", " ", "album");
    SlugifyIgnoresCase("Santalum");
    SlugifyFixesSlugs("santalum");
    SlugifyFixesSlugs("album");
  }
}
