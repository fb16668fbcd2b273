/**
 * The leaf taxonomy parser `_leaf_category_and_subtype`: an ordered list of
 * substring rules over the free-text "Leaf type" column, first match wins.
 */
module LeafTaxonomy {
  import opened Wrappers
  import opened Chars
  import opened Strings

  const SIMPLE := "Simple"
  const PINNATELY_COMPOUND := "Pinnately compound"
  const PALMATELY_COMPOUND := "Palmately compound"

  /** The fixed top-level categories offered as filters, `LEAF_TOPLEVEL`. */
  const LEAF_TOPLEVEL := [SIMPLE, PINNATELY_COMPOUND, PALMATELY_COMPOUND]

  /** The fixed subtypes offered as filters, `LEAF_SUBTYPES`. */
  const LEAF_SUBTYPES := ["single", "double"]

  /** The words of the alternation `(single|double|triple)`, in its order. */
  const SUBTYPE_WORDS := ["single", "double", "triple"]

  datatype LeafClass = LeafClass(category: Option<string>, subtype: Option<string>)

  /** The text `(w)` stands at position `i` of `t`, the letters compared
      without regard to case. */
  predicate TagWordAt(t: string, i: nat, w: string) {
    i + |w| + 2 <= |t| && t[i] == '(' && Lower(t[i + 1..i + 1 + |w|]) == w && t[i + 1 + |w|] == ')'
  }

  /** What `\((single|double|triple)\)` matches at position `i` under
      `re.IGNORECASE`: the group, lower-cased, of the first alternative that
      fits there. */
  function TagAt(t: string, i: nat): (r: Option<string>)
    ensures r.Some? ==> r.value in SUBTYPE_WORDS && TagWordAt(t, i, r.value)
    ensures r.None? ==> forall w :: w in SUBTYPE_WORDS ==> !TagWordAt(t, i, w)
  {
    if TagWordAt(t, i, "single") then Some("single")
    else if TagWordAt(t, i, "double") then Some("double")
    else if TagWordAt(t, i, "triple") then Some("triple")
    else None
  }

  /** `re.search` from position `i` on: the tag at the leftmost position that
      has one. */
  function FirstTagFrom(t: string, i: nat): (r: Option<string>)
    ensures r.Some? ==> r.value in SUBTYPE_WORDS
    decreases |t| - i
  {
    if i >= |t| then None
    else if TagAt(t, i).Some? then TagAt(t, i)
    else FirstTagFrom(t, i + 1)
  }

  /** The subtype found by `re.search` over the whole text. */
  function FirstTag(t: string): Option<string> {
    FirstTagFrom(t, 0)
  }

  /** The search returns the tag at the leftmost position that holds one. */
  lemma {:induction false} FirstTagIsLeftmost(t: string, i: nat)
    requires TagAt(t, i).Some?
    requires forall j: nat :: j < i ==> TagAt(t, j).None?
    ensures FirstTag(t) == TagAt(t, i)
  {
    FirstTagFromLeftmost(t, 0, i);
  }

  lemma {:induction false} FirstTagFromLeftmost(t: string, from: nat, i: nat)
    requires from <= i && TagAt(t, i).Some?
    requires forall j: nat :: from <= j < i ==> TagAt(t, j).None?
    ensures FirstTagFrom(t, from) == TagAt(t, i)
    decreases i - from
  {
    if from < i {
      FirstTagFromLeftmost(t, from + 1, i);
    }
  }

  /** The search finds nothing exactly when no position holds a tag. */
  lemma {:induction false} FirstTagNone(t: string)
    ensures FirstTag(t).None? <==> forall i: nat :: TagAt(t, i).None?
  {
    if FirstTag(t).None? {
      forall i: nat ensures TagAt(t, i).None? {
        if TagAt(t, i).Some? {
          var k := LeftmostTag(t, i);
          FirstTagIsLeftmost(t, k);
        }
      }
    } else {
      FirstTagFromFound(t, 0);
    }
  }

  /** Some position at or before `i` holds a tag and none before it does. */
  lemma {:induction false} LeftmostTag(t: string, i: nat) returns (k: nat)
    requires TagAt(t, i).Some?
    ensures k <= i && TagAt(t, k).Some?
    ensures forall j: nat :: j < k ==> TagAt(t, j).None?
    decreases i
  {
    if exists j: nat :: j < i && TagAt(t, j).Some? {
      var j: nat :| j < i && TagAt(t, j).Some?;
      k := LeftmostTag(t, j);
    } else {
      k := i;
    }
  }

  lemma {:induction false} FirstTagFromFound(t: string, from: nat)
    requires FirstTagFrom(t, from).Some?
    ensures exists i: nat :: from <= i && TagAt(t, i) == FirstTagFrom(t, from)
    decreases |t| - from
  {
    if TagAt(t, from).None? {
      FirstTagFromFound(t, from + 1);
    }
  }

  /**
   * The rules in order, on the trimmed text `t` and its lower-cased form `tl`:
   * "simple" anywhere gives Simple; else "pinnately" at the start or
   * "pinnate" or "compound" anywhere gives Pinnately compound with the first
   * parenthesised subtype tag of `t`; else "palmately" at the start or
   * "palmate" anywhere gives Palmately compound; else nothing.
   */
  function ClassifyLeaf(v: string): (r: LeafClass)
    ensures r.category.Some? ==> r.category.value in LEAF_TOPLEVEL
    ensures r.subtype.Some? ==> r.category == Some(PINNATELY_COMPOUND) && r.subtype.value in SUBTYPE_WORDS
  {
    var t := Strip(v, IsSpace);
    var tl := RuleText(v);
    if StartsWith(tl, "simple") || Contains(tl, "simple") then
      LeafClass(Some(SIMPLE), None)
    else if StartsWith(tl, "pinnately") || Contains(tl, "pinnate") || Contains(tl, "compound") then
      LeafClass(Some(PINNATELY_COMPOUND), FirstTag(t))
    else if StartsWith(tl, "palmately") || Contains(tl, "palmate") then
      LeafClass(Some(PALMATELY_COMPOUND), None)
    else
      LeafClass(None, None)
  }

  /** `w in v.lower()`: the word occurs in the text, any case. */
  predicate Mentions(v: string, w: string) {
    Contains(Lower(v), w)
  }

  /** A word without whitespace is mentioned by the trimmed text exactly when
      it is mentioned by the text itself. */
  lemma MentionsStripped(v: string, w: string)
    requires w != [] && forall k :: 0 <= k < |w| ==> !IsSpace(w[k])
    ensures Contains(Lower(Strip(v, IsSpace)), w) <==> Mentions(v, w)
  {
    var a, b := StripSlice(v, IsSpace);
    LowerSlice(v, a, b);
    ContainsInCore(Lower(v), IsSpace, a, b, w);
  }

  /** The trimmed, lower-cased text the rules test. */
  function RuleText(v: string): string {
    Lower(Strip(v, IsSpace))
  }

  /** "pinnately" begins with "pinnate". */
  lemma PinnatelyPinnate(s: string)
    ensures StartsWith(s, "pinnately") ==> Contains(s, "pinnate")
  {
    if StartsWith(s, "pinnately") {
      assert s[..7] == "pinnate";
      assert OccursAt(s, "pinnate", 0);
    }
  }

  /** "palmately" begins with "palmate". */
  lemma PalmatelyPalmate(s: string)
    ensures StartsWith(s, "palmately") ==> Contains(s, "palmate")
  {
    if StartsWith(s, "palmately") {
      assert s[..7] == "palmate";
      assert OccursAt(s, "palmate", 0);
    }
  }

  /** The first rule's test, read on the raw text. */
  lemma SimpleTest(v: string)
    ensures StartsWith(RuleText(v), "simple") || Contains(RuleText(v), "simple") <==> Mentions(v, "simple")
  {
    var tl := RuleText(v);
    var starts, contains := StartsWith(tl, "simple"), Contains(tl, "simple");
    if starts {
      StartsWithContains(tl, "simple");
    }
    assert starts ==> contains;
    MentionsStripped(v, "simple");
    assert contains <==> Mentions(v, "simple");
  }

  /** The word "compound", read on the raw text. */
  lemma CompoundTest(v: string)
    ensures Contains(RuleText(v), "compound") <==> Mentions(v, "compound")
  {
    MentionsStripped(v, "compound");
  }

  /** The word "pinnate", read on the raw text: the `startswith` adds
      nothing, since "pinnately" begins with "pinnate". */
  lemma PinnateWordTest(v: string)
    ensures StartsWith(RuleText(v), "pinnately") || Contains(RuleText(v), "pinnate") <==> Mentions(v, "pinnate")
  {
    var tl := RuleText(v);
    var starts, pinnate := StartsWith(tl, "pinnately"), Contains(tl, "pinnate");
    PinnatelyPinnate(tl);
    assert starts ==> pinnate;
    MentionsStripped(v, "pinnate");
    assert pinnate <==> Mentions(v, "pinnate");
  }

  /** The third rule's test, read on the raw text. */
  lemma PalmateTest(v: string)
    ensures StartsWith(RuleText(v), "palmately") || Contains(RuleText(v), "palmate") <==> Mentions(v, "palmate")
  {
    var tl := RuleText(v);
    var starts, palmate := StartsWith(tl, "palmately"), Contains(tl, "palmate");
    PalmatelyPalmate(tl);
    assert starts ==> palmate;
    MentionsStripped(v, "palmate");
    assert palmate <==> Mentions(v, "palmate");
  }

  /**
   * The priority order of the rules, on the raw text: "simple" wins even
   * over "compound"; then "pinnate" or "compound" (so "compound" alone means
   * Pinnately compound) with the first subtype tag; then "palmate";
   * otherwise nothing.
   */
  lemma ClassifyLeafPriority(v: string)
    ensures Mentions(v, "simple") ==> ClassifyLeaf(v) == LeafClass(Some(SIMPLE), None)
    ensures !Mentions(v, "simple") && (Mentions(v, "pinnate") || Mentions(v, "compound")) ==>
      ClassifyLeaf(v) == LeafClass(Some(PINNATELY_COMPOUND), FirstTag(Strip(v, IsSpace)))
    ensures !Mentions(v, "simple") && !Mentions(v, "pinnate") && !Mentions(v, "compound") && Mentions(v, "palmate") ==>
      ClassifyLeaf(v) == LeafClass(Some(PALMATELY_COMPOUND), None)
    ensures !Mentions(v, "simple") && !Mentions(v, "pinnate") && !Mentions(v, "compound") && !Mentions(v, "palmate") ==>
      ClassifyLeaf(v) == LeafClass(None, None)
  {
    SimpleTest(v);
    PinnateWordTest(v);
    CompoundTest(v);
    PalmateTest(v);
  }
}
