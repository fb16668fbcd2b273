/**
 * The icon resolvers `_pick_species_icon`, `_pick_leaf_icon` and
 * `_pick_fruit_icon`: each tries an ordered list of names against one icon
 * index, under their normalised keys, and returns the first hit.
 */
module IconResolvers {
  import opened Wrappers
  import opened Chars
  import opened Strings
  import opened Keys

  /** The first name of `names` whose normalised key is in the index, looked
      up; `None` when there is none. */
  function FirstHit(index: map<string, string>, names: seq<string>): (r: Option<string>)
    ensures r.Some? ==> r.value in index.Values
    ensures r.None? <==> forall i :: 0 <= i < |names| ==> NormKey(names[i]) !in index
  {
    if names == [] then None
    else if NormKey(names[0]) in index then Some(index[NormKey(names[0])])
    else FirstHit(index, names[1..])
  }

  /** The hit belongs to the first name whose key is in the index. */
  lemma {:induction false} FirstHitIsFirst(index: map<string, string>, names: seq<string>, i: nat)
    requires i < |names| && NormKey(names[i]) in index
    requires forall j :: 0 <= j < i ==> NormKey(names[j]) !in index
    ensures FirstHit(index, names) == Some(index[NormKey(names[i])])
  {
    if i > 0 {
      FirstHitIsFirst(index, names[1..], i - 1);
    }
  }

  /** The third name hits when the first two miss. */
  lemma FirstHitThird(index: map<string, string>, names: seq<string>)
    requires 3 <= |names| && NormKey(names[0]) !in index && NormKey(names[1]) !in index
    requires NormKey(names[2]) in index
    ensures FirstHit(index, names) == Some(index[NormKey(names[2])])
  {
    var tail1, tail2 := names[1..], names[2..];
    assert tail1[0] == names[1] && tail1[1..] == tail2 && tail2[0] == names[2];
    assert FirstHit(index, names) == FirstHit(index, tail1);
    assert FirstHit(index, tail1) == FirstHit(index, tail2);
  }

  /** The first entry of `keys` present in the index, looked up as it is. */
  function Lookup(index: map<string, string>, keys: seq<string>): Option<string> {
    if keys == [] then None
    else if keys[0] in index then Some(index[keys[0]])
    else Lookup(index, keys[1..])
  }

  /** On names that are already keys, normalising before the lookup changes
      nothing. */
  lemma {:induction false} FirstHitOfKeys(index: map<string, string>, keys: seq<string>)
    requires forall i :: 0 <= i < |keys| ==> NormKey(keys[i]) == keys[i]
    ensures FirstHit(index, keys) == Lookup(index, keys)
  {
    if keys != [] {
      FirstHitOfKeys(index, keys[1..]);
    }
  }

  lemma FirstHitOfTwoKeys(index: map<string, string>, a: string, b: string)
    requires NormKey(a) == a && NormKey(b) == b
    ensures FirstHit(index, [a, b]) == Lookup(index, [a, b])
  {
    FirstHitOfKeys(index, [a, b]);
  }

  lemma FirstHitOfThreeKeys(index: map<string, string>, a: string, b: string, c: string)
    requires NormKey(a) == a && NormKey(b) == b && NormKey(c) == c
    ensures FirstHit(index, [a, b, c]) == Lookup(index, [a, b, c])
  {
    FirstHitOfKeys(index, [a, b, c]);
  }

  // ---------------- species ----------------

  /** The position of the first `)` at or after `i` that no line break
      precedes (the `.` of `\(.*?\)` does not match a line break). */
  function CloseParen(s: string, i: nat): (r: Option<nat>)
    ensures r.Some? ==> i <= r.value < |s| && s[r.value] == ')'
    ensures r.Some? ==> forall k :: i <= k < r.value ==> s[k] != ')' && s[k] != '\n'
    ensures r.None? ==> forall k :: i <= k < |s| && s[k] == ')' ==> exists m :: i <= m < k && s[m] == '\n'
    decreases |s| - i
  {
    if i >= |s| || s[i] == '\n' then None
    else if s[i] == ')' then Some(i)
    else CloseParen(s, i + 1)
  }

  /** `re.sub(r'\(.*?\)', '', s)`: scanning from the left, every `(` with a
      `)` after it on the same line is deleted together with everything up
      to and including the first such `)`. */
  function StripParens(s: string): (r: string)
    ensures |r| <= |s|
    ensures (forall k :: 0 <= k < |s| ==> s[k] != '(') ==> r == s
    ensures (forall k :: 0 <= k < |s| ==> s[k] != ')') ==> r == s
    decreases |s|
  {
    if s == [] then []
    else if s[0] == '(' then
      match CloseParen(s, 1)
      case Some(j) => StripParens(s[j + 1..])
      case None => [s[0]] + StripParens(s[1..])
    else [s[0]] + StripParens(s[1..])
  }

  /** No group `\(.*?\)` is left in `s`: no `(` has a `)` after it on the
      same line. */
  predicate NoGroup(s: string) {
    forall a :: 0 <= a < |s| && s[a] == '(' ==> CloseParen(s, a + 1).None?
  }

  /** Searching `s` from `i + 1` finds a `)` exactly when searching its tail
      from `i` does. */
  lemma {:induction false} CloseParenTail(s: string, i: nat)
    requires s != []
    ensures CloseParen(s, i + 1).None? <==> CloseParen(s[1..], i).None?
    decreases |s| - i
  {
    if i + 1 < |s| {
      assert s[1..][i] == s[i + 1];
      if s[i + 1] != '\n' && s[i + 1] != ')' {
        CloseParenTail(s, i + 1);
      }
    }
  }

  /** A string with no `)` before its first line break keeps that shape when
      its groups are deleted. */
  lemma {:induction false} StripParensNoEarlyClose(t: string)
    requires CloseParen(t, 0).None?
    ensures CloseParen(StripParens(t), 0).None?
    decreases |t|
  {
    if t != [] && t[0] != '\n' {
      CloseParenTail(t, 0);
      StripParensNoEarlyClose(t[1..]);
      var r := StripParens(t);
      assert r == [t[0]] + StripParens(t[1..]);
      CloseParenTail(r, 0);
    }
  }

  /** The substitution deletes every group: what is left has no `(` with a
      `)` after it on the same line. */
  lemma {:induction false} StripParensLeavesNoGroup(s: string)
    ensures NoGroup(StripParens(s))
    decreases |s|
  {
    if s != [] {
      if s[0] == '(' && CloseParen(s, 1).Some? {
        StripParensLeavesNoGroup(s[CloseParen(s, 1).value + 1..]);
      } else {
        var rest := StripParens(s[1..]);
        StripParensLeavesNoGroup(s[1..]);
        var r := StripParens(s);
        assert r == [s[0]] + rest;
        assert r[1..] == rest;
        forall a | 0 <= a < |r| && r[a] == '(' ensures CloseParen(r, a + 1).None? {
          CloseParenTail(r, a);
          if a == 0 {
            CloseParenTail(s, 0);
            StripParensNoEarlyClose(s[1..]);
          } else {
            assert rest[a - 1] == '(';
          }
        }
      }
    }
  }

  predicate IsLineBreak(c: char) { c == '\n' }

  /** A leading group holds no line break. */
  lemma GroupLines(s: string, j: nat)
    requires s != [] && s[0] == '(' && CloseParen(s, 1) == Some(j)
    ensures Keep(s, IsLineBreak) == Keep(s[j + 1..], IsLineBreak)
  {
    assert s == s[..j + 1] + s[j + 1..];
    KeepAppend(s[..j + 1], s[j + 1..], IsLineBreak);
    KeepNone(s[..j + 1], IsLineBreak);
  }

  /** A group never spans a line break, so every line break is kept. */
  lemma {:induction false} StripParensKeepsLines(s: string)
    ensures Keep(StripParens(s), IsLineBreak) == Keep(s, IsLineBreak)
    decreases |s|
  {
    if s != [] {
      if s[0] == '(' && CloseParen(s, 1).Some? {
        var j := CloseParen(s, 1).value;
        StripParensKeepsLines(s[j + 1..]);
        GroupLines(s, j);
      } else {
        var rest := StripParens(s[1..]);
        StripParensKeepsLines(s[1..]);
        assert StripParens(s) == [s[0]] + rest;
        assert ([s[0]] + rest)[1..] == rest;
      }
    }
  }

  /** A character other than `(` in front of a string is copied to the
      output. */
  lemma StripParensPlainHead(c: char, s: string)
    requires c != '('
    ensures StripParens([c] + s) == [c] + StripParens(s)
  {
    assert ([c] + s)[1..] == s;
  }

  /** Text before the first `(` is kept as it is. */
  lemma {:induction false} StripParensKeepsPlain(a: string, b: string)
    requires '(' !in a
    ensures StripParens(a + b) == a + StripParens(b)
  {
    if a == [] {
      assert a + b == b;
    } else {
      var t := a[1..];
      assert a == [a[0]] + t;
      StripParensKeepsPlain(t, b);
      StripParensPlainHead(a[0], t + b);
      AppendAssoc([a[0]], t, b);
      AppendAssoc([a[0]], t, StripParens(b));
    }
  }

  /** From inside a group, the search stops at the `)` that closes it. */
  lemma {:induction false} CloseParenFindsClose(s: string, i: nat, j: nat)
    requires i <= j < |s| && s[j] == ')'
    requires forall k :: i <= k < j ==> s[k] != ')' && s[k] != '\n'
    ensures CloseParen(s, i) == Some(j)
    decreases j - i
  {
    if i < j {
      CloseParenFindsClose(s, i + 1, j);
    }
  }

  /** A group `(g)` on one line is deleted whole, and the text after it is
      processed on its own. */
  lemma StripParensDropsGroup(g: string, b: string)
    requires forall k :: 0 <= k < |g| ==> g[k] != ')' && g[k] != '\n'
    ensures StripParens("(" + g + ")" + b) == StripParens(b)
  {
    var s := "(" + g + ")" + b;
    assert forall k :: 1 <= k < |g| + 1 ==> s[k] == g[k - 1];
    CloseParenFindsClose(s, 1, |g| + 1);
    assert s[|g| + 2..] == b;
  }

  /** A name with its parenthesised parts removed and then trimmed; a name
      without `(`, or without `)`, is only trimmed. */
  function Variant(c: string): (r: string)
    ensures Trimmed(r, IsSpace) && |r| <= |c|
    ensures (forall k :: 0 <= k < |c| ==> c[k] != '(') ==> r == Strip(c, IsSpace)
    ensures (forall k :: 0 <= k < |c| ==> c[k] != ')') ==> r == Strip(c, IsSpace)
  {
    Strip(StripParens(c), IsSpace)
  }

  /** The variant of a name with a parenthesised group in it, such as a
      scientific name with a common name in brackets, is the trimmed text
      before the group followed by the variant text after it; with nothing
      after the group, it is the trimmed text before it. */
  lemma VariantDropsGroup(a: string, g: string, b: string)
    requires '(' !in a
    requires forall k :: 0 <= k < |g| ==> g[k] != ')' && g[k] != '\n'
    ensures Variant(a + ("(" + g + ")" + b)) == Strip(a + StripParens(b), IsSpace)
    ensures b == [] ==> Variant(a + ("(" + g + ")" + b)) == Strip(a, IsSpace)
  {
    StripParensKeepsPlain(a, "(" + g + ")" + b);
    StripParensDropsGroup(g, b);
    if b == [] {
      assert a + StripParens(b) == a;
    }
  }

  /** The variant of "Ficus benghalensis (Banyan)" is "Ficus benghalensis". */
  lemma FicusVariant()
    ensures Variant("Ficus benghalensis (Banyan)") == "Ficus benghalensis"
  {
    var a := "Ficus benghalensis ";
    assert '(' !in a;
    assert a + ("(" + "Banyan" + ")" + "") == "Ficus benghalensis (Banyan)";
    VariantDropsGroup(a, "Banyan", "");
    StripDetermined([], "Ficus benghalensis", " ", IsSpace);
    assert [] + "Ficus benghalensis" + " " == a;
  }

  /** One step of the candidate loop: the variant of `c` is appended when it
      is non-empty and not yet a candidate. */
  function AddVariant(cs: seq<string>, c: string): seq<string> {
    var c2 := Variant(c);
    if c2 != "" && c2 !in cs then cs + [c2] else cs
  }

  /** The candidate loop run over `names`, in order. */
  function AddVariants(cs: seq<string>, names: seq<string>): seq<string> {
    if names == [] then cs
    else AddVariant(AddVariants(cs, names[..|names| - 1]), names[|names| - 1])
  }

  /** The names tried for a species icon, in order. */
  function SpeciesCandidates(scientific: string, common: string): seq<string> {
    AddVariants([scientific, common], [scientific, common])
  }

  /** The candidates are the scientific name, the common name, then the
      non-empty variants of the two, the scientific one first, each added
      only if it is not there already; no non-empty variant is missing. */
  lemma SpeciesCandidatesOrder(scientific: string, common: string)
    ensures var cs := SpeciesCandidates(scientific, common);
      && 2 <= |cs| <= 4 && cs[0] == scientific && cs[1] == common
      && (forall k :: 2 <= k < |cs| ==> cs[k] != "" && cs[k] !in cs[..k])
      && (forall k :: 2 <= k < |cs| ==> cs[k] == Variant(scientific) || cs[k] == Variant(common))
      && (|cs| == 4 ==> cs[2] == Variant(scientific) && cs[3] == Variant(common))
      && (Variant(scientific) != "" ==> Variant(scientific) in cs)
      && (Variant(common) != "" ==> Variant(common) in cs)
  {
    var names := [scientific, common];
    assert names[..1] == [scientific] && names[..0] == [];
    var cs1 := AddVariant(names, scientific);
    assert AddVariants(names, names[..1]) == cs1;
    var cs := AddVariant(cs1, common);
    assert SpeciesCandidates(scientific, common) == cs;
    assert cs1[..2] == names && cs[..|cs1|] == cs1;
  }

  /** A new non-empty variant of the scientific name is the third
      candidate. */
  lemma SpeciesCandidatesThird(scientific: string, common: string)
    requires Variant(scientific) != "" && Variant(scientific) != scientific && Variant(scientific) != common
    ensures 3 <= |SpeciesCandidates(scientific, common)|
    ensures SpeciesCandidates(scientific, common)[0] == scientific
    ensures SpeciesCandidates(scientific, common)[1] == common
    ensures SpeciesCandidates(scientific, common)[2] == Variant(scientific)
  {
    var names := [scientific, common];
    assert names[..1] == [scientific] && names[..0] == [];
    var cs1 := AddVariant(names, scientific);
    assert cs1 == [scientific, common, Variant(scientific)];
    assert AddVariants(names, names[..1]) == cs1;
    assert SpeciesCandidates(scientific, common) == AddVariant(cs1, common);
  }

  /** The parenthesis-stripped scientific name is tried when neither name
      matches as it is. */
  lemma SpeciesIconFallback(index: map<string, string>, scientific: string, common: string)
    requires NormKey(scientific) !in index && NormKey(common) !in index
    requires Variant(scientific) != "" && NormKey(Variant(scientific)) in index
    ensures FirstHit(index, SpeciesCandidates(scientific, common)) == Some(index[NormKey(Variant(scientific))])
  {
    SpeciesCandidatesThird(scientific, common);
    FirstHitThird(index, SpeciesCandidates(scientific, common));
  }

  /** Builds the candidate list by appending the variants of the two names,
      then returns the index entry of the first candidate whose key is
      present. */
  method PickSpeciesIcon(index: map<string, string>, scientific: string, common: string)
    returns (icon: Option<string>)
    ensures icon == FirstHit(index, SpeciesCandidates(scientific, common))
    ensures icon.Some? ==> icon.value in index.Values
  {
    var candidates := [scientific, common];
    var snapshot := candidates;
    for i := 0 to |snapshot|
      invariant candidates == AddVariants(snapshot, snapshot[..i])
    {
      assert snapshot[..i + 1][..i] == snapshot[..i];
      var c2 := Strip(StripParens(snapshot[i]), IsSpace);
      if c2 != "" && c2 !in candidates {
        candidates := candidates + [c2];
      }
    }
    assert snapshot[..|snapshot|] == snapshot;
    for k := 0 to |candidates|
      invariant FirstHit(index, candidates) == FirstHit(index, candidates[k..])
    {
      assert candidates[k..][0] == candidates[k] && candidates[k..][1..] == candidates[k + 1..];
      var key := NormKey(candidates[k]);
      if key in index {
        return Some(index[key]);
      }
    }
    assert candidates[|candidates|..] == [];
    return None;
  }

  // ---------------- leaf ----------------

  /** The phrases tried for a leaf icon, chosen by the category's lower-cased
      prefix and, for pinnately compound leaves, by the exact subtype. */
  function LeafKeys(toplevel: Option<string>, subtype: Option<string>): (r: seq<string>)
    ensures |r| <= 3
    ensures var t := Lower(toplevel.GetOr(""));
      r == [] <==> !StartsWith(t, "simple") && !StartsWith(t, "pinnately") && !StartsWith(t, "palmately")
  {
    var t := Lower(toplevel.GetOr(""));
    if StartsWith(t, "simple") then ["simple leaf", "simple"]
    else if StartsWith(t, "pinnately") then
      if subtype == Some("single") then ["single compound", "pinnately single", "pinnately compound single"]
      else if subtype == Some("double") then ["double compound", "pinnately double", "pinnately compound double"]
      else ["pinnately compound", "compound"]
    else if StartsWith(t, "palmately") then ["palmately compound", "palmate", "palmately"]
    else []
  }

  /** The leaf icon: the first phrase for the category whose key is in the
      leaf index; never anything for a category that starts with none of
      simple, pinnately, palmately. */
  function PickLeafIcon(index: map<string, string>, toplevel: Option<string>, subtype: Option<string>): (r: Option<string>)
    ensures r.Some? ==> r.value in index.Values
    ensures var t := Lower(toplevel.GetOr(""));
      !StartsWith(t, "simple") && !StartsWith(t, "pinnately") && !StartsWith(t, "palmately") ==> r == None
  {
    FirstHit(index, LeafKeys(toplevel, subtype))
  }

  // Each leaf phrase is a key already: one lemma per phrase keeps every
  // proof obligation small.

  lemma PhraseSimpleLeaf() ensures NormKey("simple leaf") == "simple leaf" {
    NormKeyFixesKeys("simple leaf");
  }

  lemma PhraseSimple() ensures NormKey("simple") == "simple" {
    NormKeyFixesKeys("simple");
  }

  lemma PhraseSingleCompound() ensures NormKey("single compound") == "single compound" {
    NormKeyFixesKeys("single compound");
  }

  lemma PhrasePinnatelySingle() ensures NormKey("pinnately single") == "pinnately single" {
    NormKeyFixesKeys("pinnately single");
  }

  lemma PhrasePinnatelyCompoundSingle() ensures NormKey("pinnately compound single") == "pinnately compound single" {
    NormKeyFixesKeys("pinnately compound single");
  }

  lemma PhraseDoubleCompound() ensures NormKey("double compound") == "double compound" {
    NormKeyFixesKeys("double compound");
  }

  lemma PhrasePinnatelyDouble() ensures NormKey("pinnately double") == "pinnately double" {
    NormKeyFixesKeys("pinnately double");
  }

  lemma PhrasePinnatelyCompoundDouble() ensures NormKey("pinnately compound double") == "pinnately compound double" {
    NormKeyFixesKeys("pinnately compound double");
  }

  lemma PhrasePinnatelyCompound() ensures NormKey("pinnately compound") == "pinnately compound" {
    NormKeyFixesKeys("pinnately compound");
  }

  lemma PhraseCompound() ensures NormKey("compound") == "compound" {
    NormKeyFixesKeys("compound");
  }

  lemma PhrasePalmatelyCompound() ensures NormKey("palmately compound") == "palmately compound" {
    NormKeyFixesKeys("palmately compound");
  }

  lemma PhrasePalmate() ensures NormKey("palmate") == "palmate" {
    NormKeyFixesKeys("palmate");
  }

  lemma PhrasePalmately() ensures NormKey("palmately") == "palmately" {
    NormKeyFixesKeys("palmately");
  }

  /** A simple leaf's icon is filed under "simple leaf", else "simple". */
  lemma PickLeafIconSimple(index: map<string, string>, toplevel: Option<string>, subtype: Option<string>)
    requires StartsWith(Lower(toplevel.GetOr("")), "simple")
    ensures PickLeafIcon(index, toplevel, subtype) == Lookup(index, ["simple leaf", "simple"])
  {
    PhraseSimpleLeaf();
    PhraseSimple();
    FirstHitOfTwoKeys(index, "simple leaf", "simple");
  }

  /** A pinnately compound leaf of subtype "single" tries the three
      single-compound phrases. */
  lemma PickLeafIconSingle(index: map<string, string>, toplevel: Option<string>)
    requires StartsWith(Lower(toplevel.GetOr("")), "pinnately")
    ensures PickLeafIcon(index, toplevel, Some("single"))
         == Lookup(index, ["single compound", "pinnately single", "pinnately compound single"])
  {
    PhraseSingleCompound();
    PhrasePinnatelySingle();
    PhrasePinnatelyCompoundSingle();
    FirstHitOfThreeKeys(index, "single compound", "pinnately single", "pinnately compound single");
  }

  /** A pinnately compound leaf of subtype "double" tries the three
      double-compound phrases. */
  lemma PickLeafIconDouble(index: map<string, string>, toplevel: Option<string>)
    requires StartsWith(Lower(toplevel.GetOr("")), "pinnately")
    ensures PickLeafIcon(index, toplevel, Some("double"))
         == Lookup(index, ["double compound", "pinnately double", "pinnately compound double"])
  {
    PhraseDoubleCompound();
    PhrasePinnatelyDouble();
    PhrasePinnatelyCompoundDouble();
    FirstHitOfThreeKeys(index, "double compound", "pinnately double", "pinnately compound double");
  }

  /** A pinnately compound leaf of any other subtype ("triple", or none)
      falls back to the generic phrases. */
  lemma PickLeafIconOtherSubtype(index: map<string, string>, toplevel: Option<string>, subtype: Option<string>)
    requires StartsWith(Lower(toplevel.GetOr("")), "pinnately")
    requires subtype != Some("single") && subtype != Some("double")
    ensures PickLeafIcon(index, toplevel, subtype) == Lookup(index, ["pinnately compound", "compound"])
  {
    PhrasePinnatelyCompound();
    PhraseCompound();
    FirstHitOfTwoKeys(index, "pinnately compound", "compound");
  }

  /** A palmately compound leaf tries the three palmate phrases. */
  lemma PickLeafIconPalmate(index: map<string, string>, toplevel: Option<string>, subtype: Option<string>)
    requires StartsWith(Lower(toplevel.GetOr("")), "palmately")
    ensures PickLeafIcon(index, toplevel, subtype) == Lookup(index, ["palmately compound", "palmate", "palmately"])
  {
    PhrasePalmatelyCompound();
    PhrasePalmate();
    PhrasePalmately();
    FirstHitOfThreeKeys(index, "palmately compound", "palmate", "palmately");
  }

  // ---------------- fruit ----------------

  /** The alias names tried after the direct lookup. */
  const FRUIT_ALIASES := ["pod", "capsule", "drupe", "other"]

  /** The alias loop: the entry of the first alias that equals the key and is
      in the index. */
  function AliasLookup(index: map<string, string>, key: string, aliases: seq<string>): (r: Option<string>)
    ensures r.Some? ==> key in index && r == Some(index[key])
  {
    if aliases == [] then None
    else if key == aliases[0] && aliases[0] in index then Some(index[aliases[0]])
    else AliasLookup(index, key, aliases[1..])
  }

  /** The fruit icon: nothing for an empty fruit type; otherwise the entry
      under the normalised fruit type, if any. The alias loop never changes
      the outcome. */
  function PickFruitIcon(index: map<string, string>, fruitType: string): (r: Option<string>)
    ensures r == if fruitType == "" then None
                 else if NormKey(fruitType) in index then Some(index[NormKey(fruitType)])
                 else None
  {
    if fruitType == "" then None
    else
      var key := NormKey(fruitType);
      if key in index then Some(index[key])
      else AliasLookup(index, key, FRUIT_ALIASES)
  }
}
