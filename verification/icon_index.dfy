/**
 * The icon indexer `_build_icon_index`: one directory listing of image files
 * becomes a map from the normalised file name (without extension) to the
 * file's application-relative path.
 */
module IconIndex {
  import opened Wrappers
  import opened Strings
  import opened Keys
  import opened Seqs

  /** One entry of a directory listing: its name and whether it is a regular
      file (and not, say, a sub-directory). */
  datatype Entry = Entry(name: string, isFile: bool)

  /** `ALLOWED_IMG_EXT`. */
  const ALLOWED_IMG_EXT: set<string> := {".jpg", ".jpeg", ".png", ".webp", ".gif", ".bmp"}

  /** The position of the last `.` in `s`, if there is one. */
  function LastDot(s: string): (r: Option<nat>)
    ensures r.Some? ==> r.value < |s| && s[r.value] == '.' && forall k :: r.value < k < |s| ==> s[k] != '.'
    ensures r.None? ==> forall k :: 0 <= k < |s| ==> s[k] != '.'
  {
    if s == [] then None
    else if s[|s| - 1] == '.' then Some(|s| - 1)
    else LastDot(s[..|s| - 1])
  }

  /**
   * `os.path.splitext` on a file name: the extension runs from the last `.`
   * to the end, unless everything before that dot is dots too (`.png` has no
   * extension).
   */
  function SplitExt(name: string): (r: (string, string))
    ensures r.0 + r.1 == name
    ensures r.1 == [] || (r.1[0] == '.' && forall k :: 0 < k < |r.1| ==> r.1[k] != '.')
    ensures r.1 != [] ==> exists k :: 0 <= k < |r.0| && r.0[k] != '.'
    ensures LastDot(name).Some? && (exists k :: 0 <= k < LastDot(name).value && name[k] != '.') ==>
      r.1 == name[LastDot(name).value..]
  {
    match LastDot(name)
    case None => (name, "")
    case Some(d) =>
      if exists k :: 0 <= k < d && name[k] != '.' then (name[..d], name[d..]) else (name, "")
  }

  /** A name with a dot at position `d`, a character other than `.` before
      it and no dot after it has the extension `name[d..]`. */
  lemma SplitExtFindsExtension(name: string, d: nat, k: nat)
    requires d < |name| && name[d] == '.'
    requires forall j :: d < j < |name| ==> name[j] != '.'
    requires k < d && name[k] != '.'
    ensures SplitExt(name) == (name[..d], name[d..])
  {
    assert LastDot(name).Some?;
    assert LastDot(name).value == d;
  }

  /** `s` holds no backslash. */
  predicate NoBackslash(s: string) {
    forall i :: 0 <= i < |s| ==> s[i] != '\\'
  }

  /** `str.replace('\\', '/')` on a path: every backslash becomes a slash
      and nothing else changes. */
  function ForwardSlashes(path: string): (r: string)
    ensures |r| == |path| && NoBackslash(r)
    ensures forall i :: 0 <= i < |path| && path[i] != '\\' ==> r[i] == path[i]
    ensures forall i :: 0 <= i < |path| && path[i] == '\\' ==> r[i] == '/'
  {
    seq(|path|, i requires 0 <= i < |path| => if path[i] == '\\' then '/' else path[i])
  }

  /** A path without backslashes is left as it is. */
  lemma ForwardSlashesFixes(path: string)
    requires NoBackslash(path)
    ensures ForwardSlashes(path) == path
  {
  }

  /** The lower-cased extension is one of the allowed image extensions. */
  predicate IsImage(name: string) {
    Lower(SplitExt(name).1) in ALLOWED_IMG_EXT
  }

  /** A listing entry the indexer keeps: a file with an image extension. */
  predicate Indexed(e: Entry) {
    e.isFile && IsImage(e.name)
  }

  /** The key an entry is filed under: its normalised base name. */
  function EntryKey(e: Entry): string {
    NormKey(SplitExt(e.name).0)
  }

  /** The path stored for an entry: the directory's path prefix (ending in
      `/`) followed by the file name, with backslashes turned into slashes. */
  function EntryPath(prefix: string): Entry -> string {
    (e: Entry) => ForwardSlashes(prefix + e.name)
  }

  /** The index of a directory listing; `None` stands for a directory that
      does not exist. */
  function IconIndexOf(listing: Option<seq<Entry>>, prefix: string): map<string, string> {
    match listing
    case None => map[]
    case Some(es) => Assoc(es, Indexed, EntryKey, EntryPath(prefix))
  }

  /** Builds the index by walking the listing in order, skipping what is not
      an image file and overwriting on a repeated key. */
  method BuildIconIndex(listing: Option<seq<Entry>>, prefix: string) returns (out: map<string, string>)
    ensures out == IconIndexOf(listing, prefix)
    ensures listing.None? ==> out == map[]
    ensures forall k :: k in out ==> IsKey(k)
  {
    out := map[];
    if listing.None? {
      return;
    }
    var es := listing.value;
    for i := 0 to |es|
      invariant out == Assoc(es[..i], Indexed, EntryKey, EntryPath(prefix))
      invariant forall k :: k in out ==> IsKey(k)
    {
      assert es[..i + 1][..i] == es[..i];
      var e := es[i];
      if !e.isFile {
        continue;
      }
      var (base, ext) := SplitExt(e.name);
      if Lower(ext) !in ALLOWED_IMG_EXT {
        continue;
      }
      NormKeyIsKey(base);
      out := out[NormKey(base) := ForwardSlashes(prefix + e.name)];
    }
    assert es[..|es|] == es;
  }

  /** A key is in the index exactly when the directory exists and some image
      file of the listing normalises to it. */
  lemma IconIndexKeys(listing: Option<seq<Entry>>, prefix: string, k: string)
    ensures k in IconIndexOf(listing, prefix) <==>
      listing.Some? && exists i :: 0 <= i < |listing.value| && Indexed(listing.value[i]) && EntryKey(listing.value[i]) == k
  {
    if listing.Some? {
      AssocKeys(listing.value, Indexed, EntryKey, EntryPath(prefix), k);
    }
  }

  /** For each key, the index holds the path of the last image file of the
      listing with that key. */
  lemma IconIndexLastWins(es: seq<Entry>, prefix: string, i: nat)
    requires i < |es| && Indexed(es[i])
    requires forall j :: i < j < |es| && Indexed(es[j]) ==> EntryKey(es[j]) != EntryKey(es[i])
    ensures EntryKey(es[i]) in IconIndexOf(Some(es), prefix)
    ensures IconIndexOf(Some(es), prefix)[EntryKey(es[i])] == ForwardSlashes(prefix + es[i].name)
  {
    AssocLastWins(es, Indexed, EntryKey, EntryPath(prefix), i);
  }

  /** Every path in the index is that of the last image file of the listing
      whose key it is filed under. */
  lemma IconIndexValues(es: seq<Entry>, prefix: string, k: string) returns (i: nat)
    requires k in IconIndexOf(Some(es), prefix)
    ensures i < |es| && Indexed(es[i]) && EntryKey(es[i]) == k
    ensures forall j :: i < j < |es| && Indexed(es[j]) ==> EntryKey(es[j]) != k
    ensures IconIndexOf(Some(es), prefix)[k] == ForwardSlashes(prefix + es[i].name)
  {
    i := AssocFromLast(es, Indexed, EntryKey, EntryPath(prefix), k);
  }
}
