/**
 * The photo step of the loader: the image files of a species' photo
 * directory, as application-relative paths in ascending order.
 */
module Photos {
  import opened Wrappers
  import opened Seqs
  import opened Ordering
  import opened IconIndex
  import opened Strings

  /** The application-relative path of a species' photo directory, ending in
      `/`; `root` is that of the photo root (such as `/static/photos/`). An
      empty id joins to the root itself. */
  function PhotoDir(root: string, id: string): string {
    if id == "" then root else root + id + "/"
  }

  /** A name the pattern `*` matches: names beginning with a dot are hidden
      from it. */
  predicate Visible(name: string) {
    !(|name| > 0 && name[0] == '.')
  }

  function Name(name: string): string {
    name
  }

  /** The path of an entry of directory `dir`, with backslashes turned into
      slashes. */
  function Under(dir: string): string -> string {
    (name: string) => ForwardSlashes(dir + name)
  }

  /** No name of the listing holds a backslash. */
  predicate PlainListing(listing: seq<string>) {
    forall x :: x in listing ==> NoBackslash(x)
  }

  /** The names of `sorted(glob(dir + '*'))`: the visible entries of the
      directory in ascending order (paths in one directory sort as their
      names, by `StrLessCommonPrefix`; a directory lists each name once). */
  function GlobSorted(listing: seq<string>): seq<string> {
    SortDistinct(FilterMap(listing, Visible, Name))
  }

  /** `glob` yields the visible names of the listing, each once, in
      ascending order. */
  lemma GlobSortedSpec(listing: seq<string>, x: string)
    ensures StrictlySorted(GlobSorted(listing))
    ensures x in GlobSorted(listing) <==> x in listing && Visible(x)
  {
    var visible := FilterMap(listing, Visible, Name);
    SortDistinctSpec(visible);
    FilterMapElems(listing, Visible, Name, x);
    assert x in GlobSorted(listing) <==> x in Elems(GlobSorted(listing));
    assert x in visible <==> x in Elems(visible);
    if x in listing && Visible(x) {
      var i :| 0 <= i < |listing| && listing[i] == x;
    }
  }

  /** The photo paths of species `id`; `listing` is `None` when its photo
      directory does not exist. */
  function PhotoPaths(listing: Option<seq<string>>, root: string, id: string): seq<string> {
    match listing
    case None => []
    case Some(names) => FilterMap(GlobSorted(names), IsImage, Under(PhotoDir(root, id)))
  }

  /** Walks the sorted directory entries and keeps those whose lower-cased
      extension is an allowed image extension. */
  method ResolvePhotos(listing: Option<seq<string>>, root: string, id: string) returns (photos: seq<string>)
    ensures photos == PhotoPaths(listing, root, id)
  {
    photos := [];
    if listing.None? {
      return;
    }
    var dir := PhotoDir(root, id);
    var paths := GlobSorted(listing.value);
    for i := 0 to |paths|
      invariant photos == FilterMap(paths[..i], IsImage, Under(dir))
    {
      assert paths[..i + 1][..i] == paths[..i];
      if IsImage(paths[i]) {
        photos := photos + [ForwardSlashes(dir + paths[i])];
      }
    }
    assert paths[..|paths|] == paths;
  }

  /** The photos of a species come in strictly ascending order when no path
      holds a backslash. (The paths are sorted before backslashes become
      slashes, and a slash sorts lower than a backslash.) */
  lemma PhotosSorted(listing: seq<string>, root: string, id: string)
    requires NoBackslash(root) && NoBackslash(id) && PlainListing(listing)
    ensures StrictlySorted(PhotoPaths(Some(listing), root, id))
  {
    var names := GlobSorted(listing);
    var dir := PhotoDir(root, id);
    var visible := FilterMap(listing, Visible, Name);
    SortDistinctSpec(visible);
    FilterMapFollowsKept(names, IsImage, Under(dir));
    var ks := Kept(names, IsImage);
    var ps := PhotoPaths(Some(listing), root, id);
    PlainDir(root, id);
    forall k, l | 0 <= k < l < |ps| ensures StrLess(ps[k], ps[l]) {
      var a, b := names[ks[k]], names[ks[l]];
      PlainName(listing, a);
      PlainName(listing, b);
      assert ps[k] == Under(dir)(a) && ps[l] == Under(dir)(b);
      PlainPathsOrder(dir, a, b);
    }
  }

  /** The photo directory of a plain root and id holds no backslash. */
  lemma PlainDir(root: string, id: string)
    requires NoBackslash(root) && NoBackslash(id)
    ensures NoBackslash(PhotoDir(root, id))
  {
    if id != "" {
      var d := root + id + "/";
      assert forall i :: 0 <= i < |d| ==> d[i] == (if i < |root| then root[i] else if i < |root| + |id| then id[i - |root|] else '/');
    }
  }

  /** Paths in one plain directory sort as the plain names of its entries. */
  lemma PlainPathsOrder(dir: string, a: string, b: string)
    requires NoBackslash(dir) && NoBackslash(a) && NoBackslash(b) && StrLess(a, b)
    ensures StrLess(Under(dir)(a), Under(dir)(b))
  {
    assert NoBackslash(dir + a) by {
      assert forall i :: 0 <= i < |dir + a| ==> (dir + a)[i] == (if i < |dir| then dir[i] else a[i - |dir|]);
    }
    assert NoBackslash(dir + b) by {
      assert forall i :: 0 <= i < |dir + b| ==> (dir + b)[i] == (if i < |dir| then dir[i] else b[i - |dir|]);
    }
    ForwardSlashesFixes(dir + a);
    ForwardSlashesFixes(dir + b);
    StrLessCommonPrefix(dir, a, b);
  }

  /** Every name `glob` yields from a listing without backslashes holds
      none. */
  lemma PlainName(listing: seq<string>, x: string)
    requires PlainListing(listing) && x in GlobSorted(listing)
    ensures NoBackslash(x)
  {
    var visible := FilterMap(listing, Visible, Name);
    SortDistinctSpec(visible);
    assert x in Elems(visible);
    FilterMapElems(listing, Visible, Name, x);
  }

  /** A path is a photo of the species exactly when it is the photo
      directory's path followed by a visible entry of the listing with an
      image extension, backslashes turned into slashes. */
  lemma PhotosFromListing(listing: seq<string>, root: string, id: string, p: string)
    ensures p in PhotoPaths(Some(listing), root, id) <==>
      exists i :: 0 <= i < |listing| && Visible(listing[i]) && IsImage(listing[i]) && p == ForwardSlashes(PhotoDir(root, id) + listing[i])
  {
    var names := GlobSorted(listing);
    var dir := PhotoDir(root, id);
    var visible := FilterMap(listing, Visible, Name);
    SortDistinctSpec(visible);
    FilterMapElems(names, IsImage, Under(dir), p);
    if p in PhotoPaths(Some(listing), root, id) {
      var j :| 0 <= j < |names| && IsImage(names[j]) && ForwardSlashes(dir + names[j]) == p;
      assert names[j] in Elems(visible);
      FilterMapElems(listing, Visible, Name, names[j]);
    }
    if exists i :: 0 <= i < |listing| && Visible(listing[i]) && IsImage(listing[i]) && p == ForwardSlashes(dir + listing[i]) {
      var i :| 0 <= i < |listing| && Visible(listing[i]) && IsImage(listing[i]) && p == ForwardSlashes(dir + listing[i]);
      FilterMapElems(listing, Visible, Name, listing[i]);
      assert listing[i] in Elems(names);
    }
  }

  /** A five-character name ending in `.png` whose first character is not
      a dot is an image. */
  lemma PngIsImage(name: string)
    requires |name| == 5 && name[0] != '.' && name[1..] == ".png"
    ensures IsImage(name)
  {
    SplitExtFindsExtension(name, 1, 0);
    assert Lower(".png") == ".png";
  }

  /** `glob` lists the two names of the example in this order. */
  lemma GlobOfExample()
    ensures GlobSorted(["[.png", "\\.png"]) == ["[.png", "\\.png"]
  {
    var listing := ["[.png", "\\.png"];
    assert FilterMap(listing, Visible, Name) == listing;
    assert listing[..1] == ["[.png"] && ["[.png"][..0] == [];
    assert SortDistinct(["[.png"]) == ["[.png"];
    assert !StrLess(listing[1], listing[0]);
  }

  /** Two image names both become photos, in order. */
  lemma TwoImages(a: string, b: string, dir: string)
    requires IsImage(a) && IsImage(b)
    ensures FilterMap([a, b], IsImage, Under(dir)) == [Under(dir)(a), Under(dir)(b)]
  {
    var f := Under(dir);
    assert [a, b][..1] == [a] && [a][..0] == [];
    assert FilterMap([a], IsImage, f) == [f(a)];
    assert FilterMap([a, b], IsImage, f) == FilterMap([a], IsImage, f) + [f(b)];
  }

  /** The two example paths after the replacement: the second one's
      backslash has become a slash, which sorts lower than `[`. */
  lemma ExamplePaths(dir: string)
    requires dir == "/p/"
    ensures !StrLess(Under(dir)("[.png"), Under(dir)("\\.png"))
  {
    var p0, p1 := Under(dir)("[.png"), Under(dir)("\\.png");
    assert p0[3] == '[' && p1[3] == '/';
    assert p0[..3] == p1[..3] == dir;
    assert p0 == dir + p0[3..] && p1 == dir + p1[3..];
    StrLessCommonPrefix(dir, p0[3..], p1[3..]);
  }

  /** With a backslash in a name the order can break: `[.png` sorts before
      `\\.png`, but after the replacement `/.png` sorts before `[.png`. */
  lemma BackslashBreaksOrder()
    ensures !StrictlySorted(PhotoPaths(Some(["[.png", "\\.png"]), "/p/", ""))
  {
    var listing := ["[.png", "\\.png"];
    GlobOfExample();
    PngIsImage(listing[0]);
    PngIsImage(listing[1]);
    var dir := PhotoDir("/p/", "");
    TwoImages(listing[0], listing[1], dir);
    ExamplePaths(dir);
    var ps := PhotoPaths(Some(listing), "/p/", "");
    assert !StrLess(ps[0], ps[1]);
  }
}
