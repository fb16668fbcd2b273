# Plant species catalogue: data loading core in Dafny

This project models the data core of a small plant-species web application,
`app.py`. It does four things, and each is modelled here:

- **Icon indexes.** It scans three icon directories (species, leaf, fruit)
  into indexes keyed by a normalised file name.
- **Record building.** It reads the species spreadsheet. Each row that has a
  scientific name becomes one species record, with:
  - a URL slug as its id;
  - a leaf category and subtype parsed from free text;
  - the photos of that species;
  - a species, leaf and fruit icon, each the first candidate name found in
    its index.
- **Records by id.** It files the records by id, and a later record with the
  same id replaces an earlier one.
- **Filters.** It derives the filter options of the user interface: the leaf
  categories, the sorted distinct fruit types, and a chip icon for each.

Modules, one per concern of the source:

| module | file | models |
|---|---|---|
| `Keys` | `norm_key.dfy` | `_norm_key`: the canonical key form |
| `Slug` | `slug.dfy` | `slugify` |
| `LeafTaxonomy` | `leaf_taxonomy.dfy` | `_leaf_category_and_subtype` and `LEAF_TOPLEVEL`/`LEAF_SUBTYPES` |
| `IconIndex` | `icon_index.dfy` | `_build_icon_index`, with `os.path.splitext` and `ALLOWED_IMG_EXT` |
| `IconResolvers` | `icon_resolvers.dfy` | `_pick_species_icon`, `_pick_leaf_icon`, `_pick_fruit_icon` |
| `Photos` | `photos.dfy` | the photo step inside the row loop |
| `Catalogue` | `catalogue.dfy` | `load_and_process_data`: the row filter, the row loop, `records_dict` and the filters |
| `Strings`, `Chars` | `strings.dfy`, `chars.dfy` | the string operations used: `strip`, `lower`, `startswith`, `in`, and the regular-expression substitutions as run-collapsing and character filtering |
| `Seqs` | `seqs.dfy` | the two loop shapes used: a filtering list comprehension, and "assign in order, last wins" into a dict |
| `Ordering` | `ordering.dfy` | Python's string `<` and `sorted(set(...))` |
| `Wrappers` | `wrappers.dfy` | `Option`, which stands for Python's `None` |

The parts of the source that change state step by step are `method`s with
loop invariants. Each is proved equal to a specification function:

- `BuildIconIndex` fills its dict over a directory listing.
- `PickSpeciesIcon` grows its candidate list and then scans it.
- `ResolvePhotos` collects the photo paths.
- `LoadAndProcess` appends to the record list and assigns into the id map.

The pure parts (`_norm_key`, `slugify`, the leaf rules, the leaf and fruit
pickers, and the comprehensions after the loop) are functions. Lemmas about
all of these give the properties the application depends on.

`_norm_key` and `slugify` are the same four-step pipeline with different
character classes. Both are proved equal to one reference form,
`Strings.Canonical`: lower-case, replace the separator class by the joining
character, drop what is not kept, collapse runs of the joining character,
and trim the ends. The separator facts are proved once about that form, then
carried over to both. A run of separators between two words becomes exactly
one joining character, and which separators the run holds does not matter.

The environment is turned into inputs:

- A directory listing is a sequence of entries. `None` stands for a
  directory that does not exist.
- The spreadsheet is a sequence of rows, each a map from column name to
  cell. `None` stands for a missing workbook.
- The photo root's application-relative path is a parameter.

Three observations come out of the proofs:

- The alias loop of `_pick_fruit_icon` (app.py:137-139) never changes the
  result. It only runs when the normalised key is not in the index, and it
  only answers when that same key is in the index. `PickFruitIcon` states
  the resulting behaviour.
- The regular expressions of `_norm_key` and `slugify` are idempotent. A
  key or slug is a fixed point (`NormKeyFixesKeys`, `SlugifyFixesSlugs`).
- A species' photos are sorted before backslashes in their paths become
  slashes (app.py:167-170). So on a system where `\` is an ordinary file-name
  character, the photo list is guaranteed ascending when no name holds one
  (`PhotosSorted`). `BackslashBreaksOrder` gives a listing where the order
  breaks.

## Model

| member | source | states |
|---|---|---|
| Keys.NormKeyIsKey | app.py:40-47 | every normalised string uses only `a-z`, `0-9` and space, has no two spaces in a row and none at either end |
| Keys.NormKeyFixesKeys | app.py:43-47 | a string already in key form normalises to itself |
| Keys.NormKeyIdempotent | app.py:40-47 | normalising twice equals normalising once |
| Keys.NormKeyIgnoresCase | app.py:43 | `_norm_key` ignores case: a label and its lower-cased form have the same key |
| Keys.NormKeyAsCanonical | app.py:40-47 | `_norm_key` is the shared canonical form: lower-case, `_`/`-` become spaces, everything but letters, digits and spaces is dropped, whitespace runs become one space, and the ends are trimmed |
| Keys.NormKeySeparators | app.py:43-46 | labels that differ only in which space, `_` or `-` stands at some positions have the same key (`red sandalwood`, `red_sandalwood`, `red-sandalwood`) |
| Keys.NormKeyJoin | app.py:43-46 | a run of spaces, `_` and `-` between a letter or digit and a letter or digit becomes exactly one space: the key of `a + run + b` is the key of `a`, a space, and the key of `b` |
| Keys.NormKeyIgnoresOthers | app.py:45 | characters that are neither letters, digits nor separators are deleted wherever they stand |
| Keys.SandalwoodVariants | app.py:40-47 | `Red Sandalwood`, `red_sandalwood` and `RED-SANDALWOOD!!` have one key |
| Keys.NormKeyLettersAndDigits | app.py:43-46 | the key's letters and digits (everything but its spaces) are exactly those of the lower-cased label, in order |
| Slug.SlugifyIsSlug | app.py:70-77 | every slug uses only `a-z`, `0-9` and `-`, has no `--` and no `-` at either end |
| Slug.SlugifyFixesSlugs | app.py:73-77 | a string already in slug form is its own slug |
| Slug.SlugifyIdempotent | app.py:70-77 | slugifying twice equals slugifying once |
| Slug.SlugifyIgnoresCase | app.py:73 | a name and its lower-cased form have the same slug |
| Slug.SlugifyLettersAndDigits | app.py:73-76 | the slug's letters and digits (everything but its hyphens) are exactly those of the lower-cased name, in order |
| Slug.SlugifyAsCanonical | app.py:70-77 | `slugify` is the same canonical form with `-`: lower-case, spaces and `_` become `-`, everything but `a-z`, `0-9` and `-` is dropped, runs of `-` become one, and the ends are trimmed of `-` |
| Slug.SlugifySeparators | app.py:73-76 | names that differ only in which space, `_` or `-` stands at some positions have the same slug |
| Slug.SlugifyJoin | app.py:73-76 | a run of spaces, `_` and `-` between a letter or digit and a letter or digit becomes exactly one `-`: the slug of `a + run + b` is the slug of `a`, a `-`, and the slug of `b` |
| Slug.SantalumAlbum | app.py:70-77 | the slug of `Santalum album` is `santalum-album` |
| LeafTaxonomy.ClassifyLeaf | app.py:80-94 | the category is one of the three top-level categories or none; a subtype only comes with "Pinnately compound" and is single, double or triple |
| LeafTaxonomy.ClassifyLeafPriority | app.py:83-94 | the rules in priority order on the raw text, any case: "simple" gives (Simple, none); otherwise "pinnate" or "compound" gives Pinnately compound with the first parenthesised subtype tag; otherwise "palmate" gives (Palmately compound, none); otherwise (none, none) |
| LeafTaxonomy.SimpleTest | app.py:85 | `startswith('simple') or 'simple' in` on the trimmed lower-cased text is just "mentions simple" |
| LeafTaxonomy.PinnateWordTest | app.py:87 | `startswith('pinnately') or 'pinnate' in` is just "mentions pinnate" |
| LeafTaxonomy.CompoundTest | app.py:87 | "compound" occurs in the trimmed lower-cased text exactly when it occurs in the raw text, any case |
| LeafTaxonomy.PalmateTest | app.py:92 | `startswith('palmately') or 'palmate' in` is just "mentions palmate" |
| LeafTaxonomy.TagAt | app.py:88 | a match at a position is `(` + a subtype word in any case + `)`, and the words are tried in the alternation's order |
| LeafTaxonomy.FirstTagIsLeftmost | app.py:88-90 | `re.search` returns the tag at the leftmost position that holds one |
| LeafTaxonomy.FirstTagNone | app.py:88-90 | the search finds nothing exactly when no position holds a tag |
| LeafTaxonomy.LeftmostTag | app.py:88-90 | a text with a tag somewhere has a leftmost tag, at or before it |
| IconIndex.SplitExt | app.py:57-60 | base + extension is the file name; the extension is empty or a single `.` segment; a name whose only dots lead it has no extension; a last dot with another character before it starts the extension |
| IconIndex.SplitExtFindsExtension | app.py:57-60 | a name with a last dot that has some other character before it splits at that dot: the extension runs from it to the end |
| IconIndex.ForwardSlashes | app.py:61 | `replace('\\', '/')` turns each backslash into `/`, keeps the length and changes no other character, so none is left |
| IconIndex.BuildIconIndex | app.py:49-62 | the loop builds exactly the last-wins index of the image files; a missing directory gives an empty index; every key is in key form |
| IconIndex.IconIndexKeys | app.py:51-61 | a key is indexed exactly when the directory exists and some image file of the listing normalises to it |
| IconIndex.IconIndexLastWins | app.py:53-61 | a key maps to the path of the last image file with that key, backslashes turned into slashes |
| IconIndex.IconIndexValues | app.py:53-61 | every indexed path is that of the last image file with its key, backslashes turned into slashes |
| IconResolvers.FirstHit | app.py:103-107 | the scan returns an index entry, and returns nothing exactly when no candidate's key is indexed |
| IconResolvers.FirstHitIsFirst | app.py:103-106 | the scan returns the entry of the first candidate whose key is indexed |
| IconResolvers.StripParens | app.py:100 | the substitution never lengthens a name, and leaves a name without `(`, or without `)`, unchanged |
| IconResolvers.StripParensLeavesNoGroup | app.py:100 | every group is deleted: in the result no `(` has a `)` after it on the same line |
| IconResolvers.StripParensKeepsLines | app.py:100 | every line break of the name survives the substitution, because a group never spans one |
| IconResolvers.CloseParen | app.py:100 | the lazy `.*?\)` finds the first `)` before any line break; when it finds none, a line break comes before every `)` |
| IconResolvers.StripParensKeepsPlain | app.py:100 | text before the first `(` passes through the substitution unchanged |
| IconResolvers.StripParensDropsGroup | app.py:100 | a group `(`…`)` with no `)` or line break inside is deleted whole, and the substitution goes on after it |
| IconResolvers.Variant | app.py:100 | the variant is trimmed and never longer than the name; a name without `(`, or without `)`, is only trimmed |
| IconResolvers.VariantDropsGroup | app.py:100 | the variant of `a (g) b`, with `a` free of `(`, is `a` followed by `b` with its groups removed, trimmed; with nothing after the group it is `a` trimmed |
| IconResolvers.FicusVariant | app.py:100 | the variant of `Ficus benghalensis (Banyan)` is `Ficus benghalensis` |
| IconResolvers.SpeciesCandidatesOrder | app.py:98-102 | candidates are the scientific name, the common name, then the new non-empty parenthesis-free variants of each in that order, without duplicates |
| IconResolvers.SpeciesIconFallback | app.py:98-106 | when neither name is indexed, the parenthesis-free scientific name is tried next |
| IconResolvers.PickSpeciesIcon | app.py:97-107 | the two loops return the first candidate hit, an entry of the species index |
| IconResolvers.LeafKeys | app.py:111-123 | at most three phrases, and none exactly when the lower-cased category starts with none of simple, pinnately, palmately |
| IconResolvers.PickLeafIcon | app.py:110-128 | the result is an index entry, and a category starting with none of simple, pinnately, palmately gives none |
| IconResolvers.PickLeafIconSimple | app.py:111-112 | a simple leaf looks up "simple leaf", then "simple" |
| IconResolvers.PickLeafIconSingle | app.py:113-115 | a pinnate leaf of subtype single looks up its three single-compound phrases in order |
| IconResolvers.PickLeafIconDouble | app.py:116-117 | a pinnate leaf of subtype double looks up its three double-compound phrases in order |
| IconResolvers.PickLeafIconOtherSubtype | app.py:118-119 | any other pinnate subtype looks up "pinnately compound", then "compound" |
| IconResolvers.PickLeafIconPalmate | app.py:120-121 | a palmate leaf looks up its three palmate phrases in order |
| IconResolvers.FirstHitOfKeys | app.py:124-127 | for phrases already in key form, normalising before the lookup changes nothing |
| IconResolvers.AliasLookup | app.py:137-139 | the alias loop only answers with the entry of the key itself |
| IconResolvers.PickFruitIcon | app.py:131-140 | an empty fruit type gives none; otherwise the entry of its normalised key if indexed, else none |
| Photos.GlobSortedSpec | app.py:167 | `sorted(glob('*'))` yields the visible names of the listing (no leading dot), each once, in ascending order |
| Photos.ResolvePhotos | app.py:164-170 | the loop keeps the sorted visible entries with an image extension, as paths under the species' photo directory with backslashes turned into slashes |
| Photos.PhotosSorted | app.py:167-170 | a species' photos are in strictly ascending order when no path holds a backslash |
| Photos.BackslashBreaksOrder | app.py:167-170 | the listing `[.png`, `\.png` gives photos out of ascending order: the names sort one way, the paths after the replacement the other |
| Photos.PhotosFromListing | app.py:164-170 | a path is a photo exactly when it is the photo directory plus a visible image entry of its listing, backslashes turned into slashes |
| Catalogue.HasScientificName | app.py:153 | a row is kept exactly when its scientific-name cell is present, not empty, and its trimmed text (the record's scientific name) is not blank |
| Catalogue.Cleaned | app.py:157-192 | `str(row.get(col, '')).strip()` is trimmed; a missing column gives the empty string, an empty cell gives `nan`, a trimmed text is itself |
| Catalogue.BuildRecord | app.py:157-195 | the loop body builds the record of its row: trimmed fields, slug id, leaf class, photos and the three icons |
| Catalogue.LoadAndProcess | app.py:143-211 | the record list is the records of the kept rows in sheet order; the id map is the last-wins map of the list; the filters are derived from the list |
| Catalogue.RecordListFollowsRows | app.py:153-196 | one record per row with a scientific name, the k-th record from the k-th such row |
| Catalogue.RecordOfKeptRow | app.py:153-159 | a kept row's record has a trimmed non-blank scientific name, an id that is its slug, and photos in ascending order when no photo path holds a backslash |
| Catalogue.RecordListFields | app.py:153-196 | every listed record has a non-blank scientific name and a slug id, and ascending photos when no photo path holds a backslash |
| Catalogue.ByIdKeys | app.py:197 | an id is in the map exactly when some record carries it |
| Catalogue.ByIdLastWins | app.py:197 | of the records sharing an id, the map holds the last |
| Catalogue.ByIdFromLast | app.py:197 | every mapped record is the last record with its id |
| Catalogue.FruitTypesSpec | app.py:199 | fruit types are strictly ascending, hence distinct, and are exactly the records' non-blank trimmed fruit types |
| Catalogue.FiltersOfSpec | app.py:199-210 | the filters hold the fixed leaf categories and subtypes, the fruit types ascending without repeats, a leaf chip for each category and a fruit chip for each fruit type, every chip icon an entry of its index |
| Catalogue.LeafChipIcons | app.py:201 | one chip per top-level category, each the first of its generic phrases found in the leaf index |
| Ordering.SortDistinctSpec | app.py:199 | `sorted(set(xs))` is strictly ascending and holds exactly the elements of `xs` |
| Ordering.SortedUnique | app.py:199 | only one sequence is strictly ascending with a given set of elements |
| Ordering.StrLessIrreflexive | app.py:199 | no string sorts before itself |
| Ordering.StrLessPrefix | app.py:199 | a proper prefix sorts before the string it begins |
| Ordering.StrLessTransitive | app.py:199 | Python's string order is transitive |
| Ordering.StrLessTotal | app.py:199 | Python's string order relates any two different strings |
| Ordering.StrLessCommonPrefix | app.py:167 | paths in one directory sort as their entry names |
| Strings.Strip | app.py:43 | `strip()` leaves no whitespace at either end, never lengthens, and leaves a trimmed string alone |
| Strings.StripSlice | app.py:43 | what `strip()` keeps is one slice of the input, and all it cuts off on either side is whitespace |
| Strings.SubRunsSpec | app.py:44 | after `re.sub('[P]+', c, s)` every class character is `c`, a string starting outside the class keeps its first character, and with `c` in the class no two class characters are neighbours |
| Strings.SubRunsNone | app.py:44 | a string with no class character is left unchanged |
| Strings.SubRunsRun | app.py:44 | a whole non-empty run of the class becomes the single character `c` |
| Strings.SubRunsAppend | app.py:44 | the substitution works piece by piece across a cut that is not inside a run |
| Strings.SubRunsSplit | app.py:44 | a maximal run between two pieces becomes exactly one `c`: `a + run + b` gives the result of `a`, then `c`, then the result of `b` |
| Strings.ReplaceThenCollapse | app.py:44-46 | collapsing runs of a class to `c` before the later steps gives the same result as replacing each class character by `c` |
| Strings.StripJoin | app.py:46 | `strip()` of a string whose middle piece is bounded by non-whitespace trims only the outer pieces |
| Strings.CanonicalAgree | app.py:43-46 | strings that differ only among separator characters have the same canonical form |
| Strings.CanonicalJoin | app.py:43-46 | a separator run between a letter or digit and a letter or digit becomes exactly one joining character in the canonical form |
| Strings.CanonicalIgnores | app.py:45 | characters neither replaced nor kept are deleted wherever they stand |
| Strings.KeepSpec | app.py:45 | `re.sub('[^P]', '', s)` keeps only class characters, and keeps a string made of them whole |

## Left out

- The web routes `/`, `/api/species` and `/api/species/<rec_id>` (app.py:217-232) only serialise what the loader built. They are not part of this model.
- Reading the workbook with pandas is not modelled. Cells are given as text or missing. Numeric cells, whose text pandas formats itself (`3.0`), are outside the model. A missing cell reads as `nan`; a missing column reads as empty.
- The `sr_no` field is not modelled. Its value passes through with a type that depends on the spreadsheet.
- Filesystem probing (`isdir`, `isfile`, `listdir`, `glob`, `relpath`) and the choice of `PHOTO_ROOT` between `static/photos` and `static/Photos` are not modelled. Listings and the photo root path are inputs. A photo directory's listing is a set of distinct names.
- PhotosSorted: promises ascending photo paths only when no path holds a backslash. The source sorts the paths before it turns backslashes into slashes (app.py:167-170), and a slash sorts lower than a backslash, so a name holding a backslash can break the order.
- RecordOfKeptRow: promises ascending photos under the same no-backslash condition, for the same reason.
- RecordListFields: promises ascending photos under the same no-backslash condition, for the same reason.
- `lru_cache` on `slugify` has no observable effect and is not modelled.
- Python's `str.lower`, `str.strip`, regex `\s` and `re.IGNORECASE` are modelled on ASCII only. Whitespace is space, `\t`-`\r` and `\x1c`-`\x1f`. Non-ASCII letters and spaces are outside the model.
- The `isinstance` branches of `_norm_key`, `slugify` and `_leaf_category_and_subtype` are not modelled. They convert or reject non-string input, and every caller in the core passes strings.
- The row filter the sheet goes through before the loop (app.py:153) is applied inside the loop of `LoadAndProcess`, as a skip. The records and the map it produces are the same.
