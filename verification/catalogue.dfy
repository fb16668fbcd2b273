/**
 * The loader `load_and_process_data`: the species sheet becomes the list of
 * species records, the records by id, and the filter options of the user
 * interface.
 */
module Catalogue {
  import opened Wrappers
  import opened Chars
  import opened Strings
  import opened Slug
  import opened LeafTaxonomy
  import opened IconResolvers
  import opened Seqs
  import opened Ordering
  import opened Photos
  import opened IconIndex

  /** One cell of the sheet: text, or an empty (NaN) cell. */
  datatype Cell = Text(text: string) | Missing

  /** One row of the sheet, by column name; a column the sheet lacks is
      absent. */
  type Row = map<string, Cell>

  /** `str(row.get(column, ''))`: a missing column was filled with `''`, and an
      empty cell reads as `nan`. */
  function Field(row: Row, column: string): string {
    if column !in row then ""
    else match row[column]
      case Text(t) => t
      case Missing => "nan"
  }

  /** The trimmed text of a column: empty for a column the sheet lacks,
      `nan` for an empty cell, the trimmed text otherwise. */
  function Cleaned(row: Row, column: string): (r: string)
    ensures Trimmed(r, IsSpace)
    ensures column !in row ==> r == ""
    ensures column in row && row[column].Missing? ==> r == "nan"
    ensures column in row && row[column].Text? && Trimmed(row[column].text, IsSpace) ==> r == row[column].text
  {
    Strip(Field(row, column), IsSpace)
  }

  /** The row filter: the scientific name is present and not blank. The
      trimmed cell it tests is the scientific name the record gets. */
  predicate HasScientificName(row: Row)
    ensures HasScientificName(row) <==>
      "Scientific name" in row && row["Scientific name"].Text? && Cleaned(row, "Scientific name") != ""
  {
    "Scientific name" in row && row["Scientific name"].Text? &&
    Strip(row["Scientific name"].text, IsSpace) != ""
  }

  datatype Icons = Icons(species: Option<string>, leaf: Option<string>, fruit: Option<string>)

  datatype SpeciesRecord = SpeciesRecord(
    id: string,
    scientificName: string,
    etymology: string,
    commonName: string,
    habitat: string,
    phenology: string,
    identification: string,
    leafTypeRaw: string,
    leafCategory: Option<string>,
    leafSubtype: Option<string>,
    fruitType: string,
    seedGermination: string,
    pest: string,
    photos: seq<string>,
    icons: Icons)

  /** What the loader finds on disk: the three icon indexes, the listing of
      each existing photo directory by species id, and the path of the photo
      root. */
  datatype Assets = Assets(
    speciesIcons: map<string, string>,
    leafIcons: map<string, string>,
    fruitIcons: map<string, string>,
    photoListings: map<string, seq<string>>,
    photoRoot: string)

  /** No path the photo step reads holds a backslash: neither the photo root
      nor any name in a photo directory. */
  predicate PlainPhotoPaths(assets: Assets) {
    NoBackslash(assets.photoRoot) &&
    forall id :: id in assets.photoListings ==> PlainListing(assets.photoListings[id])
  }

  function PhotoListing(assets: Assets, id: string): Option<seq<string>> {
    if id in assets.photoListings then Some(assets.photoListings[id]) else None
  }

  /** The record the loop body builds from one kept row. */
  function RecordOf(assets: Assets, row: Row): SpeciesRecord {
    var sci := Cleaned(row, "Scientific name");
    var com := Cleaned(row, "Common name");
    var id := Slugify(sci);
    var leafRaw := Cleaned(row, "Leaf type");
    var leaf := ClassifyLeaf(leafRaw);
    var fruitRaw := Cleaned(row, "Fruit Type");
    SpeciesRecord(
      id, sci, Cleaned(row, "Etymology"), com, Cleaned(row, "Habitat"),
      Cleaned(row, "Phenology"), Cleaned(row, "Identification Characters"),
      leafRaw, leaf.category, leaf.subtype, fruitRaw,
      Cleaned(row, "Seed Germination"), Cleaned(row, "Pest"),
      PhotoPaths(PhotoListing(assets, id), assets.photoRoot, id),
      Icons(
        FirstHit(assets.speciesIcons, SpeciesCandidates(sci, com)),
        PickLeafIcon(assets.leafIcons, leaf.category, leaf.subtype),
        PickFruitIcon(assets.fruitIcons, fruitRaw)))
  }

  function BuildWith(assets: Assets): Row -> SpeciesRecord {
    (row: Row) => RecordOf(assets, row)
  }

  /** The rows of the sheet; a missing workbook reads as a sheet with no rows. */
  function SheetRows(source: Option<seq<Row>>): seq<Row> {
    source.GetOr([])
  }

  /** `records_list`: one record per kept row, in sheet order. */
  function RecordList(rows: seq<Row>, assets: Assets): seq<SpeciesRecord> {
    FilterMap(rows, HasScientificName, BuildWith(assets))
  }

  predicate Always(r: SpeciesRecord) {
    true
  }

  function RecordId(r: SpeciesRecord): string {
    r.id
  }

  function Self(r: SpeciesRecord): SpeciesRecord {
    r
  }

  /** `records_dict`: `records_dict[rec_id] = rec` for every record in order. */
  function ById(records: seq<SpeciesRecord>): map<string, SpeciesRecord> {
    Assoc(records, Always, RecordId, Self)
  }

  function FruitKey(r: SpeciesRecord): string {
    Strip(r.fruitType, IsSpace)
  }

  predicate HasFruitType(r: SpeciesRecord) {
    FruitKey(r) != ""
  }

  /** `fruit_types`: the sorted set of the records' non-blank fruit types. */
  function FruitTypes(records: seq<SpeciesRecord>): seq<string> {
    SortDistinct(FilterMap(records, HasFruitType, FruitKey))
  }

  datatype Filters = Filters(
    leafToplevel: seq<string>,
    leafSubtypesPossible: seq<string>,
    fruitTypes: seq<string>,
    leafChipIcons: map<string, Option<string>>,
    fruitChipIcons: map<string, Option<string>>)

  /** `leaf_chip_icons`: the icon of each top-level leaf category. */
  function LeafChips(index: map<string, string>): map<string, Option<string>> {
    map lt | lt in LEAF_TOPLEVEL :: PickLeafIcon(index, Some(lt), None)
  }

  /** `fruit_chip_icons`: the icon of each fruit type. */
  function FruitChips(index: map<string, string>, fruitTypes: seq<string>): map<string, Option<string>> {
    map ft | ft in fruitTypes :: PickFruitIcon(index, ft)
  }

  /** The filter options computed after the loop. */
  function FiltersOf(records: seq<SpeciesRecord>, assets: Assets): Filters {
    var fruitTypes := FruitTypes(records);
    Filters(
      LEAF_TOPLEVEL, LEAF_SUBTYPES, fruitTypes,
      LeafChips(assets.leafIcons), FruitChips(assets.fruitIcons, fruitTypes))
  }

  /** The loop body for one kept row: trims the columns, derives the id,
      the leaf class, the photos and the three icons. */
  method BuildRecord(assets: Assets, row: Row) returns (rec: SpeciesRecord)
    ensures rec == RecordOf(assets, row)
  {
    var sci := Cleaned(row, "Scientific name");
    var com := Cleaned(row, "Common name");
    var recId := Slugify(sci);
    var leafRaw := Cleaned(row, "Leaf type");
    var leaf := ClassifyLeaf(leafRaw);
    var photos := ResolvePhotos(PhotoListing(assets, recId), assets.photoRoot, recId);
    var speciesIcon := PickSpeciesIcon(assets.speciesIcons, sci, com);
    var leafIcon := PickLeafIcon(assets.leafIcons, leaf.category, leaf.subtype);
    var fruitRaw := Cleaned(row, "Fruit Type");
    var fruitIcon := PickFruitIcon(assets.fruitIcons, fruitRaw);
    rec := SpeciesRecord(
      recId, sci, Cleaned(row, "Etymology"), com, Cleaned(row, "Habitat"),
      Cleaned(row, "Phenology"), Cleaned(row, "Identification Characters"),
      leafRaw, leaf.category, leaf.subtype, fruitRaw,
      Cleaned(row, "Seed Germination"), Cleaned(row, "Pest"),
      photos, Icons(speciesIcon, leafIcon, fruitIcon));
  }

  /** One more row: the list grows by that row's record when it is kept. */
  lemma RecordListStep(rows: seq<Row>, i: nat, assets: Assets)
    requires i < |rows|
    ensures RecordList(rows[..i + 1], assets) ==
      if HasScientificName(rows[i]) then RecordList(rows[..i], assets) + [RecordOf(assets, rows[i])]
      else RecordList(rows[..i], assets)
  {
    assert rows[..i + 1][..i] == rows[..i];
  }

  /** One more record: its id now maps to it. */
  lemma ByIdStep(records: seq<SpeciesRecord>, rec: SpeciesRecord)
    ensures ById(records + [rec]) == ById(records)[rec.id := rec]
  {
    assert (records + [rec])[..|records|] == records;
  }

  /**
   * The loader: keeps the rows with a scientific name (a filter the sheet
   * goes through before the loop, folded here into the loop as a skip),
   * builds each record in turn, appends it to the list and files it under
   * its id, then derives the filter options.
   */
  method LoadAndProcess(source: Option<seq<Row>>, assets: Assets)
    returns (records: seq<SpeciesRecord>, byId: map<string, SpeciesRecord>, filters: Filters)
    ensures records == RecordList(SheetRows(source), assets)
    ensures byId == ById(records)
    ensures filters == FiltersOf(records, assets)
  {
    var rows := SheetRows(source);
    records, byId := [], map[];
    for i := 0 to |rows|
      invariant records == RecordList(rows[..i], assets)
      invariant byId == ById(records)
    {
      RecordListStep(rows, i, assets);
      var row := rows[i];
      if !HasScientificName(row) {
        continue;
      }
      var rec := BuildRecord(assets, row);
      ByIdStep(records, rec);
      records := records + [rec];
      byId := byId[rec.id := rec];
    }
    assert rows[..|rows|] == rows;
    var fruitTypes := FruitTypes(records);
    var leafChipIcons := map lt | lt in LEAF_TOPLEVEL :: PickLeafIcon(assets.leafIcons, Some(lt), None);
    var fruitChipIcons := map ft | ft in fruitTypes :: PickFruitIcon(assets.fruitIcons, ft);
    filters := Filters(LEAF_TOPLEVEL, LEAF_SUBTYPES, fruitTypes, leafChipIcons, fruitChipIcons);
  }

  // ---------------- properties ----------------

  /** One record per kept row, in sheet order: the `k`-th record is built
      from the `k`-th row that has a scientific name. */
  lemma RecordListFollowsRows(rows: seq<Row>, assets: Assets)
    ensures |RecordList(rows, assets)| == |Kept(rows, HasScientificName)|
    ensures forall k :: 0 <= k < |Kept(rows, HasScientificName)| ==>
      RecordList(rows, assets)[k] == RecordOf(assets, rows[Kept(rows, HasScientificName)[k]])
  {
    FilterMapFollowsKept(rows, HasScientificName, BuildWith(assets));
  }

  /** A kept row gives a record whose scientific name is its trimmed,
      non-blank cell, whose id is a slug, and whose photos are in strictly
      ascending order when no photo path holds a backslash. */
  lemma RecordOfKeptRow(assets: Assets, row: Row)
    requires HasScientificName(row)
    ensures var r := RecordOf(assets, row);
      r.scientificName == Strip(row["Scientific name"].text, IsSpace) &&
      r.scientificName != "" && Trimmed(r.scientificName, IsSpace) &&
      r.id == Slugify(r.scientificName) && IsSlug(r.id) &&
      (PlainPhotoPaths(assets) ==> StrictlySorted(r.photos))
  {
    var r := RecordOf(assets, row);
    SlugifyIsSlug(r.scientificName);
    assert NoBackslash(r.id);
    if PlainPhotoPaths(assets) && r.id in assets.photoListings {
      PhotosSorted(assets.photoListings[r.id], assets.photoRoot, r.id);
    }
  }

  /** Every record of the list has a non-blank scientific name and a slug
      for its id, and its photos are in ascending order when no photo path
      holds a backslash. */
  lemma RecordListFields(rows: seq<Row>, assets: Assets, r: SpeciesRecord)
    requires r in RecordList(rows, assets)
    ensures r.scientificName != "" && IsSlug(r.id) && r.id == Slugify(r.scientificName)
    ensures PlainPhotoPaths(assets) ==> StrictlySorted(r.photos)
  {
    FilterMapElems(rows, HasScientificName, BuildWith(assets), r);
    var i :| 0 <= i < |rows| && HasScientificName(rows[i]) && BuildWith(assets)(rows[i]) == r;
    RecordOfKeptRow(assets, rows[i]);
  }

  /** An id is filed exactly when some record carries it. */
  lemma ByIdKeys(records: seq<SpeciesRecord>, id: string)
    ensures id in ById(records) <==> exists i :: 0 <= i < |records| && records[i].id == id
  {
    AssocKeys(records, Always, RecordId, Self, id);
  }

  /** Records sharing an id: the id maps to the last of them. */
  lemma ByIdLastWins(records: seq<SpeciesRecord>, i: nat)
    requires i < |records|
    requires forall j :: i < j < |records| ==> records[j].id != records[i].id
    ensures records[i].id in ById(records) && ById(records)[records[i].id] == records[i]
  {
    AssocLastWins(records, Always, RecordId, Self, i);
  }

  /** Every filed record is the last record of the list with its id. */
  lemma ByIdFromLast(records: seq<SpeciesRecord>, id: string) returns (i: nat)
    requires id in ById(records)
    ensures i < |records| && records[i].id == id && ById(records)[id] == records[i]
    ensures forall j :: i < j < |records| ==> records[j].id != id
  {
    i := AssocFromLast(records, Always, RecordId, Self, id);
  }

  /** The fruit types are strictly ascending (so without repeats) and are
      exactly the non-blank trimmed fruit types of the records; by
      `SortedUnique` no other sequence has both properties. */
  lemma FruitTypesSpec(records: seq<SpeciesRecord>, t: string)
    ensures StrictlySorted(FruitTypes(records))
    ensures t in FruitTypes(records) <==>
      t != "" && exists i :: 0 <= i < |records| && Strip(records[i].fruitType, IsSpace) == t
  {
    var types := FilterMap(records, HasFruitType, FruitKey);
    SortDistinctSpec(types);
    FilterMapElems(records, HasFruitType, FruitKey, t);
    assert t in FruitTypes(records) <==> t in Elems(FruitTypes(records));
    assert t in types <==> t in Elems(types);
  }

  /** The filters: the fixed leaf categories and subtypes, the fruit types
      in ascending order without repeats, one leaf chip per category and one
      fruit chip per fruit type, every chip icon an entry of its index. */
  lemma FiltersOfSpec(records: seq<SpeciesRecord>, assets: Assets)
    ensures var f := FiltersOf(records, assets);
      && f.leafToplevel == LEAF_TOPLEVEL && f.leafSubtypesPossible == LEAF_SUBTYPES
      && StrictlySorted(f.fruitTypes)
      && (forall ft :: ft in f.fruitChipIcons <==> ft in f.fruitTypes)
      && (forall lt :: lt in f.leafChipIcons <==> lt in LEAF_TOPLEVEL)
      && (forall ft :: ft in f.fruitChipIcons && f.fruitChipIcons[ft].Some? ==> f.fruitChipIcons[ft].value in assets.fruitIcons.Values)
      && (forall lt :: lt in f.leafChipIcons && f.leafChipIcons[lt].Some? ==> f.leafChipIcons[lt].value in assets.leafIcons.Values)
  {
    FruitTypesSpec(records, "");
  }

  /** The chip of the simple category. */
  lemma LeafChipSimple(index: map<string, string>)
    ensures PickLeafIcon(index, Some(SIMPLE), None) == Lookup(index, ["simple leaf", "simple"])
  {
    assert Lower(SIMPLE) == "simple";
    PickLeafIconSimple(index, Some(SIMPLE), None);
  }

  /** The chip of the pinnately compound category. */
  lemma LeafChipPinnate(index: map<string, string>)
    ensures PickLeafIcon(index, Some(PINNATELY_COMPOUND), None) == Lookup(index, ["pinnately compound", "compound"])
  {
    var t := Lower(PINNATELY_COMPOUND);
    assert t == "pinnately compound";
    assert t[0] != "simple"[0];
    assert t[..9] == "pinnately";
    PickLeafIconOtherSubtype(index, Some(PINNATELY_COMPOUND), None);
  }

  /** The chip of the palmately compound category. */
  lemma LeafChipPalmate(index: map<string, string>)
    ensures PickLeafIcon(index, Some(PALMATELY_COMPOUND), None) == Lookup(index, ["palmately compound", "palmate", "palmately"])
  {
    var t := Lower(PALMATELY_COMPOUND);
    assert t == "palmately compound";
    assert t[0] != "simple"[0];
    assert t[2] != "pinnately"[2];
    assert t[..9] == "palmately";
    PickLeafIconPalmate(index, Some(PALMATELY_COMPOUND), None);
  }

  /** The leaf chips: each top-level category gets the first of its
      generic phrases found in the leaf index. */
  lemma LeafChipIcons(index: map<string, string>)
    ensures var chips := LeafChips(index);
      chips.Keys == {SIMPLE, PINNATELY_COMPOUND, PALMATELY_COMPOUND} &&
      chips[SIMPLE] == Lookup(index, ["simple leaf", "simple"]) &&
      chips[PINNATELY_COMPOUND] == Lookup(index, ["pinnately compound", "compound"]) &&
      chips[PALMATELY_COMPOUND] == Lookup(index, ["palmately compound", "palmate", "palmately"])
  {
    LeafChipSimple(index);
    LeafChipPinnate(index);
    LeafChipPalmate(index);
  }
}
