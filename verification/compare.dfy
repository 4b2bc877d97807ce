/** The comparison engine of `mysql_compare.py` (class `MySQLCompare`):
    resolving a listing's location to (zip, county, region), the tiered
    sales-comps search, the custom and built-in comparison queries, the row
    summary, and `fetch_comparison`, which decides which of them run.

    The database is abstract. The two lookup tables of the location
    resolution are partial maps (a missing key stands for "no row" and for a
    failed lookup alike, since the source swallows both); every other query
    is an oracle returning rows or raising.
 */
module Compare {

  import opened Wrappers
  import opened Text
  import opened Extract

  /** `MySQLConfig`. `comparisonQuery` and `comparisonTable` are optional in
      the source; the empty string stands for `None`, since every use tests
      them for truthiness. `priceColumn` keeps its `Option`, because `None`
      and `""` are treated differently. */
  datatype Config = Config(
    host: string,
    port: int,
    user: string,
    password: string,
    database: string,
    enabled: bool,
    comparisonQuery: string,
    comparisonTable: string,
    titleColumn: string,
    priceColumn: Option<string>,
    maxRows: int,
    outputFormat: string,
    useSalesComps: bool,
    salesMaxRows: int,
    salesTable: string,
    propertiesTable: string,
    zipCountyTable: string,
    countiesTable: string,
    yearTolerance: int,
    insertIntoFb: bool,
    fbListingsTable: string,
    insertAllEvaluated: bool,
    connectionTimeout: int)

  /** The dataclass defaults of `MySQLConfig`. */
  const DefaultConfig: Config := Config(
    host := "localhost", port := 3306, user := "", password := "", database := "",
    enabled := true, comparisonQuery := "", comparisonTable := "",
    titleColumn := "title", priceColumn := Some("price"), maxRows := 10, outputFormat := "full",
    useSalesComps := false, salesMaxRows := 10, salesTable := "sales", propertiesTable := "properties",
    zipCountyTable := "zip_county", countiesTable := "counties", yearTolerance := 5,
    insertIntoFb := false, fbListingsTable := "fb_listings", insertAllEvaluated := false,
    connectionTimeout := 10)

  /** One result row: its columns in order, each value already rendered as
      text. */
  datatype Field = Field(name: string, value: string)
  type Row = seq<Field>

  /** `ComparisonResult` (its `raw_text` is left out). */
  datatype Comparison = Comparison(summary: string, rows: seq<Row>)

  // ---------------------------------------------------------------------------
  // _resolve_location

  /** The contents of the configured zip→county and county→region tables. */
  datatype GeoTables = GeoTables(zipCounty: map<string, int>, countyRegion: map<int, int>)

  datatype Location = Location(zip: Option<string>, countyId: Option<int>, regionId: Option<int>)

  /** No county without a zip, no region without a county. */
  predicate Hierarchical(l: Location) {
    && (l.countyId.Some? ==> l.zip.Some?)
    && (l.regionId.Some? ==> l.countyId.Some?)
  }

  /** `_resolve_location`: the zip is the first standalone five-digit run of
      the stripped location; the county is looked up by zip only when both
      lookup table names are safe, and the region by county. */
  function ResolveLocation(cfg: Config, geo: GeoTables, l: Listing): (r: Location)
    ensures Hierarchical(r)
    ensures r.zip == ExtractZip(Strip(l.location))
    ensures r.zip.None? ==> r == Location(None, None, None)
    ensures !SafeTable(cfg.zipCountyTable) || !SafeTable(cfg.countiesTable) ==> r.countyId.None?
    ensures r.countyId.Some? <==>
      SafeTable(cfg.zipCountyTable) && SafeTable(cfg.countiesTable) && r.zip.Some? && r.zip.value in geo.zipCounty
    ensures r.countyId.Some? ==> r.countyId.value == geo.zipCounty[r.zip.value]
    ensures r.regionId.Some? <==> r.countyId.Some? && r.countyId.value in geo.countyRegion
    ensures r.regionId.Some? ==> r.regionId.value == geo.countyRegion[r.countyId.value]
  {
    var zip := ExtractZip(Strip(l.location));
    if zip.None? then Location(None, None, None)
    else if !SafeTable(cfg.zipCountyTable) || !SafeTable(cfg.countiesTable) then Location(zip, None, None)
    else if zip.value !in geo.zipCounty then Location(zip, None, None)
    else
      var county := geo.zipCounty[zip.value];
      var region := if county in geo.countyRegion then Some(geo.countyRegion[county]) else None;
      Location(zip, Some(county), region)
  }

  /** A location without any digit resolves to nothing. */
  lemma NoDigitsResolvesToNothing(cfg: Config, geo: GeoTables, l: Listing)
    requires NoDigits(l.location)
    ensures ResolveLocation(cfg, geo, l) == Location(None, None, None)
  {
    StripKeepsNoDigits(l.location);
    NoDigitsNoZip(Strip(l.location));
  }

  // ---------------------------------------------------------------------------
  // _fetch_sales_comps

  datatype Scope = ZipScope(zip: string) | CountyScope(countyId: int) | RegionScope(regionId: int)

  function ScopeName(s: Scope): string {
    match s
    case ZipScope(_) => "zip"
    case CountyScope(_) => "county"
    case RegionScope(_) => "region"
  }

  /** The position of a scope in the fixed order zip, county, region. */
  function Rank(s: Scope): nat {
    match s
    case ZipScope(_) => 0
    case CountyScope(_) => 1
    case RegionScope(_) => 2
  }

  /** The list of scopes to try: the identifiers that are present, in the
      order zip, county, region. */
  function Tiers(l: Location): (r: seq<Scope>)
    ensures forall i, j :: 0 <= i < j < |r| ==> Rank(r[i]) < Rank(r[j])
    ensures l.zip.Some? ==> ZipScope(l.zip.value) in r
    ensures l.zip.None? ==> forall k :: 0 <= k < |r| ==> !r[k].ZipScope?
    ensures l.countyId.Some? ==> CountyScope(l.countyId.value) in r
    ensures l.countyId.None? ==> forall k :: 0 <= k < |r| ==> !r[k].CountyScope?
    ensures l.regionId.Some? ==> RegionScope(l.regionId.value) in r
    ensures l.regionId.None? ==> forall k :: 0 <= k < |r| ==> !r[k].RegionScope?
    ensures forall k :: 0 <= k < |r| ==>
      match r[k]
      case ZipScope(z) => l.zip == Some(z)
      case CountyScope(c) => l.countyId == Some(c)
      case RegionScope(g) => l.regionId == Some(g)
  {
    (if l.zip.Some? then [ZipScope(l.zip.value)] else [])
    + (if l.countyId.Some? then [CountyScope(l.countyId.value)] else [])
    + (if l.regionId.Some? then [RegionScope(l.regionId.value)] else [])
  }

  /** For a resolved location the tiers are a prefix of zip, county, region:
      a wider scope is only ever tried after every narrower one. */
  lemma TiersOfResolvedLocation(l: Location)
    requires Hierarchical(l)
    ensures l.zip.None? ==> Tiers(l) == []
    ensures l.zip.Some? && l.countyId.None? ==> Tiers(l) == [ZipScope(l.zip.value)]
    ensures l.countyId.Some? && l.regionId.None? ==> Tiers(l) == [ZipScope(l.zip.value), CountyScope(l.countyId.value)]
    ensures l.regionId.Some? ==>
      Tiers(l) == [ZipScope(l.zip.value), CountyScope(l.countyId.value), RegionScope(l.regionId.value)]
  {
  }

  /** The attribute filters shared by every tier; `limit` is
      `sales_max_rows`. */
  datatype Filters = Filters(beds: Option<nat>, baths: Option<real>, yearRange: Option<(int, int)>, limit: int)

  /** The filters of `_fetch_sales_comps`: beds and baths by equality, and a
      year window `[y - tol, y + tol]` only when a year was found and the
      tolerance is not negative. */
  function SalesFilters(cfg: Config, a: Attributes): (f: Filters)
    ensures f.beds == a.beds && f.baths == a.baths && f.limit == cfg.salesMaxRows
    ensures f.yearRange.Some? <==> a.yearBuilt.Some? && cfg.yearTolerance >= 0
    ensures f.yearRange.Some? ==>
      && f.yearRange.value.0 <= a.yearBuilt.value <= f.yearRange.value.1
      && a.yearBuilt.value - f.yearRange.value.0 == f.yearRange.value.1 - a.yearBuilt.value == cfg.yearTolerance
  {
    var window :=
      if a.yearBuilt.Some? && cfg.yearTolerance >= 0
      then Some((a.yearBuilt.value - cfg.yearTolerance, a.yearBuilt.value + cfg.yearTolerance))
      else None;
    Filters(a.beds, a.baths, window, cfg.salesMaxRows)
  }

  /** The sales JOIN properties query of one tier. */
  type SalesQuery = (Scope, Filters) -> Outcome<seq<Row>>

  /** Every tier before `k` answered with no rows. */
  ghost predicate EmptyBefore(tiers: seq<Scope>, f: Filters, query: SalesQuery, k: nat)
    requires k <= |tiers|
  {
    forall j :: 0 <= j < k ==> query(tiers[j], f) == Returned([])
  }

  /** How the tier loop ended: rows at a tier, no rows anywhere, or an
      exception raised by a tier's query. */
  datatype TierSearch = Found(index: nat) | Exhausted | RaisedAt(index: nat)

  /** The `for` loop over the tiers from position `i`: it returns at the
      first tier whose query yields rows, with the same filters at every
      tier; an exception is not caught here. */
  function SearchTiers(tiers: seq<Scope>, f: Filters, query: SalesQuery, i: nat): (r: TierSearch)
    requires i <= |tiers|
    ensures r.Found? ==>
      && i <= r.index < |tiers|
      && query(tiers[r.index], f).Returned? && |query(tiers[r.index], f).value| > 0
      && forall j :: i <= j < r.index ==> query(tiers[j], f) == Returned([])
    ensures r.RaisedAt? ==>
      && i <= r.index < |tiers| && query(tiers[r.index], f).Raised?
      && forall j :: i <= j < r.index ==> query(tiers[j], f) == Returned([])
    ensures r.Exhausted? <==> forall j :: i <= j < |tiers| ==> query(tiers[j], f) == Returned([])
    decreases |tiers| - i
  {
    if i == |tiers| then Exhausted
    else match query(tiers[i], f)
      case Raised => RaisedAt(i)
      case Returned(rows) => if |rows| > 0 then Found(i) else SearchTiers(tiers, f, query, i + 1)
  }

  const NoSalesComps: string := "No recent sales comps found for this location (zip → county → region)."

  function SalesHeader(s: Scope): string {
    "Recent sold comps (" + ScopeName(s) + "):\n"
  }

  /** The tiers and filters `_fetch_sales_comps` uses for a listing. */
  function SalesTiers(cfg: Config, geo: GeoTables, l: Listing): seq<Scope> {
    Tiers(ResolveLocation(cfg, geo, l))
  }

  function ListingFilters(cfg: Config, l: Listing): Filters {
    SalesFilters(cfg, ParseBedsBathsYear(l))
  }

  /** The tier loop of `_fetch_sales_comps` as a comparison: the rows of
      the first tier that has any, under a header naming that tier, or the
      fixed no-comps summary with no rows. An exception from a tier's query
      propagates. */
  function SalesFromTiers(tiers: seq<Scope>, f: Filters, query: SalesQuery, maxRows: int): (r: Outcome<Comparison>)
    ensures r.Returned? ==> r.value.summary != []
    ensures r.Returned? && r.value.rows != [] ==>
      exists k :: 0 <= k < |tiers|
        && EmptyBefore(tiers, f, query, k)
        && query(tiers[k], f) == Returned(r.value.rows)
        && SalesHeader(tiers[k]) <= r.value.summary
        && r.value.summary == SalesHeader(tiers[k]) + RowsToSummary(r.value.rows, maxRows)
    ensures r.Returned? && r.value.rows == [] ==>
      r.value.summary == NoSalesComps && EmptyBefore(tiers, f, query, |tiers|)
    ensures r.Raised? ==>
      exists k :: 0 <= k < |tiers| && EmptyBefore(tiers, f, query, k) && query(tiers[k], f).Raised?
  {
    match SearchTiers(tiers, f, query, 0)
    case Found(k) =>
      var rows := query(tiers[k], f).value;
      Returned(Comparison(SalesHeader(tiers[k]) + RowsToSummary(rows, maxRows), rows))
    case Exhausted => Returned(Comparison(NoSalesComps, []))
    case RaisedAt(_) => Raised
  }

  /** `_fetch_sales_comps`: `None` unless sales comps are on and both table
      names are safe; otherwise the tier loop over the listing's resolved
      location with the listing's filters. */
  function FetchSalesComps(cfg: Config, geo: GeoTables, l: Listing, query: SalesQuery): (r: Outcome<Option<Comparison>>)
    ensures !cfg.useSalesComps || !SafeTable(cfg.salesTable) || !SafeTable(cfg.propertiesTable) ==> r == Returned(None)
    ensures cfg.useSalesComps && SafeTable(cfg.salesTable) && SafeTable(cfg.propertiesTable) ==>
      var s := SalesFromTiers(SalesTiers(cfg, geo, l), ListingFilters(cfg, l), query, cfg.maxRows);
      && r != Returned(None)
      && (r.Raised? <==> s.Raised?)
      && (r.Returned? ==> r.value == Some(s.value))
  {
    if !cfg.useSalesComps || !SafeTable(cfg.salesTable) || !SafeTable(cfg.propertiesTable) then Returned(None)
    else match SalesFromTiers(SalesTiers(cfg, geo, l), ListingFilters(cfg, l), query, cfg.maxRows)
      case Raised => Raised
      case Returned(c) => Returned(Some(c))
  }

  /** With a zip, county and region all resolved and only the county query
      returning rows, the comps come from the county tier. */
  lemma CountyTierWins(cfg: Config, geo: GeoTables, l: Listing, query: SalesQuery)
    requires cfg.useSalesComps && SafeTable(cfg.salesTable) && SafeTable(cfg.propertiesTable)
    requires var loc := ResolveLocation(cfg, geo, l); loc.regionId.Some?
    requires var loc, f := ResolveLocation(cfg, geo, l), ListingFilters(cfg, l);
      && query(ZipScope(loc.zip.value), f) == Returned([])
      && query(CountyScope(loc.countyId.value), f).Returned?
      && query(CountyScope(loc.countyId.value), f).value != []
    ensures var loc := ResolveLocation(cfg, geo, l);
      FetchSalesComps(cfg, geo, l, query) ==
        Returned(Some(Comparison(
          SalesHeader(CountyScope(loc.countyId.value))
            + RowsToSummary(query(CountyScope(loc.countyId.value), ListingFilters(cfg, l)).value, cfg.maxRows),
          query(CountyScope(loc.countyId.value), ListingFilters(cfg, l)).value)))
  {
    var loc := ResolveLocation(cfg, geo, l);
    TiersOfResolvedLocation(loc);
    SecondTierWins(SalesTiers(cfg, geo, l), ListingFilters(cfg, l), query, cfg.maxRows);
  }

  /** When the first tier has no rows and the second has some, the comps
      are the second tier's. */
  lemma SecondTierWins(tiers: seq<Scope>, f: Filters, query: SalesQuery, maxRows: int)
    requires |tiers| >= 2 && query(tiers[0], f) == Returned([])
    requires query(tiers[1], f).Returned? && query(tiers[1], f).value != []
    ensures SalesFromTiers(tiers, f, query, maxRows)
      == Returned(Comparison(SalesHeader(tiers[1]) + RowsToSummary(query(tiers[1], f).value, maxRows),
                             query(tiers[1], f).value))
  {
    assert SearchTiers(tiers, f, query, 1) == Found(1);
    assert SearchTiers(tiers, f, query, 0) == Found(1);
  }

  // ---------------------------------------------------------------------------
  // _rows_to_summary

  const NoSimilarListings: string := "No similar listings found in the database."
  const SimilarHeader: string := "Similar or related listings " + "from your database:\n"

  function FieldText(f: Field): string {
    f.name + ": " + f.value
  }

  function FieldTexts(fields: seq<Field>): (r: seq<string>)
    ensures |r| == |fields|
    ensures forall k :: 0 <= k < |r| ==> r[k] == FieldText(fields[k])
  {
    if |fields| == 0 then [] else [FieldText(fields[0])] + FieldTexts(fields[1..])
  }

  function LineLabel(n: nat): string {
    "  " + NatToString(n) + ". "
  }

  /** One numbered line per row, from `start`, showing at most six columns. */
  function NumberedLines(rows: seq<Row>, start: nat): (r: seq<string>)
    ensures |r| == |rows|
    ensures forall k :: 0 <= k < |r| ==>
      r[k] == LineLabel(start + k) + Join(FieldTexts(PyTake(rows[k], 6)), " | ")
    decreases |rows|
  {
    if |rows| == 0 then []
    else [LineLabel(start) + Join(FieldTexts(PyTake(rows[0], 6)), " | ")] + NumberedLines(rows[1..], start + 1)
  }

  /** The lines of `_rows_to_summary`: the first `max_rows` rows (a Python
      slice, so a negative cap counts from the end), numbered from 1. */
  function SummaryLines(rows: seq<Row>, maxRows: int): (lines: seq<string>)
    ensures 0 <= maxRows ==> |lines| == if maxRows < |rows| then maxRows else |rows|
    ensures maxRows < 0 ==> |lines| == if -maxRows < |rows| then |rows| + maxRows else 0
    ensures |lines| <= |rows|
    ensures forall k :: 0 <= k < |lines| ==> LineLabel(k + 1) <= lines[k]
    ensures forall k :: 0 <= k < |lines| ==> lines[k] == LineLabel(k + 1) + Join(FieldTexts(PyTake(rows[k], 6)), " | ")
  {
    var shown := PyTake(rows, maxRows);
    var lines := NumberedLines(shown, 1);
    forall k | 0 <= k < |lines|
      ensures lines[k] == LineLabel(k + 1) + Join(FieldTexts(PyTake(rows[k], 6)), " | ")
      ensures LineLabel(k + 1) <= lines[k]
    {
      assert shown[k] == rows[k];
      assert lines[k] == LineLabel(1 + k) + Join(FieldTexts(PyTake(shown[k], 6)), " | ");
    }
    lines
  }

  /** `_rows_to_summary`: a fixed sentence when there are no rows, otherwise
      a header and the numbered lines. Never empty. */
  function RowsToSummary(rows: seq<Row>, maxRows: int): (r: string)
    ensures r != []
    ensures rows == [] <==> r == NoSimilarListings
    ensures rows != [] ==> r == SimilarHeader + Join(SummaryLines(rows, maxRows), "\n")
  {
    if rows == [] then NoSimilarListings
    else
      var r := SimilarHeader + Join(SummaryLines(rows, maxRows), "\n");
      assert r[0] == SimilarHeader[0] == 'S' && NoSimilarListings[0] == 'N';
      r
  }

  // ---------------------------------------------------------------------------
  // _run_custom_query

  /** The placeholders `{title}`, `{price}`, `{location}` and `{item_name}`
      replaced, in that order; `%` in the title and location is doubled
      before they are cut to 200 and 100 characters. */
  function SubstitutePlaceholders(template: string, l: Listing, itemName: string): (r: string)
    ensures '{' !in template ==> r == template
  {
    assert '{' !in template ==>
      && !ContainsSub(template, "{title}") && !ContainsSub(template, "{price}")
      && !ContainsSub(template, "{location}") && !ContainsSub(template, "{item_name}")
    by {
      if '{' !in template {
        ContainsSubFirstChar(template, "{title}");
        ContainsSubFirstChar(template, "{price}");
        ContainsSubFirstChar(template, "{location}");
        ContainsSubFirstChar(template, "{item_name}");
      }
    }
    Replace(Replace(Replace(Replace(template, "{title}", TitleText(l)), "{price}", l.price), "{location}", LocationText(l)),
            "{item_name}", itemName)
  }

  /** A template whose only placeholder is `{item_name}` gets the item
      name in its place; the other three substitutions find nothing. */
  lemma ItemNameFilled(a: string, b: string, l: Listing, itemName: string)
    requires '{' !in a && '{' !in b
    ensures SubstitutePlaceholders(a + "{item_name}" + b, l, itemName) == a + itemName + b
  {
    var mark := "{item_name}";
    assert '{' !in mark[1..] && mark[1] == 'i';
    ReplaceOtherMark(a, mark, b, "{title}", TitleText(l));
    ReplaceOtherMark(a, mark, b, "{price}", l.price);
    ReplaceOtherMark(a, mark, b, "{location}", LocationText(l));
    ReplaceOneOccurrence(a, b, mark, itemName);
  }

  /** The title as it is substituted: `%` doubled, cut to 200. */
  function TitleText(l: Listing): string {
    PyTake(Replace(l.title, "%", "%%"), 200)
  }

  /** The location as it is substituted: `%` doubled, cut to 100. */
  function LocationText(l: Listing): string {
    PyTake(Replace(l.location, "%", "%%"), 100)
  }

  /** A template whose only placeholder is `{title}` gets the title with
      `%` doubled and cut to 200 characters, and nothing else changes. */
  lemma TitleFilled(a: string, b: string, l: Listing, itemName: string)
    requires '{' !in a && '{' !in b && '{' !in l.title
    ensures SubstitutePlaceholders(a + "{title}" + b, l, itemName) == a + PyTake(Replace(l.title, "%", "%%"), 200) + b
  {
    var t := TitleText(l);
    EscapedKeepsNoBrace(l.title, 200);
    ReplaceOneOccurrence(a, b, "{title}", t);
    var s := a + t + b;
    NoBraceConcat(a, t, b);
    NoPlaceholder(s, "{price}", l.price);
    NoPlaceholder(s, "{location}", LocationText(l));
    NoPlaceholder(s, "{item_name}", itemName);
  }

  /** A template whose only placeholder is `{price}` gets the price text
      as it is, and nothing else changes. */
  lemma PriceFilled(a: string, b: string, l: Listing, itemName: string)
    requires '{' !in a && '{' !in b && '{' !in l.price
    ensures SubstitutePlaceholders(a + "{price}" + b, l, itemName) == a + l.price + b
  {
    var mark := "{price}";
    assert '{' !in mark[1..] && mark[1] == 'p';
    ReplaceOtherMark(a, mark, b, "{title}", TitleText(l));
    ReplaceOneOccurrence(a, b, mark, l.price);
    var s := a + l.price + b;
    NoBraceConcat(a, l.price, b);
    NoPlaceholder(s, "{location}", LocationText(l));
    NoPlaceholder(s, "{item_name}", itemName);
  }

  /** A template whose only placeholder is `{location}` gets the location
      with `%` doubled and cut to 100 characters, and nothing else
      changes. */
  lemma LocationFilled(a: string, b: string, l: Listing, itemName: string)
    requires '{' !in a && '{' !in b && '{' !in l.location
    ensures SubstitutePlaceholders(a + "{location}" + b, l, itemName) == a + PyTake(Replace(l.location, "%", "%%"), 100) + b
  {
    var mark := "{location}";
    var loc := LocationText(l);
    assert '{' !in mark[1..] && mark[1] == 'l';
    ReplaceOtherMark(a, mark, b, "{title}", TitleText(l));
    ReplaceOtherMark(a, mark, b, "{price}", l.price);
    EscapedKeepsNoBrace(l.location, 100);
    ReplaceOneOccurrence(a, b, mark, loc);
    var s := a + loc + b;
    NoBraceConcat(a, loc, b);
    NoPlaceholder(s, "{item_name}", itemName);
  }

  /** A text without `{` holds no placeholder and is left alone. */
  lemma NoPlaceholder(s: string, pat: string, rep: string)
    requires |pat| > 0 && pat[0] == '{' && '{' !in s
    ensures Replace(s, pat, rep) == s
  {
    ContainsSubFirstChar(s, pat);
  }

  lemma NoBraceConcat(a: string, t: string, b: string)
    requires '{' !in a && '{' !in t && '{' !in b
    ensures '{' !in a + t + b
  {
  }

  /** Doubling `%` and cutting adds no `{`. */
  lemma EscapedKeepsNoBrace(t: string, n: nat)
    requires '{' !in t
    ensures '{' !in PyTake(Replace(t, "%", "%%"), n)
  {
    var e := Replace(t, "%", "%%");
    ReplaceKeepsAbsent(t, "%", "%%", '{');
    var r := PyTake(e, n);
    assert r == e[..|r|];
    assert forall x :: x in r ==> x in e;
  }

  /** Replacing with text free of `c` in a text free of `c` leaves it
      free of `c`. */
  lemma {:induction false} ReplaceKeepsAbsent(s: string, pat: string, rep: string, c: char)
    requires |pat| > 0 && c !in s && c !in rep
    ensures c !in Replace(s, pat, rep)
    decreases |s|
  {
    if |s| > 0 {
      if pat <= s {
        assert c !in s[|pat|..] by { assert forall x :: x in s[|pat|..] ==> x in s; }
        ReplaceKeepsAbsent(s[|pat|..], pat, rep, c);
      } else {
        assert s[0] in s;
        assert c !in s[1..] by { assert forall x :: x in s[1..] ==> x in s; }
        ReplaceKeepsAbsent(s[1..], pat, rep, c);
      }
    }
  }

  /** The text of the custom query: the substituted template, with
      ` LIMIT max_rows` appended (after trailing spaces and semicolons are
      cut) unless it already mentions LIMIT in any letter case. Either way
      the query sent carries a LIMIT. */
  function CustomQueryText(template: string, l: Listing, itemName: string, maxRows: int): (q: string)
    ensures ContainsSub(Upper(q), "LIMIT")
    ensures ContainsSub(Upper(SubstitutePlaceholders(template, l, itemName)), "LIMIT") ==>
      q == SubstitutePlaceholders(template, l, itemName)
    ensures !ContainsSub(Upper(SubstitutePlaceholders(template, l, itemName)), "LIMIT") ==>
      q == StripRightOf(SubstitutePlaceholders(template, l, itemName), {' ', ';'}) + " LIMIT " + IntToString(maxRows)
  {
    var s := SubstitutePlaceholders(template, l, itemName);
    if ContainsSub(Upper(s), "LIMIT") then s
    else
      var head := StripRightOf(s, {' ', ';'});
      AppendedLimit(head, IntToString(maxRows));
      head + " LIMIT " + IntToString(maxRows)
  }

  /** Appending ` LIMIT n` makes the upper-cased text mention LIMIT. */
  lemma AppendedLimit(head: string, n: string)
    ensures ContainsSub(Upper(head + " LIMIT " + n), "LIMIT")
  {
    var q := head + " LIMIT " + n;
    assert q == (head + " ") + "LIMIT" + (" " + n);
    UpperAppend(head + " ", "LIMIT" + (" " + n));
    UpperAppend("LIMIT", " " + n);
    assert Upper("LIMIT") == "LIMIT" by {
      assert Upper("LIMIT")[0] == UpperChar('L');
    }
    assert Upper(q) == Upper(head + " ") + "LIMIT" + Upper(" " + n);
    ContainsSubInMiddle(Upper(head + " "), "LIMIT", Upper(" " + n));
  }

  /** The arbitrary SQL oracle of the custom query. */
  type SqlQuery = string -> Outcome<seq<Row>>

  /** `_run_custom_query`: run the query text and summarise its rows. */
  function RunCustomQuery(cfg: Config, l: Listing, itemName: string, sql: SqlQuery): (r: Outcome<Comparison>)
    ensures var q := CustomQueryText(cfg.comparisonQuery, l, itemName, cfg.maxRows);
      && (r.Raised? <==> sql(q).Raised?)
      && (r.Returned? ==> r.value.rows == sql(q).value && r.value.summary == RowsToSummary(sql(q).value, cfg.maxRows))
  {
    match sql(CustomQueryText(cfg.comparisonQuery, l, itemName, cfg.maxRows))
    case Raised => Raised
    case Returned(rows) => Returned(Comparison(RowsToSummary(rows, cfg.maxRows), rows))
  }

  // ---------------------------------------------------------------------------
  // _run_builtin_comparison

  /** The two query shapes of the built-in comparison: a title pattern, and
      a price cap when the listing has a price and a price column is set. */
  datatype SimilarQuery =
    | TitleOnly(table: string, titleColumn: string, pattern: string, limit: int)
    | PriceCapped(table: string, titleColumn: string, priceColumn: string, pattern: string, cap: real, limit: int)

  /** The built-in comparison's query, or `None` when the table name fails
      the allow-list: every name interpolated into the query text passes it
      (falling back to `title` and `price` for unsafe column names). */
  function SimilarQueryFor(cfg: Config, l: Listing): (r: Option<SimilarQuery>)
    ensures r.None? <==> !SafeTable(cfg.comparisonTable)
    ensures r.Some? ==>
      && r.value.table == cfg.comparisonTable
      && SafeTable(r.value.table) && SafeTable(r.value.titleColumn)
      && (r.value.PriceCapped? ==> SafeTable(r.value.priceColumn))
      && r.value.titleColumn == (if SafeTable(cfg.titleColumn) then cfg.titleColumn else "title")
      && r.value.pattern == "%" + PyTake(l.title, 30) + "%"
      && r.value.limit == cfg.maxRows
    ensures r.Some? ==> (r.value.PriceCapped? <==> cfg.priceColumn.Some? && ParsePrice(l.price).Some?)
    ensures r.Some? && r.value.PriceCapped? ==>
      && r.value.cap == ParsePrice(l.price).value * 1.5
      && r.value.priceColumn == (if SafeTable(cfg.priceColumn.value) then cfg.priceColumn.value else "price")
  {
    if !SafeTable(cfg.comparisonTable) then None
    else
      var titleCol := if SafeTable(cfg.titleColumn) then cfg.titleColumn else "title";
      var priceCol :=
        match cfg.priceColumn
        case None => None
        case Some(p) => Some(if SafeTable(p) then p else "price");
      var priceVal := ParsePrice(l.price);
      var pattern := "%" + PyTake(l.title, 30) + "%";
      assert SafeTable("title") && SafeTable("price");
      if priceCol.Some? && priceVal.Some? then
        Some(PriceCapped(cfg.comparisonTable, titleCol, priceCol.value, pattern, priceVal.value * 1.5, cfg.maxRows))
      else
        Some(TitleOnly(cfg.comparisonTable, titleCol, pattern, cfg.maxRows))
  }

  /** The LIKE pattern is the first 30 characters of the title between
      wildcards, so it is never longer than 32 characters. */
  lemma SimilarPatternBound(cfg: Config, l: Listing)
    requires SimilarQueryFor(cfg, l).Some?
    ensures |SimilarQueryFor(cfg, l).value.pattern| <= 32
    ensures SimilarQueryFor(cfg, l).value.pattern[1..|SimilarQueryFor(cfg, l).value.pattern| - 1] <= l.title
  {
  }

  type SimilarOracle = SimilarQuery -> Outcome<seq<Row>>

  /** `_run_builtin_comparison`. */
  function RunBuiltinComparison(cfg: Config, l: Listing, similar: SimilarOracle): (r: Outcome<Option<Comparison>>)
    ensures !SafeTable(cfg.comparisonTable) ==> r == Returned(None)
    ensures r.Returned? && r.value.Some? ==> r.value.value.summary != []
    ensures SafeTable(cfg.comparisonTable) ==>
      var q := SimilarQueryFor(cfg, l).value;
      && (r.Raised? <==> similar(q).Raised?)
      && (r.Returned? ==> r.value == Some(Comparison(RowsToSummary(similar(q).value, cfg.maxRows), similar(q).value)))
  {
    match SimilarQueryFor(cfg, l)
    case None => Returned(None)
    case Some(q) =>
      match similar(q)
      case Raised => Raised
      case Returned(rows) => Returned(Some(Comparison(RowsToSummary(rows, cfg.maxRows), rows)))
  }

  // ---------------------------------------------------------------------------
  // fetch_comparison

  /** The database behind one `MySQLCompare`. */
  datatype Db = Db(geo: GeoTables, sales: SalesQuery, sql: SqlQuery, similar: SimilarOracle)

  /** Some comparison source is configured. */
  predicate HasMode(cfg: Config) {
    cfg.useSalesComps || cfg.comparisonQuery != "" || cfg.comparisonTable != ""
  }

  /** The summaries collected inside the `try` of `fetch_comparison`, given
      what each source would produce: the custom query alone when one is
      configured; otherwise the sales comps and, when a comparison table is
      set, the built-in comparison after them; otherwise the built-in
      comparison alone. A source that is not consulted cannot raise. */
  function CollectParts(cfg: Config, custom: Outcome<Comparison>, sales: Outcome<Option<Comparison>>,
                        builtin: Outcome<Option<Comparison>>): (r: Outcome<seq<string>>)
    requires custom.Returned? ==> custom.value.summary != []
    ensures r.Returned? ==> forall k :: 0 <= k < |r.value| ==> r.value[k] != []
    ensures r.Returned? ==> |r.value| <= 2
    ensures cfg.comparisonQuery != "" ==>
      (r.Raised? <==> custom.Raised?) && (r.Returned? ==> r.value == [custom.value.summary])
    ensures cfg.comparisonQuery == "" && !cfg.useSalesComps && cfg.comparisonTable == "" ==> r == Returned([])
    ensures cfg.comparisonQuery == "" && cfg.useSalesComps ==>
      (r.Raised? <==> sales.Raised? || (cfg.comparisonTable != "" && builtin.Raised?))
      && (r.Returned? ==>
            r.value == OptionalSummary(sales.value) + (if cfg.comparisonTable != "" then OptionalSummary(builtin.value) else []))
    ensures cfg.comparisonQuery == "" && !cfg.useSalesComps && cfg.comparisonTable != "" ==>
      (r.Raised? <==> builtin.Raised?) && (r.Returned? ==> r.value == OptionalSummary(builtin.value))
  {
    if cfg.comparisonQuery != "" then
      match custom
      case Raised => Raised
      case Returned(c) => Returned([c.summary])
    else if cfg.useSalesComps then
      match sales
      case Raised => Raised
      case Returned(s) =>
        if cfg.comparisonTable != "" then
          match builtin
          case Raised => Raised
          case Returned(fb) => Returned(OptionalSummary(s) + OptionalSummary(fb))
        else Returned(OptionalSummary(s))
    else if cfg.comparisonTable != "" then
      match builtin
      case Raised => Raised
      case Returned(fb) => Returned(OptionalSummary(fb))
    else Returned([])
  }

  /** The summaries collected for a listing from the database. */
  function SummaryParts(cfg: Config, l: Listing, itemName: string, db: Db): (r: Outcome<seq<string>>)
    ensures r.Returned? ==> forall k :: 0 <= k < |r.value| ==> r.value[k] != []
    ensures r.Returned? ==> |r.value| <= 2
    ensures cfg.comparisonQuery != "" ==>
      var c := RunCustomQuery(cfg, l, itemName, db.sql);
      (r.Raised? <==> c.Raised?) && (r.Returned? ==> r.value == [c.value.summary])
    ensures cfg.comparisonQuery == "" && !cfg.useSalesComps && cfg.comparisonTable == "" ==> r == Returned([])
  {
    var custom := RunCustomQuery(cfg, l, itemName, db.sql);
    assert custom.Returned? ==> custom.value.summary != [];
    CollectParts(cfg, custom, FetchSalesComps(cfg, db.geo, l, db.sales), RunBuiltinComparison(cfg, l, db.similar))
  }

  /** The summary of a comparison, as a list of at most one part; an empty
      summary is dropped. */
  function OptionalSummary(c: Option<Comparison>): (r: seq<string>)
    ensures |r| <= 1
    ensures r != [] <==> c.Some? && c.value.summary != []
    ensures r != [] ==> r[0] == c.value.summary
  {
    if c.Some? && c.value.summary != [] then [c.value.summary] else []
  }

  /** `fetch_comparison`: `None` when disabled, when no source is
      configured, when the connection fails, when a query raises, or when
      nothing was collected; otherwise the collected summaries joined by a
      blank line, with no rows. */
  function FetchComparison(cfg: Config, l: Listing, itemName: string, connected: bool, db: Db): (r: Option<Comparison>)
    ensures !cfg.enabled || !HasMode(cfg) || !connected ==> r.None?
    ensures SummaryParts(cfg, l, itemName, db).Raised? ==> r.None?
    ensures r.Some? <==>
      cfg.enabled && HasMode(cfg) && connected
      && SummaryParts(cfg, l, itemName, db).Returned? && SummaryParts(cfg, l, itemName, db).value != []
    ensures r.Some? ==>
      && r.value.rows == []
      && r.value.summary == Join(SummaryParts(cfg, l, itemName, db).value, "\n\n")
      && r.value.summary != []
  {
    if !cfg.enabled || !HasMode(cfg) || !connected then None
    else match SummaryParts(cfg, l, itemName, db)
      case Raised => None
      case Returned(parts) =>
        if parts == [] then None
        else
          assert Join(parts, "\n\n") != [] by {
            if |parts| == 1 { assert parts[0] != []; } else { assert |parts[0] + "\n\n"| > 0; }
          }
          Some(Comparison(Join(parts, "\n\n"), []))
  }

  /** A configured custom query takes precedence: the sales and built-in
      oracles (and the location tables) have no influence on the result. */
  lemma CustomQueryTakesPrecedence(cfg: Config, l: Listing, itemName: string, connected: bool, db1: Db, db2: Db)
    requires cfg.comparisonQuery != ""
    requires forall q :: db1.sql(q) == db2.sql(q)
    ensures FetchComparison(cfg, l, itemName, connected, db1) == FetchComparison(cfg, l, itemName, connected, db2)
  {
    var q := CustomQueryText(cfg.comparisonQuery, l, itemName, cfg.maxRows);
    assert db1.sql(q) == db2.sql(q);
  }

  /** With a custom query the result is its rows' summary, or `None` when it
      raises. */
  lemma CustomQueryResult(cfg: Config, l: Listing, itemName: string, db: Db)
    requires cfg.enabled && cfg.comparisonQuery != ""
    ensures var q := CustomQueryText(cfg.comparisonQuery, l, itemName, cfg.maxRows);
      && (db.sql(q).Raised? ==> FetchComparison(cfg, l, itemName, true, db).None?)
      && (db.sql(q).Returned? ==>
            FetchComparison(cfg, l, itemName, true, db) == Some(Comparison(RowsToSummary(db.sql(q).value, cfg.maxRows), [])))
  {
  }

  /** With sales comps on and a comparison table set, and both sources
      producing a summary, the result is the sales summary, a blank line,
      then the built-in summary. */
  lemma SalesThenBuiltin(cfg: Config, l: Listing, itemName: string, db: Db, sales: Comparison, fb: Comparison)
    requires cfg.enabled && cfg.comparisonQuery == "" && cfg.useSalesComps && cfg.comparisonTable != ""
    requires FetchSalesComps(cfg, db.geo, l, db.sales) == Returned(Some(sales))
    requires RunBuiltinComparison(cfg, l, db.similar) == Returned(Some(fb))
    ensures FetchComparison(cfg, l, itemName, true, db) == Some(Comparison(sales.summary + "\n\n" + fb.summary, []))
  {
    SalesThenBuiltinParts(cfg, l, itemName, db, sales, fb);
    var parts := [sales.summary, fb.summary];
    FetchFromParts(cfg, l, itemName, db, parts);
    assert Join(parts, "\n\n") == sales.summary + "\n\n" + fb.summary by {
      assert parts[1..] == [fb.summary];
    }
  }

  /** With a mode on and the connection open, the comparison is the parts
      joined by blank lines, with no rows. */
  lemma FetchFromParts(cfg: Config, l: Listing, itemName: string, db: Db, parts: seq<string>)
    requires cfg.enabled && HasMode(cfg)
    requires SummaryParts(cfg, l, itemName, db) == Returned(parts) && parts != []
    ensures FetchComparison(cfg, l, itemName, true, db) == Some(Comparison(Join(parts, "\n\n"), []))
  {
  }

  lemma SalesThenBuiltinParts(cfg: Config, l: Listing, itemName: string, db: Db, sales: Comparison, fb: Comparison)
    requires cfg.comparisonQuery == "" && cfg.useSalesComps && cfg.comparisonTable != ""
    requires FetchSalesComps(cfg, db.geo, l, db.sales) == Returned(Some(sales))
    requires RunBuiltinComparison(cfg, l, db.similar) == Returned(Some(fb))
    ensures SummaryParts(cfg, l, itemName, db) == Returned([sales.summary, fb.summary])
  {
    var custom := RunCustomQuery(cfg, l, itemName, db.sql);
    assert SummaryParts(cfg, l, itemName, db) == CollectParts(cfg, custom, Returned(Some(sales)), Returned(Some(fb)));
    assert sales.summary != [] && fb.summary != [];
    CollectBothParts(cfg, custom, sales, fb);
  }

  lemma CollectBothParts(cfg: Config, custom: Outcome<Comparison>, sales: Comparison, fb: Comparison)
    requires custom.Returned? ==> custom.value.summary != []
    requires cfg.comparisonQuery == "" && cfg.useSalesComps && cfg.comparisonTable != ""
    requires sales.summary != [] && fb.summary != []
    ensures CollectParts(cfg, custom, Returned(Some(sales)), Returned(Some(fb))) == Returned([sales.summary, fb.summary])
  {
    assert OptionalSummary(Some(sales)) + OptionalSummary(Some(fb)) == [sales.summary, fb.summary];
  }
}
