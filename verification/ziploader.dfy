/** `zip.py`: loading a zip-code CSV into the `zip_county` and `city_zip`
    tables.

    The CSV is a header (which of the optional columns exist) and rows of
    cells, a missing (NaN) cell being `None`. The `counties` table is a map
    from county name to id, `zip_county` a map from zip to county id, and
    whether each insert succeeds is a parameter. */
module ZipLoader {

  import opened Wrappers
  import opened Text
  import opened Seqs

  // ---------------------------------------------------------------------------
  // The CSV

  /** One CSV row: the zip as `str(row["zip"])` renders it, and the cells of
      the other columns. */
  datatype CsvRow = CsvRow(
    zip: string,
    stateId: Option<string>,
    state: Option<string>,
    city: Option<string>,
    countyName: Option<string>)

  datatype Csv = Csv(
    hasStateId: bool,
    hasState: bool,
    hasCity: bool,
    hasCountyName: bool,
    rows: seq<CsvRow>)

  datatype StateColumn = StateIdColumn | StateNameColumn

  /** The state column: `state_id` when present, else `state`; `None` when
      there is neither. */
  function StateColumnOf(csv: Csv): (col: Option<StateColumn>)
    ensures col.None? <==> !csv.hasStateId && !csv.hasState
    ensures col == Some(StateIdColumn) <==> csv.hasStateId
  {
    if csv.hasStateId then Some(StateIdColumn)
    else if csv.hasState then Some(StateNameColumn)
    else None
  }

  function StateCell(row: CsvRow, col: StateColumn): Option<string> {
    match col
    case StateIdColumn => row.stateId
    case StateNameColumn => row.state
  }

  /** `df[df[state_col] == STATE_FILTER]` when the filter is set (not `None`
      and not empty): the rows whose state cell is exactly the filter. */
  function FilterRows(rows: seq<CsvRow>, col: StateColumn, filter: Option<string>): (kept: seq<CsvRow>)
    ensures filter.None? || filter.value == [] ==> kept == rows
    ensures filter.Some? && filter.value != [] ==>
      forall k :: 0 <= k < |kept| ==> kept[k] in rows && StateCell(kept[k], col) == filter
    ensures filter.Some? && filter.value != [] ==>
      forall row :: row in rows && StateCell(row, col) == filter ==> row in kept
  {
    if filter.None? || filter.value == [] then rows
    else
      var keep := (r: CsvRow) => StateCell(r, col) == filter;
      forall row | row in rows && StateCell(row, col) == filter ensures row in Filter(rows, keep) {
        FilterComplete(rows, keep, row);
      }
      Filter(rows, keep)
  }

  // ---------------------------------------------------------------------------
  // zfill

  function Zeros(n: nat): (z: string)
    ensures |z| == n && forall k :: 0 <= k < n ==> z[k] == '0'
  {
    if n == 0 then [] else Zeros(n - 1) + "0"
  }

  /** Python's `str.zfill(width)`: zeros added on the left up to `width`
      characters, after a leading sign when there is one. */
  function ZFill(s: string, width: nat): (r: string)
    ensures |r| == if |s| >= width then |s| else width
    ensures |s| >= width ==> r == s
    ensures |s| < width && (|s| == 0 || (s[0] != '+' && s[0] != '-')) ==>
      r == Zeros(width - |s|) + s
    ensures |s| < width && |s| > 0 && (s[0] == '+' || s[0] == '-') ==>
      r == [s[0]] + Zeros(width - |s|) + s[1..]
  {
    if |s| >= width then s
    else if |s| > 0 && (s[0] == '+' || s[0] == '-') then [s[0]] + Zeros(width - |s|) + s[1..]
    else Zeros(width - |s|) + s
  }

  lemma {:induction false} ZerosValue(n: nat)
    ensures AllDigits(Zeros(n)) && DigitsValue(Zeros(n)) == 0
  {
    if n > 0 {
      ZerosValue(n - 1);
      DigitsValueAppend(Zeros(n - 1), "0");
    }
  }

  /** Padding a run of digits keeps its value: `zfill` only adds leading
      zeros. */
  lemma ZFillKeepsValue(s: string, width: nat)
    requires AllDigits(s)
    ensures AllDigits(ZFill(s, width)) && DigitsValue(ZFill(s, width)) == DigitsValue(s)
  {
    if |s| < width {
      var z := Zeros(width - |s|);
      assert |s| == 0 || IsDigit(s[0]);
      assert ZFill(s, width) == z + s;
      ZerosValue(width - |s|);
      DigitsValueAppend(z, s);
      assert DigitsValue(z + s) == 0 * Pow10(|s|) + DigitsValue(s);
    }
  }

  /** A zip written with at most five digits pads to five. */
  lemma ZipPadsToFive(s: string)
    requires AllDigits(s) && |s| <= 5
    ensures |ZFill(s, 5)| == 5
  {
  }

  // ---------------------------------------------------------------------------
  // zip_county

  function ZipOf(row: CsvRow): string {
    ZFill(row.zip, 5)
  }

  /** The row writes a county: its county name is in `counties` and the
      insert succeeds. */
  predicate Writes(row: CsvRow, counties: map<string, int>, writeOk: (string, int) -> bool) {
    row.countyName.Some? && row.countyName.value in counties
    && writeOk(ZipOf(row), counties[row.countyName.value])
  }

  /** The `zip_county` pass: each row whose county is known writes its
      county id under its padded zip, replacing an earlier one (`ON
      DUPLICATE KEY UPDATE`); a row with an unknown county or a failed
      insert is skipped. */
  function ZipCountyPass(rows: seq<CsvRow>, counties: map<string, int>, writeOk: (string, int) -> bool,
                         table: map<string, int>): (r: map<string, int>)
    decreases |rows|
  {
    if |rows| == 0 then table
    else
      var last := rows[|rows| - 1];
      var before := ZipCountyPass(rows[..|rows| - 1], counties, writeOk, table);
      if Writes(last, counties, writeOk) then before[ZipOf(last) := counties[last.countyName.value]]
      else before
  }

  /** The zips written by a run of rows. */
  function WrittenZips(rows: seq<CsvRow>, counties: map<string, int>, writeOk: (string, int) -> bool): set<string> {
    set k | 0 <= k < |rows| && Writes(rows[k], counties, writeOk) :: ZipOf(rows[k])
  }

  lemma WrittenZipsStep(rows: seq<CsvRow>, counties: map<string, int>, writeOk: (string, int) -> bool)
    requires |rows| > 0
    ensures var last := rows[|rows| - 1];
      WrittenZips(rows, counties, writeOk)
        == WrittenZips(rows[..|rows| - 1], counties, writeOk) + (if Writes(last, counties, writeOk) then {ZipOf(last)} else {})
  {
    var init := rows[..|rows| - 1];
    var last := rows[|rows| - 1];
    var w := WrittenZips(rows, counties, writeOk);
    var wInit := WrittenZips(init, counties, writeOk);
    forall z | z in w ensures z in wInit + (if Writes(last, counties, writeOk) then {ZipOf(last)} else {}) {
      var k :| 0 <= k < |rows| && Writes(rows[k], counties, writeOk) && ZipOf(rows[k]) == z;
      if k < |init| { assert init[k] == rows[k]; }
    }
    forall z | z in wInit ensures z in w {
      var k :| 0 <= k < |init| && Writes(init[k], counties, writeOk) && ZipOf(init[k]) == z;
      assert rows[k] == init[k];
    }
  }

  /** After the pass the table holds its old zips and every written one,
      and every zip no row wrote keeps its old county. */
  lemma {:induction false} ZipCountyKeys(rows: seq<CsvRow>, counties: map<string, int>,
                                         writeOk: (string, int) -> bool, table: map<string, int>)
    ensures var r := ZipCountyPass(rows, counties, writeOk, table);
      && r.Keys == table.Keys + WrittenZips(rows, counties, writeOk)
      && (forall z :: z in table && z !in WrittenZips(rows, counties, writeOk) ==> r[z] == table[z])
    decreases |rows|
  {
    if |rows| > 0 {
      ZipCountyKeys(rows[..|rows| - 1], counties, writeOk, table);
      WrittenZipsStep(rows, counties, writeOk);
    }
  }

  /** Each written zip carries the county of the last row that wrote it. */
  lemma {:induction false} ZipCountyLastWins(rows: seq<CsvRow>, counties: map<string, int>,
                                             writeOk: (string, int) -> bool, table: map<string, int>, k: nat)
    requires k < |rows| && Writes(rows[k], counties, writeOk)
    requires forall j :: k < j < |rows| && Writes(rows[j], counties, writeOk) ==> ZipOf(rows[j]) != ZipOf(rows[k])
    ensures var r := ZipCountyPass(rows, counties, writeOk, table);
      ZipOf(rows[k]) in r && r[ZipOf(rows[k])] == counties[rows[k].countyName.value]
    decreases |rows|
  {
    var init := rows[..|rows| - 1];
    if k < |rows| - 1 {
      assert init[k] == rows[k];
      forall j | k < j < |init| && Writes(init[j], counties, writeOk) ensures ZipOf(init[j]) != ZipOf(init[k]) {
        assert init[j] == rows[j];
      }
      ZipCountyLastWins(init, counties, writeOk, table, k);
    }
  }

  /** The pass leaves the table unchanged when no row's county is known. */
  lemma {:induction false} UnknownCountiesSkipped(rows: seq<CsvRow>, counties: map<string, int>,
                                                  writeOk: (string, int) -> bool, table: map<string, int>)
    requires forall k :: 0 <= k < |rows| ==> rows[k].countyName.None? || rows[k].countyName.value !in counties
    ensures ZipCountyPass(rows, counties, writeOk, table) == table
    decreases |rows|
  {
    if |rows| > 0 {
      var init := rows[..|rows| - 1];
      assert forall k :: 0 <= k < |init| ==> init[k] == rows[k];
      UnknownCountiesSkipped(init, counties, writeOk, table);
    }
  }

  // ---------------------------------------------------------------------------
  // city_zip

  datatype CityZip = CityZip(city: string, state: string, zip: string)

  /** `str(cell)` for the state cell: a missing value renders as `nan`. */
  function CellText(cell: Option<string>): string {
    if cell.Some? then cell.value else "nan"
  }

  /** The row as `city_zip` stores it: state stripped and cut to 10
      characters, city stripped and cut to 255 (empty when missing), zip
      padded; `None` when the city or state is empty or the zip is not five
      characters long. */
  function Normalize(row: CsvRow, col: StateColumn): (cz: Option<CityZip>)
    ensures cz.Some? ==> cz.value.city != [] && |cz.value.city| <= 255
    ensures cz.Some? ==> cz.value.state != [] && |cz.value.state| <= 10
    ensures cz.Some? ==> |cz.value.zip| == 5 && cz.value.zip == ZipOf(row)
    ensures cz.Some? ==> cz.value.state == PyTake(Strip(CellText(StateCell(row, col))), 10)
    ensures cz.Some? ==> row.city.Some? && cz.value.city == PyTake(Strip(row.city.value), 255)
    ensures row.city.None? || |ZipOf(row)| != 5 ==> cz.None?
    ensures cz.Some? <==>
      row.city.Some? && Strip(row.city.value) != [] && Strip(CellText(StateCell(row, col))) != [] && |ZipOf(row)| == 5
  {
    var zip := ZipOf(row);
    var state := PyTake(Strip(CellText(StateCell(row, col))), 10);
    var city := if row.city.Some? then PyTake(Strip(row.city.value), 255) else "";
    if city == [] || state == [] || |zip| != 5 then None else Some(CityZip(city, state, zip))
  }

  /** The dedupe key: city lower-cased, state upper-cased, zip. */
  function Key(cz: CityZip): (string, string, string) {
    (Lower(cz.city), Upper(cz.state), cz.zip)
  }

  function Keys(rows: seq<CityZip>): set<(string, string, string)>
    decreases |rows|
  {
    if |rows| == 0 then {} else Keys(rows[..|rows| - 1]) + {Key(rows[|rows| - 1])}
  }

  lemma {:induction false} KeysMembership(rows: seq<CityZip>, key: (string, string, string))
    ensures key in Keys(rows) <==> exists k :: 0 <= k < |rows| && Key(rows[k]) == key
    decreases |rows|
  {
    if |rows| > 0 {
      var init := rows[..|rows| - 1];
      KeysMembership(init, key);
      if exists k :: 0 <= k < |init| && Key(init[k]) == key {
        var k :| 0 <= k < |init| && Key(init[k]) == key;
        assert rows[k] == init[k];
      }
      if exists k :: 0 <= k < |rows| && Key(rows[k]) == key {
        var k :| 0 <= k < |rows| && Key(rows[k]) == key;
        if k < |init| { assert init[k] == rows[k]; }
      }
    }
  }

  /** The first row of each key, in input order. */
  function FirstByKey(rows: seq<CityZip>): (firsts: seq<CityZip>)
    ensures Keys(firsts) == Keys(rows)
    ensures forall i, j :: 0 <= i < j < |firsts| ==> Key(firsts[i]) != Key(firsts[j])
    decreases |rows|
  {
    if |rows| == 0 then []
    else
      var init := FirstByKey(rows[..|rows| - 1]);
      var last := rows[|rows| - 1];
      if Key(last) in Keys(rows[..|rows| - 1]) then init
      else
        var r := init + [last];
        assert r[..|r| - 1] == init;
        forall i | 0 <= i < |init| ensures Key(init[i]) != Key(last) {
          KeysMembership(init, Key(init[i]));
        }
        r
  }

  /** Every row `FirstByKey` keeps is the first of its key in the input. */
  lemma FirstByKeyIsFirst(rows: seq<CityZip>, i: nat)
    requires i < |FirstByKey(rows)|
    ensures exists k :: 0 <= k < |rows| && rows[k] == FirstByKey(rows)[i] && (forall j :: 0 <= j < k ==> Key(rows[j]) != Key(rows[k]))
  {
    var k := FirstPosition(rows, i);
  }

  /** The position in the input of the `i`-th row `FirstByKey` keeps. */
  lemma {:induction false} FirstPosition(rows: seq<CityZip>, i: nat) returns (k: nat)
    requires i < |FirstByKey(rows)|
    ensures k < |rows| && rows[k] == FirstByKey(rows)[i]
    ensures forall j :: 0 <= j < k ==> Key(rows[j]) != Key(rows[k])
    decreases |rows|
  {
    var init := rows[..|rows| - 1];
    var last := rows[|rows| - 1];
    var f := FirstByKey(rows);
    if i < |FirstByKey(init)| {
      k := FirstPosition(init, i);
      assert f[i] == FirstByKey(init)[i];
      assert rows[k] == init[k];
      forall j | 0 <= j < k ensures Key(rows[j]) != Key(rows[k]) {
        assert rows[j] == init[j];
      }
    } else {
      k := |rows| - 1;
      assert f[i] == last;
      forall j | 0 <= j < k ensures Key(rows[j]) != Key(last) {
        KeysMembership(init, Key(last));
        assert init[j] == rows[j];
      }
    }
  }

  /** The `city_zip` loop over normalised rows: a row whose key was seen is
      skipped; otherwise its key is recorded and the row inserted, unless
      the insert fails. Ends with the first row of each key that inserted,
      in input order, no two with the same key. */
  method CityZipRows(rows: seq<CityZip>, insertOk: CityZip -> bool) returns (inserted: seq<CityZip>)
    ensures inserted == Filter(FirstByKey(rows), insertOk)
    ensures forall i, j :: 0 <= i < j < |inserted| ==> Key(inserted[i]) != Key(inserted[j])
    ensures forall i :: 0 <= i < |inserted| ==> inserted[i] in rows && insertOk(inserted[i])
  {
    var seen: set<(string, string, string)> := {};
    inserted := [];
    var i := 0;
    while i < |rows|
      invariant 0 <= i <= |rows|
      invariant seen == Keys(rows[..i])
      invariant inserted == Filter(FirstByKey(rows[..i]), insertOk)
    {
      var cz := rows[i];
      CityZipStep(rows, i, insertOk);
      if Key(cz) !in seen {
        seen := seen + {Key(cz)};
        if insertOk(cz) {
          inserted := inserted + [cz];
        }
      } else {
        seen := seen + {Key(cz)};
      }
      i := i + 1;
    }
    assert rows[..i] == rows;
    FilterKeepsDistinctKeys(FirstByKey(rows), insertOk);
    forall k | 0 <= k < |inserted| ensures inserted[k] in rows {
      FirstByKeyFrom(rows, inserted[k]);
    }
  }

  /** One more row for the `city_zip` loop: its key joins the seen keys,
      and it is inserted exactly when its key is new and the insert works. */
  lemma CityZipStep(rows: seq<CityZip>, i: nat, insertOk: CityZip -> bool)
    requires i < |rows|
    ensures Keys(rows[..i + 1]) == Keys(rows[..i]) + {Key(rows[i])}
    ensures Filter(FirstByKey(rows[..i + 1]), insertOk)
      == if Key(rows[i]) in Keys(rows[..i]) || !insertOk(rows[i]) then Filter(FirstByKey(rows[..i]), insertOk)
         else Filter(FirstByKey(rows[..i]), insertOk) + [rows[i]]
  {
    var p := rows[..i + 1];
    assert p[..|p| - 1] == rows[..i] && p[|p| - 1] == rows[i];
    if Key(rows[i]) !in Keys(rows[..i]) {
      var f := FirstByKey(p);
      assert f == FirstByKey(rows[..i]) + [rows[i]];
      assert f[..|f| - 1] == FirstByKey(rows[..i]);
    }
  }

  /** Every row `FirstByKey` keeps comes from its input. */
  lemma FirstByKeyFrom(rows: seq<CityZip>, cz: CityZip)
    requires cz in FirstByKey(rows)
    ensures cz in rows
  {
    var i :| 0 <= i < |FirstByKey(rows)| && FirstByKey(rows)[i] == cz;
    FirstByKeyIsFirst(rows, i);
  }

  /** Filtering keeps keys distinct. */
  lemma {:induction false} FilterKeepsDistinctKeys(xs: seq<CityZip>, keep: CityZip -> bool)
    requires forall i, j :: 0 <= i < j < |xs| ==> Key(xs[i]) != Key(xs[j])
    ensures forall i, j :: 0 <= i < j < |Filter(xs, keep)| ==> Key(Filter(xs, keep)[i]) != Key(Filter(xs, keep)[j])
    decreases |xs|
  {
    if |xs| > 0 {
      var init := xs[..|xs| - 1];
      var last := xs[|xs| - 1];
      forall i, j | 0 <= i < j < |init| ensures Key(init[i]) != Key(init[j]) {
        assert init[i] == xs[i] && init[j] == xs[j];
      }
      FilterKeepsDistinctKeys(init, keep);
      var fi := Filter(init, keep);
      if keep(last) {
        forall i | 0 <= i < |fi| ensures Key(fi[i]) != Key(last) {
          var j :| 0 <= j < |init| && init[j] == fi[i];
          assert xs[j] == init[j];
        }
        assert Filter(xs, keep) == fi + [last];
      }
    }
  }

  /** The normalised rows, in order, the rows that fail normalisation
      left out. */
  function NormalizedRows(rows: seq<CsvRow>, col: StateColumn): (normal: seq<CityZip>)
    ensures forall k :: 0 <= k < |normal| ==> exists j :: 0 <= j < |rows| && Normalize(rows[j], col) == Some(normal[k])
    ensures forall row :: row in rows && Normalize(row, col).Some? ==> Normalize(row, col).value in normal
  {
    var normalize := (row: CsvRow) => Normalize(row, col);
    forall row | row in rows && Normalize(row, col).Some? ensures Normalize(row, col).value in FilterMap(rows, normalize) {
      FilterMapComplete(rows, normalize, row);
    }
    FilterMap(rows, normalize)
  }

  /** A row that survives normalisation has a five-character zip and a
      city and state, and under a state filter its state is the filter
      (stripped and cut to 10). */
  lemma NormalizedRow(rows: seq<CsvRow>, col: StateColumn, filter: Option<string>, cz: CityZip)
    requires cz in NormalizedRows(rows, col)
    requires filter.Some? && filter.value != [] ==> forall k :: 0 <= k < |rows| ==> StateCell(rows[k], col) == filter
    ensures |cz.zip| == 5 && cz.city != [] && cz.state != []
    ensures filter.Some? && filter.value != [] ==> cz.state == PyTake(Strip(filter.value), 10)
  {
    var normal := NormalizedRows(rows, col);
    var j :| 0 <= j < |normal| && normal[j] == cz;
    var k :| 0 <= k < |rows| && Normalize(rows[k], col) == Some(cz);
  }

  /** Every row that normalises has its key among the rows offered to
      `city_zip` (the first row of each key), so with no failed insert the
      table holds every key of the filtered CSV. */
  lemma CityZipHasEveryKey(rows: seq<CsvRow>, col: StateColumn, row: CsvRow)
    requires row in rows && Normalize(row, col).Some?
    ensures Key(Normalize(row, col).value) in Keys(FirstByKey(NormalizedRows(rows, col)))
  {
    KeyOffered(NormalizedRows(rows, col), Normalize(row, col).value);
  }

  lemma KeyOffered(normal: seq<CityZip>, cz: CityZip)
    requires cz in normal
    ensures Key(cz) in Keys(FirstByKey(normal))
  {
    var j :| 0 <= j < |normal| && normal[j] == cz;
    KeysMembership(normal, Key(cz));
  }

  // ---------------------------------------------------------------------------
  // main

  datatype LoadOutcome =
    | Exit(reason: string)
    | Loaded(zipCounty: map<string, int>, cityZip: seq<CityZip>)

  /** The `zip_county` pass runs only when the CSV has a county column and
      the state filter is set. */
  predicate CountyPassRuns(csv: Csv, filter: Option<string>) {
    csv.hasCountyName && filter.Some? && filter.value != []
  }

  /** `main`: exit without loading when the state or city column is
      missing; otherwise filter the rows by state, run the `zip_county` pass
      when it applies, empty `city_zip` and refill it with the first
      normalised row of each key. */
  method Load(csv: Csv, filter: Option<string>, counties: map<string, int>, zipCounty: map<string, int>,
              zipCountyOk: (string, int) -> bool, cityZipOk: CityZip -> bool) returns (r: LoadOutcome)
    ensures r.Exit? <==> StateColumnOf(csv).None? || !csv.hasCity
    ensures r.Loaded? && !CountyPassRuns(csv, filter) ==> r.zipCounty == zipCounty
    ensures r.Loaded? && CountyPassRuns(csv, filter) ==>
      r.zipCounty == ZipCountyPass(FilterRows(csv.rows, StateColumnOf(csv).value, filter), counties, zipCountyOk, zipCounty)
    ensures r.Loaded? ==> forall i, j :: 0 <= i < j < |r.cityZip| ==> Key(r.cityZip[i]) != Key(r.cityZip[j])
    ensures r.Loaded? ==> forall i :: 0 <= i < |r.cityZip| ==>
      |r.cityZip[i].zip| == 5 && r.cityZip[i].city != [] && r.cityZip[i].state != []
    ensures r.Loaded? && filter.Some? && filter.value != [] ==> forall i :: 0 <= i < |r.cityZip| ==>
      r.cityZip[i].state == PyTake(Strip(filter.value), 10)
    ensures r.Loaded? ==> var col := StateColumnOf(csv).value;
      r.cityZip == Filter(FirstByKey(NormalizedRows(FilterRows(csv.rows, col, filter), col)), cityZipOk)
  {
    var col := StateColumnOf(csv);
    if col.None? {
      return Exit("CSV must have 'state' or 'state_id' column");
    }
    if !csv.hasCity {
      return Exit("CSV must have 'city' column");
    }
    var zc, inserted := Refill(csv, col.value, filter, counties, zipCounty, zipCountyOk, cityZipOk);
    return Loaded(zc, inserted);
  }

  /** The load once the state column `col` is known: the county pass on the
      filtered rows when it runs, then the `city_zip` refill. */
  method Refill(csv: Csv, col: StateColumn, filter: Option<string>, counties: map<string, int>, zipCounty: map<string, int>,
                zipCountyOk: (string, int) -> bool, cityZipOk: CityZip -> bool)
    returns (zc: map<string, int>, inserted: seq<CityZip>)
    ensures !CountyPassRuns(csv, filter) ==> zc == zipCounty
    ensures CountyPassRuns(csv, filter) ==> zc == ZipCountyPass(FilterRows(csv.rows, col, filter), counties, zipCountyOk, zipCounty)
    ensures forall i, j :: 0 <= i < j < |inserted| ==> Key(inserted[i]) != Key(inserted[j])
    ensures forall i :: 0 <= i < |inserted| ==>
      |inserted[i].zip| == 5 && inserted[i].city != [] && inserted[i].state != []
    ensures filter.Some? && filter.value != [] ==> forall i :: 0 <= i < |inserted| ==>
      inserted[i].state == PyTake(Strip(filter.value), 10)
    ensures inserted == Filter(FirstByKey(NormalizedRows(FilterRows(csv.rows, col, filter), col)), cityZipOk)
  {
    var rows := FilterRows(csv.rows, col, filter);
    zc := if CountyPassRuns(csv, filter) then ZipCountyPass(rows, counties, zipCountyOk, zipCounty) else zipCounty;
    inserted := CityZipTable(rows, col, filter, cityZipOk);
  }

  /** The `city_zip` refill from the filtered rows: normalise, keep the
      first row of each key, insert. */
  method CityZipTable(rows: seq<CsvRow>, col: StateColumn, filter: Option<string>, cityZipOk: CityZip -> bool)
    returns (inserted: seq<CityZip>)
    requires filter.Some? && filter.value != [] ==> forall k :: 0 <= k < |rows| ==> StateCell(rows[k], col) == filter
    ensures forall i, j :: 0 <= i < j < |inserted| ==> Key(inserted[i]) != Key(inserted[j])
    ensures forall i :: 0 <= i < |inserted| ==>
      |inserted[i].zip| == 5 && inserted[i].city != [] && inserted[i].state != []
    ensures filter.Some? && filter.value != [] ==> forall i :: 0 <= i < |inserted| ==>
      inserted[i].state == PyTake(Strip(filter.value), 10)
    ensures inserted == Filter(FirstByKey(NormalizedRows(rows, col)), cityZipOk)
  {
    var normal := NormalizedRows(rows, col);
    inserted := CityZipRows(normal, cityZipOk);
    forall i | 0 <= i < |inserted|
      ensures |inserted[i].zip| == 5 && inserted[i].city != [] && inserted[i].state != []
      ensures filter.Some? && filter.value != [] ==> inserted[i].state == PyTake(Strip(filter.value), 10)
    {
      NormalizedRow(rows, col, filter, inserted[i]);
    }
  }
}
