/** `MySQLCompare.insert_fb_listing`: the upsert of an evaluated listing
    into the configured listings table, keyed by the listing's external id.

    The table is a map from external id to row, which is what
    `INSERT … ON DUPLICATE KEY UPDATE` on a unique external id maintains.
    Whether the connection opens and whether the statement and commit
    succeed are parameters.
 */
module Upsert {

  import opened Wrappers
  import opened Text
  import opened Extract
  import opened Compare

  /** The columns written for one listing (the `updated_at` timestamp is
      left out). */
  datatype FbRow = FbRow(
    title: string,
    description: string,
    askingPrice: Option<real>,
    city: Option<string>,
    state: Option<string>,
    zip: Option<string>,
    url: Option<string>,
    beds: Option<nat>,
    baths: Option<real>,
    countyId: Option<int>,
    regionId: Option<int>)

  type FbTable = map<string, FbRow>

  /** `(s or "")[:n] or None`: an optional text cut to `n` characters, with
      the empty text stored as NULL. */
  function CappedOrNull(s: Option<string>, n: nat): (r: Option<string>)
    ensures r.None? <==> s.None? || s.value == [] || n == 0
    ensures r.Some? ==> |r.value| <= n && r.value <= s.value && r.value != []
    ensures s.Some? && |s.value| <= n && s.value != [] ==> r == s
    ensures s.Some? && |s.value| > n > 0 ==> r == Some(s.value[..n])
  {
    var t := PyTake(s.GetOr(""), n);
    if t == [] then None else Some(t)
  }

  /** The row written for a listing: the parsed price, city, state and zip,
      beds and baths, and the resolved county and region. */
  function RowFor(cfg: Config, geo: GeoTables, l: Listing): (row: FbRow)
    ensures |row.title| <= 500 && row.title <= l.title
    ensures |l.title| <= 500 ==> row.title == l.title
    ensures |l.title| > 500 ==> row.title == l.title[..500]
    ensures |row.description| <= 10000 && row.description <= l.description
    ensures |l.description| <= 10000 ==> row.description == l.description
    ensures |l.description| > 10000 ==> row.description == l.description[..10000]
    ensures row.askingPrice == ParsePrice(l.price)
    ensures row.city.None? <==> ParseLocationParts(l.location).city.None?
    ensures row.city.Some? ==> |row.city.value| <= 200 && row.city.value <= ParseLocationParts(l.location).city.value
    ensures row.city == CappedOrNull(ParseLocationParts(l.location).city, 200)
    ensures row.state == ParseLocationParts(l.location).state
    ensures row.zip == ExtractZip(Strip(l.location))
    ensures row.url.None? <==> l.postUrl == []
    ensures row.url.Some? ==> |row.url.value| <= 2000 && row.url.value <= l.postUrl
    ensures row.url == CappedOrNull(Some(l.postUrl), 2000)
    ensures row.beds == ParseBedsBathsYear(l).beds && row.baths == ParseBedsBathsYear(l).baths
    ensures var loc := ResolveLocation(cfg, geo, l); row.countyId == loc.countyId && row.regionId == loc.regionId
  {
    var parts := ParseLocationParts(l.location);
    var attrs := ParseBedsBathsYear(l);
    var loc := ResolveLocation(cfg, geo, l);
    // The resolved zip is preferred; both come from the same extraction.
    var zip := if loc.zip.Some? then loc.zip else parts.zip;
    FbRow(
      PyTake(l.title, 500),
      PyTake(l.description, 10000),
      ParsePrice(l.price),
      CappedOrNull(parts.city, 200),
      CappedOrNull(parts.state, 10),
      CappedOrNull(zip, 10),
      CappedOrNull(Some(l.postUrl), 2000),
      attrs.beds,
      attrs.baths,
      loc.countyId,
      loc.regionId)
  }

  /** The upsert runs at all: enabled, inserting turned on, and a table
      name that passes the allow-list. */
  predicate InsertEnabled(cfg: Config) {
    cfg.enabled && cfg.insertIntoFb && SafeTable(cfg.fbListingsTable)
  }

  datatype InsertResult = InsertResult(inserted: bool, table: FbTable)

  /** `insert_fb_listing`: `True` and the row stored under the listing's id
      when the upsert is enabled, the connection opens and the statement
      commits; otherwise `False` and the table unchanged (a failed statement
      is rolled back). Rows under other ids are never touched. */
  function InsertFbListing(cfg: Config, geo: GeoTables, l: Listing, connected: bool, writeOk: bool, table: FbTable)
    : (r: InsertResult)
    ensures r.inserted <==> InsertEnabled(cfg) && connected && writeOk
    ensures !r.inserted ==> r.table == table
    ensures r.inserted ==> r.table.Keys == table.Keys + {l.id} && r.table[l.id] == RowFor(cfg, geo, l)
    ensures forall k :: k in table && k != l.id ==> k in r.table && r.table[k] == table[k]
  {
    Put(l.id, RowFor(cfg, geo, l), table, InsertEnabled(cfg) && connected && writeOk)
  }

  /** The effect of `INSERT … ON DUPLICATE KEY UPDATE` on a unique key: a
      committed write stores `row` under `id`, whether or not a row was
      there before; a failed one changes nothing. */
  function Put(id: string, row: FbRow, table: FbTable, ok: bool): (r: InsertResult)
    ensures r.inserted == ok
    ensures !ok ==> r.table == table
    ensures ok ==> r.table.Keys == table.Keys + {id} && r.table[id] == row
    ensures forall k :: k in table && k != id ==> k in r.table && r.table[k] == table[k]
  {
    if !ok then InsertResult(false, table) else InsertResult(true, table[id := row])
  }

  /** Writing the same row twice under one key is writing it once. */
  lemma PutTwice(id: string, row: FbRow, table: FbTable)
    ensures var once := Put(id, row, table, true).table; Put(id, row, once, true).table == once
  {
  }

  /** A later write under a key replaces an earlier one. */
  lemma PutOverwrites(id: string, row1: FbRow, row2: FbRow, table: FbTable)
    ensures Put(id, row2, Put(id, row1, table, true).table, true).table == Put(id, row2, table, true).table
  {
  }

  /** Inserting the same listing twice leaves the table as one insert does. */
  lemma InsertIdempotent(cfg: Config, geo: GeoTables, l: Listing, table: FbTable)
    requires InsertEnabled(cfg)
    ensures var once := InsertFbListing(cfg, geo, l, true, true, table).table;
      InsertFbListing(cfg, geo, l, true, true, once).table == once
  {
    PutTwice(l.id, RowFor(cfg, geo, l), table);
  }

  /** A second listing with the same external id overwrites the first: the
      table is as if only the second had been inserted. */
  lemma LaterInsertWins(cfg: Config, geo: GeoTables, l1: Listing, l2: Listing, table: FbTable)
    requires InsertEnabled(cfg) && l1.id == l2.id
    ensures var t1 := InsertFbListing(cfg, geo, l1, true, true, table).table;
      InsertFbListing(cfg, geo, l2, true, true, t1).table == InsertFbListing(cfg, geo, l2, true, true, table).table
  {
    PutOverwrites(l1.id, RowFor(cfg, geo, l1), RowFor(cfg, geo, l2), table);
  }

  /** Upserting a batch of listings in order, the row of each listing given
      by `rowOf` (in `insert_fb_listing`, `RowFor` with the configuration and
      lookup tables), each write succeeding or not as `writeOk` says. */
  function InsertAll(ls: seq<Listing>, rowOf: Listing -> FbRow, writeOk: Listing -> bool, table: FbTable)
    : (r: FbTable)
    decreases |ls|
  {
    if |ls| == 0 then table
    else
      var last := ls[|ls| - 1];
      Put(last.id, rowOf(last), InsertAll(ls[..|ls| - 1], rowOf, writeOk, table), writeOk(last)).table
  }

  function Ids(ls: seq<Listing>): set<string> {
    set k | 0 <= k < |ls| :: ls[k].id
  }

  /** After a batch whose writes all succeed the table holds exactly one row
      per distinct external id, old or new; each id's row is the one of the
      last listing carrying it, and rows of ids outside the batch are
      unchanged. */
  lemma {:induction false} InsertAllKeys(ls: seq<Listing>, rowOf: Listing -> FbRow, table: FbTable)
    ensures var r := InsertAll(ls, rowOf, _ => true, table);
      && r.Keys == table.Keys + Ids(ls)
      && (forall k :: 0 <= k < |ls| && (forall j :: k < j < |ls| ==> ls[j].id != ls[k].id) ==>
            r[ls[k].id] == rowOf(ls[k]))
      && (forall id :: id in table && id !in Ids(ls) ==> r[id] == table[id])
  {
    InsertAllDomain(ls, rowOf, table);
    InsertAllOthers(ls, rowOf, table);
    forall k | 0 <= k < |ls| && (forall j :: k < j < |ls| ==> ls[j].id != ls[k].id)
      ensures InsertAll(ls, rowOf, _ => true, table)[ls[k].id] == rowOf(ls[k])
    {
      InsertAllLastWins(ls, rowOf, table, k);
    }
  }

  /** The ids of a batch are those of all but its last listing, and the
      last one's. */
  lemma IdsSnoc(ls: seq<Listing>)
    requires |ls| > 0
    ensures Ids(ls) == Ids(ls[..|ls| - 1]) + {ls[|ls| - 1].id}
  {
    var init := ls[..|ls| - 1];
    forall id | id in Ids(ls) ensures id in Ids(init) + {ls[|ls| - 1].id} {
      var k :| 0 <= k < |ls| && ls[k].id == id;
      if k < |ls| - 1 { assert init[k] == ls[k]; }
    }
    forall id | id in Ids(init) ensures id in Ids(ls) {
      var k :| 0 <= k < |init| && init[k].id == id;
      assert ls[k] == init[k];
    }
  }

  lemma {:induction false} InsertAllDomain(ls: seq<Listing>, rowOf: Listing -> FbRow, table: FbTable)
    ensures InsertAll(ls, rowOf, _ => true, table).Keys == table.Keys + Ids(ls)
    decreases |ls|
  {
    if |ls| > 0 {
      InsertAllDomain(ls[..|ls| - 1], rowOf, table);
      IdsSnoc(ls);
    }
  }

  lemma {:induction false} InsertAllOthers(ls: seq<Listing>, rowOf: Listing -> FbRow, table: FbTable)
    ensures forall id :: id in table && id !in Ids(ls) ==>
      id in InsertAll(ls, rowOf, _ => true, table) && InsertAll(ls, rowOf, _ => true, table)[id] == table[id]
    decreases |ls|
  {
    if |ls| > 0 {
      InsertAllOthers(ls[..|ls| - 1], rowOf, table);
      IdsSnoc(ls);
    }
  }

  /** The row under an id is that of the last listing of the batch carrying
      it. */
  lemma {:induction false} InsertAllLastWins(ls: seq<Listing>, rowOf: Listing -> FbRow, table: FbTable, k: nat)
    requires k < |ls| && forall j :: k < j < |ls| ==> ls[j].id != ls[k].id
    ensures ls[k].id in InsertAll(ls, rowOf, _ => true, table)
    ensures InsertAll(ls, rowOf, _ => true, table)[ls[k].id] == rowOf(ls[k])
    decreases |ls|
  {
    var init := ls[..|ls| - 1];
    if k < |ls| - 1 {
      assert init[k] == ls[k];
      forall j | k < j < |init| ensures init[j].id != init[k].id {
        assert init[j] == ls[j];
      }
      InsertAllLastWins(init, rowOf, table, k);
    }
  }
}
