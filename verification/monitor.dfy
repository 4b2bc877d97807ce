/** `craigslist_monitor.main`: one monitoring pass (`run_once`) over the
    listings of the RSS feed, the seen-id state kept between passes, and the
    pause between passes.

    The configuration file, the state file, the HTTP request and the
    Telegram API are parameters: the configuration as already-parsed
    sections, the state file as what reading it yields, the feed as an
    oracle from URL to entries (or an exception). */
module Monitor {

  import opened Wrappers
  import opened Text
  import opened Scraper
  import opened Telegram

  // ---------------------------------------------------------------------------
  // Configuration

  /** The `[craigslist]` section; a key the file leaves out is `None`. */
  datatype SearchSection = SearchSection(
    site: Option<string>,
    category: Option<string>,
    query: Option<string>,
    minPrice: Option<int>,
    maxPrice: Option<int>)

  /** The `[telegram]` section. */
  datatype TelegramSection = TelegramSection(token: Option<string>, chatId: Option<string>)

  datatype MonitorConfig = MonitorConfig(
    craigslist: SearchSection,
    telegram: TelegramSection,
    intervalMinutes: Option<int>)

  /** What `run_once` passes to `fetch_listings`. */
  datatype Search = Search(site: string, category: string, query: string, minPrice: int, maxPrice: int)

  /** The search settings: a missing site is `philadelphia`, a missing
      category `sss`, a missing query empty, and a missing or zero price
      bound 0. */
  function SearchOf(c: SearchSection): (s: Search)
    ensures c.site.None? ==> s.site == "philadelphia"
    ensures c.site.Some? ==> s.site == c.site.value
    ensures c.category.None? ==> s.category == "sss"
    ensures c.category.Some? ==> s.category == c.category.value
    ensures s.query == if c.query.Some? then c.query.value else ""
    ensures c.minPrice.None? ==> s.minPrice == 0
    ensures c.minPrice.Some? ==> s.minPrice == c.minPrice.value
    ensures c.maxPrice.None? ==> s.maxPrice == 0
    ensures c.maxPrice.Some? ==> s.maxPrice == c.maxPrice.value
  {
    Search(
      c.site.GetOr("philadelphia"),
      c.category.GetOr("sss"),
      c.query.GetOr(""),
      c.minPrice.GetOr(0),
      c.maxPrice.GetOr(0))
  }

  datatype Credentials = Credentials(token: string, chatId: string)

  /** Whether listings go to Telegram. */
  predicate Notifies(c: Credentials) {
    c.token != [] && c.chatId != []
  }

  /** The stripped token and chat id; both emptied when either is missing
      or blank, so they are both set or both empty. */
  function CredentialsOf(t: TelegramSection): (c: Credentials)
    ensures c.token == [] <==> c.chatId == []
    ensures Notifies(c) <==> Strip(OrElse(t.token, "")) != [] && Strip(OrElse(t.chatId, "")) != []
    ensures Notifies(c) ==> c.token == Strip(t.token.value) && c.chatId == Strip(t.chatId.value)
  {
    var token := Strip(OrElse(t.token, ""));
    var chatId := Strip(OrElse(t.chatId, ""));
    if token == [] || chatId == [] then Credentials("", "") else Credentials(token, chatId)
  }

  // ---------------------------------------------------------------------------
  // The seen-id state file

  /** What reading the state file gives: no file, a file that cannot be
      read or parsed as a JSON object, or an object with or without an
      `ids` list. */
  datatype StateFile = Missing | Unreadable | Stored(ids: Option<seq<string>>)

  /** `load_seen`: the stored ids, or none at all when the file is missing,
      unreadable or has no `ids` entry. */
  function LoadSeen(f: StateFile): (seen: set<string>)
    ensures f.Stored? && f.ids.Some? ==> forall id :: id in seen <==> id in f.ids.value
    ensures !(f.Stored? && f.ids.Some?) ==> seen == {}
  {
    if f.Stored? && f.ids.Some? then set k | 0 <= k < |f.ids.value| :: f.ids.value[k] else {}
  }

  /** `order` lists the ids of `seen`, each once: what `list(seen)` gives, in
      an order Python leaves unspecified. */
  ghost predicate Enumerates(order: seq<string>, seen: set<string>) {
    && (forall i, j :: 0 <= i < j < |order| ==> order[i] != order[j])
    && (forall id :: id in seen <==> id in order)
  }

  /** The ids `save_seen` writes, as the code computes them: the list cut to
      `ids[-max_size:]` when it is longer than `max_size`. For a positive
      `max_size` that is the last `max_size` ids; for 0 the slice `ids[-0:]`
      is the whole list. */
  function SavedIdsAsWritten(order: seq<string>, maxSize: int): (ids: seq<string>)
    ensures |ids| <= |order| && ids == order[|order| - |ids|..]
  {
    if |order| > maxSize then PyDrop(order, -maxSize) else order
  }

  /** With `max_size` 0 the written list keeps every id rather than none. */
  lemma SavedIdsAsWrittenIgnoresZero()
    ensures SavedIdsAsWritten(["a"], 0) == ["a"]
  {
  }

  /** The ids `save_seen` is meant to write: at most `maxSize` of them, the
      last ones of the list. */
  function SavedIds(order: seq<string>, maxSize: nat): (ids: seq<string>)
    ensures |ids| == if |order| <= maxSize then |order| else maxSize
    ensures ids == order[|order| - |ids|..]
  {
    if |order| > maxSize then order[|order| - maxSize..] else order
  }

  /** For every positive cap, which is the only kind the code passes, the
      code and the intended cap agree. */
  lemma SavedIdsAgree(order: seq<string>, maxSize: nat)
    requires maxSize > 0
    ensures SavedIdsAsWritten(order, maxSize) == SavedIds(order, maxSize)
  {
  }

  /** The cap `save_seen` uses. */
  const MaxSeen: nat := 5000

  /** With its default cap, `save_seen` writes at most 5000 ids, the last
      ones of the list. */
  lemma SaveSeenCapped(order: seq<string>)
    ensures |SavedIdsAsWritten(order, MaxSeen)| <= MaxSeen
    ensures SavedIdsAsWritten(order, MaxSeen) == order[|order| - |SavedIdsAsWritten(order, MaxSeen)|..]
  {
    SavedIdsAgree(order, MaxSeen);
  }

  /** Reading back what `save_seen` wrote gives ids of the saved set, and
      all of them when the set fits under the cap. */
  lemma SaveLoadRoundTrip(seen: set<string>, order: seq<string>, maxSize: nat)
    requires Enumerates(order, seen)
    ensures LoadSeen(Stored(Some(SavedIds(order, maxSize)))) <= seen
    ensures |seen| <= maxSize ==> LoadSeen(Stored(Some(SavedIds(order, maxSize)))) == seen
  {
    var ids := SavedIds(order, maxSize);
    var back := LoadSeen(Stored(Some(ids)));
    assert back <= seen by {
      forall id | id in back ensures id in seen {
        var k :| 0 <= k < |ids| && ids[k] == id;
        assert order[|order| - |ids| + k] == id;
      }
    }
    if |seen| <= maxSize {
      assert ids == order by {
        DistinctCard(order, seen);
      }
      assert back == seen;
    }
  }

  /** A duplicate-free list of a set is as long as the set. */
  lemma {:induction false} DistinctCard(order: seq<string>, seen: set<string>)
    requires Enumerates(order, seen)
    ensures |order| == |seen|
    decreases |order|
  {
    if |order| > 0 {
      var last := order[|order| - 1];
      var init := order[..|order| - 1];
      assert last !in init;
      forall id ensures id in seen - {last} <==> id in init {
        if id in order && id != last {
          var k :| 0 <= k < |order| && order[k] == id;
          assert init[k] == id;
        }
      }
      DistinctCard(init, seen - {last});
    } else {
      assert forall id :: id !in seen;
      assert seen == {};
    }
  }

  // ---------------------------------------------------------------------------
  // The dedupe loop of run_once

  /** The ids of a run of listings. */
  function Ids(ls: seq<Listing>): set<string>
    decreases |ls|
  {
    if |ls| == 0 then {} else Ids(ls[..|ls| - 1]) + {ls[|ls| - 1].id}
  }

  lemma IdsMembership(ls: seq<Listing>, id: string)
    ensures id in Ids(ls) <==> exists k :: 0 <= k < |ls| && ls[k].id == id
    decreases |ls|
  {
    if |ls| > 0 {
      var init := ls[..|ls| - 1];
      IdsMembership(init, id);
      if exists k :: 0 <= k < |init| && init[k].id == id {
        var k :| 0 <= k < |init| && init[k].id == id;
        assert ls[k].id == id;
      }
      if exists k :: 0 <= k < |ls| && ls[k].id == id {
        var k :| 0 <= k < |ls| && ls[k].id == id;
        if k < |init| { assert init[k].id == id; }
      }
    }
  }

  /** The listings `run_once` treats as new, in feed order: each one whose
      id is neither in `seen` nor carried by an earlier listing. */
  function NewListings(seen: set<string>, ls: seq<Listing>): (unseen: seq<Listing>)
    decreases |ls|
  {
    if |ls| == 0 then []
    else
      var init := ls[..|ls| - 1];
      var last := ls[|ls| - 1];
      NewListings(seen, init) + (if last.id in seen + Ids(init) then [] else [last])
  }

  /** The ids of a run of listings, without repetition, are as many as the
      listings. */
  lemma {:induction false} DistinctIdsCount(unseen: seq<Listing>)
    requires forall i, j :: 0 <= i < j < |unseen| ==> unseen[i].id != unseen[j].id
    ensures |Ids(unseen)| == |unseen|
    decreases |unseen|
  {
    if |unseen| > 0 {
      var init := unseen[..|unseen| - 1];
      var last := unseen[|unseen| - 1];
      DistinctIdsCount(init);
      IdsMembership(init, last.id);
    }
  }

  /** The ids of the new listings are the fetched ids not seen before. */
  lemma {:induction false} NewListingsIds(seen: set<string>, ls: seq<Listing>)
    ensures Ids(NewListings(seen, ls)) == Ids(ls) - seen
    decreases |ls|
  {
    if |ls| > 0 {
      var init := ls[..|ls| - 1];
      var last := ls[|ls| - 1];
      var before := NewListings(seen, init);
      NewListingsIds(seen, init);
      assert Ids(ls) == Ids(init) + {last.id};
      if last.id !in seen + Ids(init) {
        var unseen := before + [last];
        assert unseen[..|unseen| - 1] == before;
        assert Ids(unseen) == Ids(before) + {last.id};
      } else {
        assert NewListings(seen, ls) == before;
      }
    }
  }

  /** Every new listing is one of the fetched listings, with an id not seen
      before. */
  lemma {:induction false} NewListingsFrom(seen: set<string>, ls: seq<Listing>)
    ensures forall i :: 0 <= i < |NewListings(seen, ls)| ==>
      NewListings(seen, ls)[i].id !in seen && NewListings(seen, ls)[i] in ls
    decreases |ls|
  {
    if |ls| > 0 {
      var init := ls[..|ls| - 1];
      var before := NewListings(seen, init);
      NewListingsFrom(seen, init);
      var unseen := NewListings(seen, ls);
      forall i | 0 <= i < |unseen| ensures unseen[i].id !in seen && unseen[i] in ls {
        if i < |before| {
          assert unseen[i] == before[i];
          assert before[i] in init;
        }
      }
    }
  }

  /** No two new listings share an id. */
  lemma {:induction false} NewListingsDistinct(seen: set<string>, ls: seq<Listing>)
    ensures var unseen := NewListings(seen, ls);
      forall i, j :: 0 <= i < j < |unseen| ==> unseen[i].id != unseen[j].id
    decreases |ls|
  {
    if |ls| > 0 {
      var init := ls[..|ls| - 1];
      var last := ls[|ls| - 1];
      var before := NewListings(seen, init);
      NewListingsDistinct(seen, init);
      if last.id !in seen + Ids(init) {
        var unseen := before + [last];
        NewListingsIds(seen, init);
        forall i | 0 <= i < |before| ensures before[i].id != last.id {
          IdsMembership(before, before[i].id);
        }
        assert forall i, j :: 0 <= i < j < |unseen| ==> unseen[i].id != unseen[j].id by {
          forall i, j | 0 <= i < j < |unseen| ensures unseen[i].id != unseen[j].id {
            if j < |before| { assert unseen[i] == before[i] && unseen[j] == before[j]; }
            else { assert unseen[i] == before[i] && unseen[j] == last; }
          }
        }
      }
    }
  }

  /** The `for` loop of `run_once`: every listing whose id is not yet in
      `seen` is added to it and counted as new, so an id repeated in one
      batch is new only once. Ends with `seen` grown by all fetched ids, and
      the new listings those ids not seen before, each once, in feed order. */
  method Dedupe(seen0: set<string>, ls: seq<Listing>) returns (seen: set<string>, unseen: seq<Listing>)
    ensures seen == seen0 + Ids(ls)
    ensures unseen == NewListings(seen0, ls)
    ensures forall i, j :: 0 <= i < j < |unseen| ==> unseen[i].id != unseen[j].id
    ensures forall i :: 0 <= i < |unseen| ==> unseen[i].id !in seen0 && unseen[i] in ls
    ensures Ids(unseen) == Ids(ls) - seen0
    ensures |unseen| == |Ids(ls) - seen0|
  {
    seen := seen0;
    unseen := [];
    var i := 0;
    while i < |ls|
      invariant 0 <= i <= |ls|
      invariant seen == seen0 + Ids(ls[..i])
      invariant unseen == NewListings(seen0, ls[..i])
    {
      var l := ls[i];
      assert ls[..i + 1][..i] == ls[..i];
      assert ls[..i + 1][i] == l;
      if l.id !in seen {
        unseen := unseen + [l];
      }
      seen := seen + {l.id};
      i := i + 1;
    }
    assert ls[..i] == ls;
    NewListingsIds(seen0, ls);
    NewListingsFrom(seen0, ls);
    NewListingsDistinct(seen0, ls);
    DistinctIdsCount(unseen);
  }

  // ---------------------------------------------------------------------------
  // run_once

  /** What one pass does: the seen set it returns, the new listings sent to
      Telegram or only logged, and whether it saved the seen set. */
  datatype Report = Report(seen: set<string>, sent: seq<Listing>, logged: seq<Listing>, saved: bool)

  /** The part of `run_once` after a successful fetch: the dedupe loop,
      each new listing sent when `notify` holds and logged otherwise, and
      the save when something was new. */
  method Pass(seen0: set<string>, ls: seq<Listing>, notify: bool) returns (r: Report)
    ensures r.seen == seen0 + Ids(ls)
    ensures r.sent + r.logged == NewListings(seen0, ls)
    ensures |r.sent + r.logged| == |Ids(ls) - seen0|
    ensures r.saved <==> Ids(ls) - seen0 != {}
    ensures r.sent != [] ==> notify
    ensures r.logged != [] ==> !notify
    ensures forall i, j :: 0 <= i < j < |r.sent| ==> r.sent[i].id != r.sent[j].id
    ensures forall i :: 0 <= i < |r.sent| ==> r.sent[i].id !in seen0
  {
    var seen, unseen := Dedupe(seen0, ls);
    r := Report(seen, if notify then unseen else [], if notify then [] else unseen, |unseen| > 0);
    assert r.sent + r.logged == unseen;
  }

  /** `run_once`: load the seen ids, fetch the feed (`fetch` is the request
      and the feed parser; `Raised` is a failed request), then dedupe. New
      listings go to Telegram when both credentials are set and are logged
      otherwise; the seen set is saved only when something was new. */
  method RunOnce(cfg: MonitorConfig, state: StateFile, fetch: string -> Outcome<seq<Entry>>)
    returns (r: Report)
    ensures Fetched(cfg, fetch).Raised? ==> r == Report(LoadSeen(state), [], [], false)
    ensures Fetched(cfg, fetch).Returned? ==>
      var ls := Fetched(cfg, fetch).value;
      && r.seen == LoadSeen(state) + Ids(ls)
      && r.sent + r.logged == NewListings(LoadSeen(state), ls)
      && |r.sent + r.logged| == |Ids(ls) - LoadSeen(state)|
      && (r.saved <==> Ids(ls) - LoadSeen(state) != {})
    ensures r.sent != [] ==> Notifies(CredentialsOf(cfg.telegram))
    ensures r.logged != [] ==> !Notifies(CredentialsOf(cfg.telegram))
    ensures forall i, j :: 0 <= i < j < |r.sent| ==> r.sent[i].id != r.sent[j].id
    ensures forall i :: 0 <= i < |r.sent| ==> r.sent[i].id !in LoadSeen(state)
  {
    var notify := Notifies(CredentialsOf(cfg.telegram));
    var seen0 := LoadSeen(state);
    var fetched := Fetched(cfg, fetch);
    if fetched.Raised? {
      r := Report(seen0, [], [], false);
    } else {
      r := Pass(seen0, fetched.value, notify);
    }
  }

  /** `fetch_listings` called with the configured search. */
  function Fetched(cfg: MonitorConfig, fetch: string -> Outcome<seq<Entry>>): Outcome<seq<Listing>> {
    var s := SearchOf(cfg.craigslist);
    FetchListings(s.site, s.category, s.query, s.minPrice, s.maxPrice, fetch)
  }

  // ---------------------------------------------------------------------------
  // The pause between passes

  /** The sleep in seconds: `interval_minutes` times 60, with a missing or
      zero interval taken as 30 minutes, and never less than a minute. */
  function IntervalSeconds(minutes: Option<int>): (secs: int)
    ensures secs >= 60
    ensures minutes.None? || minutes.value == 0 ==> secs == 1800
    ensures minutes.Some? && minutes.value >= 1 ==> secs == 60 * minutes.value
    ensures minutes.Some? && minutes.value < 0 ==> secs == 60
  {
    var m := if minutes.None? || minutes.value == 0 then 30 else minutes.value;
    if 60 > m * 60 then 60 else m * 60
  }
}
