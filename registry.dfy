/** Feeds, the entries found in them and the links between the two:
    `Feed.refresh_feed`, `Feed.entries` and `Entry.get_or_create`
    (diffengine/__init__.py:45-100, 232-235 and diffengine/model/Feed.py).
    The `Entry` and `FeedEntry` tables are fields of a `Registry` object. */
module Registry {
  import opened Common
  import opened Urls
  import opened Versions

  /** A `Feed` row; refreshing never changes it. */
  datatype Feed = Feed(url: string, name: string)

  /** A `FeedEntry` row: entry `entry` was found in the feed at `feed`. */
  datatype Link = Link(feed: string, entry: nat, created: Time)

  /** The unchanging part of an `Entry` row. */
  datatype Row = Row(id: nat, url: string, created: Time)

  /** The result of fetching and parsing a feed: `_get` or `feedparser`
      raised, or the `link` of every item in document order. */
  datatype FeedFetch = FeedRaised | Parsed(items: seq<string>)

  function Rows(entries: seq<Entry>): seq<Row> {
    seq(|entries|, i requires 0 <= i < |entries| => Row(entries[i].id, entries[i].url, entries[i].created))
  }

  /** Entry ids are below the counter and increasing, and no two entries
      share a URL (every entry comes from `get_or_create` by URL). */
  predicate RowsValid(rows: seq<Row>, nextId: nat) {
    && (forall i | 0 <= i < |rows| :: rows[i].id < nextId)
    && (forall i, j | 0 <= i < j < |rows| :: rows[i].id < rows[j].id)
    && (forall i, j | 0 <= i < j < |rows| :: rows[i].url != rows[j].url)
  }

  /** `len(entry.feeds.where(Feed.url == feed)) != 0` */
  predicate Linked(links: seq<Link>, feed: string, entry: nat) {
    exists k | 0 <= k < |links| :: links[k].feed == feed && links[k].entry == entry
  }

  /** No (feed, entry) pair is linked twice. */
  predicate LinksUnique(links: seq<Link>) {
    forall i, j | 0 <= i < j < |links| :: links[i].feed != links[j].feed || links[i].entry != links[j].entry
  }

  /** The entry rows are valid, links name only handed-out entry ids, and
      no link is repeated. */
  predicate TablesValid(rows: seq<Row>, links: seq<Link>, nextId: nat) {
    && RowsValid(rows, nextId)
    && (forall k | 0 <= k < |links| :: links[k].entry < nextId)
    && LinksUnique(links)
  }

  /** `Entry.get(url=url)`: the entry with this URL, if any. */
  function FindRow(rows: seq<Row>, url: string): (r: Option<Row>)
    ensures r.None? <==> forall i | 0 <= i < |rows| :: rows[i].url != url
    ensures r.Some? ==> r.value in rows && r.value.url == url
  {
    if rows == [] then None
    else if rows[0].url == url then Some(rows[0])
    else FindRow(rows[1..], url)
  }

  /** The state `refresh_feed` threads through its loop: the two tables,
      the per-run `dupe_table` (entry ids: peewee compares rows by primary
      key), `count` and `dupe_count`. */
  datatype Pass = Pass(rows: seq<Row>, links: seq<Link>, nextId: nat,
                       seen: seq<nat>, count: nat, dupes: nat)

  /** One loop iteration for item link `item`. `checkDupes` is the test at
      diffengine/__init__.py:84 (`entry in dupe_table`); the copy in
      diffengine/model/Feed.py:52 tests `created in dupe_table`, a boolean
      against entry rows, which never holds. */
  function Step(p: Pass, feed: string, item: string, now: Time, checkDupes: bool): Pass {
    StepUrl(p, feed, SanitizeUrl(item), now, checkDupes)
  }

  /** The iteration once the link is sanitized to `url`. */
  function StepUrl(p: Pass, feed: string, url: string, now: Time, checkDupes: bool): Pass {
    var found := FindRow(p.rows, url);
    var created := found.None?;
    var row := if created then Row(p.nextId, url, now) else found.value;
    var rows := if created then p.rows + [row] else p.rows;
    var nextId := if created then p.nextId + 1 else p.nextId;
    LinkStep(p.(rows := rows, nextId := nextId), feed, row.id, created, now, checkDupes)
  }

  /** The iteration once `get_or_create` has returned entry `id`, with
      `created` its flag: the duplicate test, then the link. */
  function LinkStep(p: Pass, feed: string, id: nat, created: bool, now: Time, checkDupes: bool): Pass {
    if checkDupes && id in p.seen then
      p.(dupes := p.dupes + 1)
    else if created || !Linked(p.links, feed, id) then
      p.(links := p.links + [Link(feed, id, now)], seen := p.seen + [id], count := p.count + 1)
    else
      p.(seen := p.seen + [id])
  }

  /** The loop of `refresh_feed` over `items`. */
  function Refresh(p: Pass, feed: string, items: seq<string>, now: Time, checkDupes: bool): Pass
    decreases |items|
  {
    if items == [] then p
    else Step(Refresh(p, feed, items[..|items| - 1], now, checkDupes), feed, items[|items| - 1], now, checkDupes)
  }

  function Start(rows: seq<Row>, links: seq<Link>, nextId: nat): Pass {
    Pass(rows, links, nextId, [], 0, 0)
  }

  /** `Feed.entries`: the feed's entries, one per link, newest first. */
  function FeedEntries(entries: seq<Entry>, links: seq<Link>, feed: string): (r: seq<Entry>)
    ensures SortedNewestFirst(r)
    ensures multiset(r) == multiset(Joined(entries, links, feed))
  {
    SortNewestFirst(Joined(entries, links, feed))
  }

  /** The inner join of entries and links restricted to `feed`, in link order. */
  function Joined(entries: seq<Entry>, links: seq<Link>, feed: string): seq<Entry>
  {
    if links == [] then []
    else
      var rest := Joined(entries, links[..|links| - 1], feed);
      var l := links[|links| - 1];
      if l.feed == feed then rest + EntriesWithId(entries, l.entry) else rest
  }

  function EntriesWithId(entries: seq<Entry>, id: nat): (r: seq<Entry>)
    ensures forall e | e in r :: e in entries && e.id == id
    ensures forall e | e in entries && e.id == id :: e in r
  {
    if entries == [] then []
    else
      var last := entries[|entries| - 1];
      EntriesWithId(entries[..|entries| - 1], id) + (if last.id == id then [last] else [])
  }

  predicate SortedNewestFirst(s: seq<Entry>) {
    forall i, j | 0 <= i < j < |s| :: s[i].created >= s[j].created
  }

  /** `order_by(Entry.created.desc())`, as an insertion sort. */
  function SortNewestFirst(s: seq<Entry>): (r: seq<Entry>)
    ensures SortedNewestFirst(r) && multiset(r) == multiset(s)
  {
    if s == [] then []
    else
      assert s == [s[0]] + s[1..];
      Insert(s[0], SortNewestFirst(s[1..]))
  }

  function Insert(e: Entry, s: seq<Entry>): (r: seq<Entry>)
    requires SortedNewestFirst(s)
    ensures SortedNewestFirst(r) && multiset(r) == multiset(s) + multiset{e}
    ensures |r| == |s| + 1
  {
    if s == [] || e.created >= s[0].created then
      ConsSorted(e, s);
      [e] + s
    else
      var t := Insert(e, s[1..]);
      assert s == [s[0]] + s[1..];
      assert t[0] in multiset(s[1..]) + multiset{e};
      assert s[0].created >= t[0].created by {
        if t[0] != e {
          var k :| 0 <= k < |s[1..]| && s[1..][k] == t[0];
          assert s[k + 1] == t[0];
        }
      }
      ConsSorted(s[0], t);
      [s[0]] + t
  }

  lemma ConsSorted(x: Entry, t: seq<Entry>)
    requires SortedNewestFirst(t) && (|t| > 0 ==> x.created >= t[0].created)
    ensures SortedNewestFirst([x] + t)
  {
    var r := [x] + t;
    forall i, j | 0 <= i < j < |r| ensures r[i].created >= r[j].created {
      if i == 0 {
        assert r[j] == t[j - 1];
      } else {
        assert r[i] == t[i - 1] && r[j] == t[j - 1];
      }
    }
  }

  /** The `Entry` and `FeedEntry` tables. */
  class Registry {
    var entries: seq<Entry>
    var links: seq<Link>
    var nextEntryId: nat

    predicate Valid()
      reads this
    {
      TablesValid(Rows(entries), links, nextEntryId)
    }

    constructor()
      ensures Valid() && entries == [] && links == [] && nextEntryId == 1
    {
      entries := [];
      links := [];
      nextEntryId := 1;
    }

    /** `Entry.get_or_create(url=url)` */
    method GetOrCreate(url: string, now: Time) returns (e: Entry, created: bool)
      requires Valid()
      modifies this
      ensures Valid() && links == old(links)
      ensures created <==> FindRow(Rows(old(entries)), url).None?
      ensures Rows(entries) == Rows(old(entries)) + (if created then [Row(e.id, e.url, e.created)] else [])
      ensures !created ==>
        && entries == old(entries) && nextEntryId == old(nextEntryId)
        && e in entries && Some(Row(e.id, e.url, e.created)) == FindRow(Rows(entries), url)
      ensures created ==>
        && entries == old(entries) + [e] && nextEntryId == old(nextEntryId) + 1
        && fresh(e) && e.id == old(nextEntryId) && e.url == url && e.created == now
        && e.checked == Some(now)
    {
      var i := 0;
      while i < |entries|
        invariant 0 <= i <= |entries|
        invariant forall j | 0 <= j < i :: entries[j].url != url
      {
        if entries[i].url == url {
          e, created := entries[i], false;
          RowsUnique(Rows(entries), nextEntryId, i, url);
          return;
        }
        i := i + 1;
      }
      e := new Entry(nextEntryId, url, now);
      created := true;
      entries := entries + [e];
      nextEntryId := nextEntryId + 1;
      assert Rows(entries) == Rows(old(entries)) + [Row(e.id, e.url, e.created)];
      RowsAppend(Rows(old(entries)), old(nextEntryId), url, now);
    }

    /** One iteration of the loop in `refresh_feed`. */
    method RefreshItem(feed: string, item: string, now: Time, checkDupes: bool,
                       seen: seq<nat>, count: nat, dupes: nat)
      returns (seen': seq<nat>, count': nat, dupes': nat)
      requires Valid()
      modifies this
      ensures Valid()
      ensures Pass(Rows(entries), links, nextEntryId, seen', count', dupes')
        == Step(Pass(Rows(old(entries)), old(links), old(nextEntryId), seen, count, dupes), feed, item, now, checkDupes)
      ensures |entries| >= |old(entries)| && entries[..|old(entries)|] == old(entries)
      ensures forall j | |old(entries)| <= j < |entries| :: fresh(entries[j]) && entries[j].checked == Some(now)
    {
      var url := SanitizeUrl(item);
      seen', count', dupes' := RefreshUrl(feed, url, now, checkDupes, seen, count, dupes);
    }

    /** The body of the loop in `refresh_feed` after `_sanitize_url`. */
    method RefreshUrl(feed: string, url: string, now: Time, checkDupes: bool,
                      seen: seq<nat>, count: nat, dupes: nat)
      returns (seen': seq<nat>, count': nat, dupes': nat)
      requires Valid()
      modifies this
      ensures Valid()
      ensures Pass(Rows(entries), links, nextEntryId, seen', count', dupes')
        == StepUrl(Pass(Rows(old(entries)), old(links), old(nextEntryId), seen, count, dupes), feed, url, now, checkDupes)
      ensures |entries| >= |old(entries)| && entries[..|old(entries)|] == old(entries)
      ensures forall j | |old(entries)| <= j < |entries| :: fresh(entries[j]) && entries[j].checked == Some(now)
    {
      var entry, created := GetOrCreate(url, now);
      seen', count', dupes' := LinkEntry(feed, entry.id, created, now, checkDupes, seen, count, dupes);
    }

    /** The duplicate test and the `FeedEntry.create` of the loop in
        `refresh_feed`, for entry `id` as `get_or_create` returned it. */
    method LinkEntry(feed: string, id: nat, created: bool, now: Time, checkDupes: bool,
                     seen: seq<nat>, count: nat, dupes: nat)
      returns (seen': seq<nat>, count': nat, dupes': nat)
      requires Valid() && id < nextEntryId
      requires created ==> forall k | 0 <= k < |links| :: links[k].entry < id
      modifies this
      ensures Valid() && entries == old(entries) && nextEntryId == old(nextEntryId)
      ensures Pass(Rows(entries), links, nextEntryId, seen', count', dupes')
        == LinkStep(Pass(Rows(entries), old(links), nextEntryId, seen, count, dupes), feed, id, created, now, checkDupes)
    {
      seen', count', dupes' := seen, count, dupes;
      if checkDupes && id in seen {
        dupes' := dupes + 1;
      } else {
        seen' := seen + [id];
        if created || !Linked(links, feed, id) {
          LinkKeepsValid(Rows(entries), links, nextEntryId, feed, id, now, created);
          links := links + [Link(feed, id, now)];
          count' := count + 1;
        }
      }
    }

    /** `Feed.refresh_feed()`; `checkDupes` selects the test of
        diffengine/__init__.py:84 (true) or diffengine/model/Feed.py:52
        (false). Returns `count`. */
    method RefreshFeed(feed: Feed, fetch: FeedFetch, now: Time, checkDupes: bool) returns (count: nat)
      requires Valid()
      modifies this
      ensures Valid()
      ensures fetch.FeedRaised? ==>
        count == 0 && entries == old(entries) && links == old(links) && nextEntryId == old(nextEntryId)
      ensures fetch.Parsed? ==>
        var p := Refresh(Start(Rows(old(entries)), old(links), old(nextEntryId)), feed.url, fetch.items, now, checkDupes);
        && Rows(entries) == p.rows && links == p.links && nextEntryId == p.nextId && count == p.count
      ensures fetch.Parsed? ==> forall k | 0 <= k < |fetch.items| ::
        FindRow(Rows(entries), SanitizeUrl(fetch.items[k])).Some?
        && LinkCount(links, feed.url, FindRow(Rows(entries), SanitizeUrl(fetch.items[k])).value.id) == 1
      ensures |entries| >= |old(entries)| && entries[..|old(entries)|] == old(entries)
      ensures forall j | |old(entries)| <= j < |entries| :: fresh(entries[j]) && entries[j].checked == Some(now)
    {
      if fetch.FeedRaised? {
        return 0;
      }
      ghost var start := Start(Rows(entries), links, nextEntryId);
      count := RefreshItems(feed.url, fetch.items, now, checkDupes);
      RefreshLinksEveryItem(start, feed.url, fetch.items, now, checkDupes);
    }

    /** The loop over `feed.entries` in `refresh_feed`, from an empty
        duplicate table and zero counts. */
    method RefreshItems(feed: string, items: seq<string>, now: Time, checkDupes: bool) returns (count: nat)
      requires Valid()
      modifies this
      ensures Valid()
      ensures var p := Refresh(Start(Rows(old(entries)), old(links), old(nextEntryId)), feed, items, now, checkDupes);
        && Rows(entries) == p.rows && links == p.links && nextEntryId == p.nextId && count == p.count
      ensures |entries| >= |old(entries)| && entries[..|old(entries)|] == old(entries)
      ensures forall j | |old(entries)| <= j < |entries| :: fresh(entries[j]) && entries[j].checked == Some(now)
    {
      ghost var start := Start(Rows(entries), links, nextEntryId);
      count := 0;
      var dupeCount := 0;
      var dupeTable: seq<nat> := [];
      var i := 0;
      while i < |items|
        invariant 0 <= i <= |items|
        invariant Valid()
        invariant Refresh(start, feed, items[..i], now, checkDupes)
          == Pass(Rows(entries), links, nextEntryId, dupeTable, count, dupeCount)
        invariant |entries| >= |old(entries)| && entries[..|old(entries)|] == old(entries)
        invariant forall j | |old(entries)| <= j < |entries| :: fresh(entries[j]) && entries[j].checked == Some(now)
      {
        assert items[..i + 1][..i] == items[..i];
        ghost var before := entries;
        dupeTable, count, dupeCount := RefreshItem(feed, items[i], now, checkDupes, dupeTable, count, dupeCount);
        forall j | |old(entries)| <= j < |before|
          ensures fresh(entries[j]) && entries[j].checked == Some(now)
        {
          assert entries[j] == before[j];
        }
        i := i + 1;
      }
      assert items[..|items|] == items;
    }
  }

  // ---------------------------------------------------------------------
  // Lemmas

  lemma RowsUnique(rows: seq<Row>, nextId: nat, i: nat, url: string)
    requires RowsValid(rows, nextId) && i < |rows| && rows[i].url == url
    ensures FindRow(rows, url) == Some(rows[i])
  {
  }

  lemma RowsAppend(rows: seq<Row>, nextId: nat, url: string, now: Time)
    requires RowsValid(rows, nextId) && FindRow(rows, url).None?
    ensures RowsValid(rows + [Row(nextId, url, now)], nextId + 1)
  {
  }

  /** A link for an entry that is new, or not yet linked to the feed, keeps
      links unique. */
  lemma LinkKeepsUnique(links: seq<Link>, feed: string, entry: nat, now: Time, created: bool, nextId: nat)
    requires LinksUnique(links)
    requires created ==> forall k | 0 <= k < |links| :: links[k].entry < entry
    requires created || !Linked(links, feed, entry)
    ensures LinksUnique(links + [Link(feed, entry, now)])
  {
  }

  /** Such a link, for an entry id already handed out, keeps the tables valid. */
  lemma LinkKeepsValid(rows: seq<Row>, links: seq<Link>, nextId: nat, feed: string, entry: nat,
                       now: Time, created: bool)
    requires TablesValid(rows, links, nextId) && entry < nextId
    requires created ==> forall k | 0 <= k < |links| :: links[k].entry < entry
    requires created || !Linked(links, feed, entry)
    ensures TablesValid(rows, links + [Link(feed, entry, now)], nextId)
  {
    LinkKeepsUnique(links, feed, entry, now, created, nextId);
  }

  /** How many links join `feed` to `entry`. */
  function LinkCount(links: seq<Link>, feed: string, entry: nat): nat {
    if links == [] then 0
    else
      var l := links[|links| - 1];
      LinkCount(links[..|links| - 1], feed, entry) + (if l.feed == feed && l.entry == entry then 1 else 0)
  }

  /** What holds of the tables and the loop state between iterations. */
  predicate Inv(p: Pass, feed: string) {
    && TablesValid(p.rows, p.links, p.nextId)
    && (forall i | 0 <= i < |p.seen| :: p.seen[i] < p.nextId && Linked(p.links, feed, p.seen[i]))
  }

  lemma FindRowBelow(rows: seq<Row>, nextId: nat, url: string)
    requires RowsValid(rows, nextId) && FindRow(rows, url).Some?
    ensures FindRow(rows, url).value.id < nextId
  {
    var i :| 0 <= i < |rows| && rows[i] == FindRow(rows, url).value;
  }

  lemma LinkedGrows(links: seq<Link>, more: seq<Link>, feed: string, entry: nat)
    requires Linked(links, feed, entry)
    ensures Linked(links + more, feed, entry)
  {
    var k :| 0 <= k < |links| && links[k].feed == feed && links[k].entry == entry;
    assert (links + more)[k] == links[k];
  }

  /** One iteration keeps ids below the counter, URLs and links unique, and
      every entry already seen in this run linked to the feed. */
  lemma StepKeepsInv(p: Pass, feed: string, url: string, now: Time, checkDupes: bool)
    requires Inv(p, feed)
    ensures Inv(StepUrl(p, feed, url, now, checkDupes), feed)
  {
    var found := FindRow(p.rows, url);
    var created := found.None?;
    if found.Some? {
      FindRowBelow(p.rows, p.nextId, url);
    } else {
      RowsAppend(p.rows, p.nextId, url, now);
    }
    var row := if created then Row(p.nextId, url, now) else found.value;
    var q := StepUrl(p, feed, url, now, checkDupes);
    if !(checkDupes && row.id in p.seen) {
      if created || !Linked(p.links, feed, row.id) {
        LinkKeepsUnique(p.links, feed, row.id, now, created, p.nextId);
        assert q.links[|p.links|] == Link(feed, row.id, now);
        forall i | 0 <= i < |p.seen| ensures Linked(q.links, feed, p.seen[i]) {
          LinkedGrows(p.links, [Link(feed, row.id, now)], feed, p.seen[i]);
        }
      }
      assert q.seen[|p.seen|] == row.id;
    }
  }

  /** The whole loop keeps the invariant. */
  lemma {:induction false} RefreshKeepsInv(p: Pass, feed: string, items: seq<string>, now: Time, checkDupes: bool)
    requires Inv(p, feed)
    ensures Inv(Refresh(p, feed, items, now, checkDupes), feed)
    decreases |items|
  {
    if items != [] {
      RefreshKeepsInv(p, feed, items[..|items| - 1], now, checkDupes);
      StepKeepsInv(Refresh(p, feed, items[..|items| - 1], now, checkDupes), feed, SanitizeUrl(items[|items| - 1]), now, checkDupes);
    }
  }

  /** `refresh_feed` only appends: existing entries and links stay, and
      `count` is the number of links added, at most one per item. */
  lemma {:induction false} RefreshCountsLinks(p: Pass, feed: string, items: seq<string>, now: Time, checkDupes: bool)
    ensures var r := Refresh(p, feed, items, now, checkDupes);
      && |p.rows| <= |r.rows| && r.rows[..|p.rows|] == p.rows
      && |p.links| <= |r.links| && r.links[..|p.links|] == p.links
      && r.count == p.count + (|r.links| - |p.links|)
      && r.count <= p.count + |items|
    decreases |items|
  {
    if items != [] {
      var q := Refresh(p, feed, items[..|items| - 1], now, checkDupes);
      RefreshCountsLinks(p, feed, items[..|items| - 1], now, checkDupes);
      var r := Step(q, feed, items[|items| - 1], now, checkDupes);
      assert r.rows[..|q.rows|] == q.rows;
      assert r.links[..|q.links|] == q.links;
      assert r.rows[..|p.rows|] == r.rows[..|q.rows|][..|p.rows|];
      assert r.links[..|p.links|] == r.links[..|q.links|][..|p.links|];
    }
  }

  /** A URL found stays found, at the same entry, while rows are appended
      with fresh URLs. */
  lemma FindRowKept(rows: seq<Row>, more: seq<Row>, url: string)
    requires FindRow(rows, url).Some?
    ensures FindRow(rows + more, url) == FindRow(rows, url)
  {
    if rows[0].url != url {
      assert (rows + more)[1..] == rows[1..] + more;
      FindRowKept(rows[1..], more, url);
    }
  }

  /** After one iteration the item's URL has an entry linked to the feed. */
  lemma StepLinksItem(p: Pass, feed: string, url: string, now: Time, checkDupes: bool)
    requires Inv(p, feed)
    ensures var q := StepUrl(p, feed, url, now, checkDupes);
      FindRow(q.rows, url).Some? && Linked(q.links, feed, FindRow(q.rows, url).value.id)
  {
    var q := StepUrl(p, feed, url, now, checkDupes);
    var found := FindRow(p.rows, url);
    if found.None? {
      assert q.rows == p.rows + [Row(p.nextId, url, now)];
      assert q.rows[|p.rows|].url == url;
      RowsAppend(p.rows, p.nextId, url, now);
      RowsUnique(q.rows, q.nextId, |p.rows|, url);
      FindRowBelow(q.rows, q.nextId, url);
      assert q.links[|p.links|] == Link(feed, p.nextId, now);
    } else {
      var row := found.value;
      if checkDupes && row.id in p.seen {
        var i :| 0 <= i < |p.seen| && p.seen[i] == row.id;
      } else if !Linked(p.links, feed, row.id) {
        assert q.links[|p.links|] == Link(feed, row.id, now);
      }
    }
  }

  /** Every item's entry ends up linked to the feed exactly once. */
  lemma {:induction false} RefreshLinksEveryItem(p: Pass, feed: string, items: seq<string>, now: Time, checkDupes: bool)
    requires Inv(p, feed)
    ensures var r := Refresh(p, feed, items, now, checkDupes);
      forall k | 0 <= k < |items| ::
        FindRow(r.rows, SanitizeUrl(items[k])).Some?
        && LinkCount(r.links, feed, FindRow(r.rows, SanitizeUrl(items[k])).value.id) == 1
    decreases |items|
  {
    var r := Refresh(p, feed, items, now, checkDupes);
    RefreshKeepsInv(p, feed, items, now, checkDupes);
    forall k | 0 <= k < |items|
      ensures FindRow(r.rows, SanitizeUrl(items[k])).Some?
        && Linked(r.links, feed, FindRow(r.rows, SanitizeUrl(items[k])).value.id)
    {
      RefreshLinksItem(p, feed, items, now, checkDupes, k);
    }
    forall k | 0 <= k < |items|
      ensures LinkCount(r.links, feed, FindRow(r.rows, SanitizeUrl(items[k])).value.id) == 1
    {
      LinkCountOne(r.links, feed, FindRow(r.rows, SanitizeUrl(items[k])).value.id);
    }
  }

  lemma {:induction false} RefreshLinksItem(p: Pass, feed: string, items: seq<string>, now: Time, checkDupes: bool, k: nat)
    requires Inv(p, feed) && k < |items|
    ensures var r := Refresh(p, feed, items, now, checkDupes);
      FindRow(r.rows, SanitizeUrl(items[k])).Some?
      && Linked(r.links, feed, FindRow(r.rows, SanitizeUrl(items[k])).value.id)
    decreases |items|
  {
    var init := items[..|items| - 1];
    var q := Refresh(p, feed, init, now, checkDupes);
    var r := Step(q, feed, items[|items| - 1], now, checkDupes);
    RefreshKeepsInv(p, feed, init, now, checkDupes);
    if k == |items| - 1 {
      StepLinksItem(q, feed, SanitizeUrl(items[k]), now, checkDupes);
    } else {
      RefreshLinksItem(p, feed, init, now, checkDupes, k);
      assert init[k] == items[k];
      StepKeepsLinked(q, feed, SanitizeUrl(items[|items| - 1]), now, checkDupes, SanitizeUrl(items[k]));
    }
  }

  /** An iteration keeps every URL's entry and its links. */
  lemma StepKeepsLinked(q: Pass, feed: string, itemUrl: string, now: Time, checkDupes: bool, url: string)
    requires FindRow(q.rows, url).Some? && Linked(q.links, feed, FindRow(q.rows, url).value.id)
    ensures var r := StepUrl(q, feed, itemUrl, now, checkDupes);
      FindRow(r.rows, url) == FindRow(q.rows, url) && Linked(r.links, feed, FindRow(q.rows, url).value.id)
  {
    var r := StepUrl(q, feed, itemUrl, now, checkDupes);
    var more := r.rows[|q.rows|..];
    assert r.rows == q.rows + more;
    FindRowKept(q.rows, more, url);
    assert r.links == q.links + r.links[|q.links|..];
    LinkedGrows(q.links, r.links[|q.links|..], feed, FindRow(q.rows, url).value.id);
  }

  /** With unique links, a linked pair is linked exactly once. */
  lemma {:induction false} LinkCountOne(links: seq<Link>, feed: string, entry: nat)
    requires LinksUnique(links) && Linked(links, feed, entry)
    ensures LinkCount(links, feed, entry) == 1
    decreases |links|
  {
    var init := links[..|links| - 1];
    var l := links[|links| - 1];
    assert LinksUnique(init);
    if l.feed == feed && l.entry == entry {
      NotLinkedNoCount(init, feed, entry);
    } else {
      var k :| 0 <= k < |links| && links[k].feed == feed && links[k].entry == entry;
      assert init[k] == links[k];
      LinkCountOne(init, feed, entry);
    }
  }

  lemma {:induction false} NotLinkedNoCount(links: seq<Link>, feed: string, entry: nat)
    requires !Linked(links, feed, entry)
    ensures LinkCount(links, feed, entry) == 0
    decreases |links|
  {
    if links != [] {
      NotLinkedNoCount(links[..|links| - 1], feed, entry);
    }
  }

  /** The test of diffengine/model/Feed.py:52, which never holds, changes
      only the duplicate tally: both copies create the same entries and
      links and return the same count. */
  lemma {:induction false} RefreshCopiesAgree(p: Pass, feed: string, items: seq<string>, now: Time)
    requires Inv(p, feed)
    ensures var r1 := Refresh(p, feed, items, now, true);
      var r2 := Refresh(p, feed, items, now, false);
      r1.rows == r2.rows && r1.links == r2.links && r1.nextId == r2.nextId && r1.count == r2.count
    decreases |items|
  {
    if items != [] {
      var init := items[..|items| - 1];
      var item := items[|items| - 1];
      RefreshCopiesAgree(p, feed, init, now);
      var q1 := Refresh(p, feed, init, now, true);
      var q2 := Refresh(p, feed, init, now, false);
      RefreshKeepsInv(p, feed, init, now, true);
      var url := SanitizeUrl(item);
      var found := FindRow(q1.rows, url);
      if found.Some? {
        FindRowBelow(q1.rows, q1.nextId, url);
        if found.value.id in q1.seen {
          var i :| 0 <= i < |q1.seen| && q1.seen[i] == found.value.id;
          assert Linked(q2.links, feed, found.value.id);
        }
      } else {
        assert q1.nextId !in q1.seen;
      }
    }
  }

  /** `Feed.entries` holds exactly the entries linked to the feed. */
  lemma {:induction false} JoinedMembers(entries: seq<Entry>, links: seq<Link>, feed: string, e: Entry)
    ensures e in Joined(entries, links, feed) <==> e in entries && Linked(links, feed, e.id)
    decreases |links|
  {
    if links != [] {
      var init := links[..|links| - 1];
      var l := links[|links| - 1];
      JoinedMembers(entries, init, feed, e);
      if Linked(links, feed, e.id) && !Linked(init, feed, e.id) {
        var k :| 0 <= k < |links| && links[k].feed == feed && links[k].entry == e.id;
        if k < |init| {
          assert init[k] == links[k];
        }
      }
      if Linked(init, feed, e.id) {
        LinkedGrows(init, [l], feed, e.id);
        assert init + [l] == links;
      }
    }
  }

  lemma FeedEntriesMembers(entries: seq<Entry>, links: seq<Link>, feed: string, e: Entry)
    ensures e in FeedEntries(entries, links, feed) <==> e in entries && Linked(links, feed, e.id)
  {
    JoinedMembers(entries, links, feed, e);
    assert e in FeedEntries(entries, links, feed) <==> e in multiset(Joined(entries, links, feed));
  }
}
