/** The batch run over all feeds and its counters: `process_feed`
    (diffengine/__init__.py:564-614), the `FeedProcessor` class
    (diffengine/FeedProcessor.py) and `DiffEngine.check_feeds`
    (diffengine/diffengine.py:18-44), with the three copies of
    `tweet_diff`. What `get_latest` and the diff lookup gave for each entry
    is an input; posting to Twitter is an input saying whether the upload
    returned normally. */
module Batch {
  import opened Common
  import opened Strings
  import opened Versions

  /** Status length limits of the three copies of `tweet_diff`. */
  const PackageLimit: nat := 225
  const ProcessorLimit: nat := 225
  const EngineLimit: nat := 85

  const SiteSuffix: string := "| Stuff.co.nz"
  const Ellipsis: char := '…'

  /** What `version.diff` gave: it raised, found no row, or found `d`. */
  datatype DiffLookup = LookupRaised | NoDiff | HasDiff(d: Diff)

  /** What `entry.get_latest(...)` gave: it raised, returned None, or
      returned version `v`; `uploaded` says whether the media upload of a
      tweet about it would return normally. */
  datatype Latest = LatestRaised | NoVersion | NewVersion(v: Version, lookup: DiffLookup, uploaded: bool)

  /** One entry of `feed.entries`: whether `entry.stale` held, and what
      checking it gave (ignored when it was not stale). */
  datatype EntryCheck = EntryCheck(stale: bool, latest: Latest)

  /** The five counters of `process_feed` and `FeedProcessor`. */
  datatype Counters = Counters(checked: nat, skipped: nat, newVersions: nat, diffs: nat, tweeted: nat)

  const Zero: Counters := Counters(0, 0, 0, 0, 0)

  /** One iteration of the loop over `feed.entries`. A raising
      `get_latest` or diff lookup is caught after the counters it has
      already passed. */
  function Count(c: Counters, e: EntryCheck, tweeting: bool): Counters {
    if !e.stale then c.(skipped := c.skipped + 1)
    else
      var c1 := c.(checked := c.checked + 1);
      match e.latest
      case LatestRaised => c1
      case NoVersion => c1
      case NewVersion(_, lookup, _) =>
        var c2 := c1.(newVersions := c1.newVersions + 1);
        if lookup.HasDiff? then
          c2.(diffs := c2.diffs + 1, tweeted := c2.tweeted + (if tweeting then 1 else 0))
        else c2
  }

  /** The loop over `feed.entries`. */
  function Tally(c: Counters, checks: seq<EntryCheck>, tweeting: bool): Counters
    decreases |checks|
  {
    if checks == [] then c
    else Count(Tally(c, checks[..|checks| - 1], tweeting), checks[|checks| - 1], tweeting)
  }

  /** What `process_feed` gets from `get_latest` as written, given the diff
      lookup and upload that would follow a returned version. */
  function LatestAsWrittenOf(o: AsWritten, lookup: DiffLookup, uploaded: bool): Latest {
    if o.raised then LatestRaised
    else match Returned(o.d)
      case None => NoVersion
      case Some(v) => NewVersion(v, lookup, uploaded)
  }

  /** One entry of the `feeds` configuration: its `tweet` setting, and its
      `twitter` token if any (true when the token is non-empty). */
  datatype FeedRun = FeedRun(tweet: Option<bool>, twitter: Option<bool>, checks: seq<EntryCheck>)

  /** `tweeting` in `process_feed`: on unless `tweet` is False, and only
      with a `twitter` token. */
  predicate Tweeting(f: FeedRun) {
    f.tweet != Some(false) && f.twitter.Some?
  }

  /** The outer loop of `process_feed` over the configured feeds. */
  function TallyFeeds(c: Counters, feeds: seq<FeedRun>): Counters
    decreases |feeds|
  {
    if feeds == [] then c
    else
      var f := feeds[|feeds| - 1];
      Tally(TallyFeeds(c, feeds[..|feeds| - 1]), f.checks, Tweeting(f))
  }

  /** The diffs a batch may tweet about. */
  function DiffsIn(checks: seq<EntryCheck>): set<Diff> {
    set i | 0 <= i < |checks| && checks[i].latest.NewVersion? && checks[i].latest.lookup.HasDiff? :: checks[i].latest.lookup.d
  }

  function DiffsInFeeds(feeds: seq<FeedRun>): set<Diff> {
    set i, d | 0 <= i < |feeds| && d in DiffsIn(feeds[i].checks) :: d
  }

  /** The title without the site suffix. */
  function CleanTitle(title: string): string {
    ReplaceAll(title, SiteSuffix, "")
  }

  /** The tweet text: the cleaned title, cut to `limit` characters and an
      ellipsis when it has at least `limit`, then a space and the URL. */
  function Status(title: string, url: string, limit: nat): string {
    var s := CleanTitle(title);
    (if |s| >= limit then s[..limit] + [Ellipsis] else s) + " " + url
  }

  /** The three guards of `tweet_diff`, in order: Twitter configured, a
      token for the feed, the diff not yet tweeted. */
  predicate MayTweet(configured: bool, token: bool, tweeted: Option<Time>) {
    configured && token && tweeted.None?
  }

  /** `tweet_diff(diff, token)` of diffengine/__init__.py:500-532 or
      diffengine/diffengine.py:46-78, with `limit` 225 or 85. Returns the
      status it tried to post. */
  method TweetDiff(d: Diff, v: Version, configured: bool, token: bool, limit: nat,
                   uploaded: bool, now: Time) returns (status: Option<string>)
    modifies d
    ensures !MayTweet(configured, token, old(d.tweeted)) ==> status == None && d.tweeted == old(d.tweeted)
    ensures MayTweet(configured, token, old(d.tweeted)) ==>
      status == Some(Status(v.title, v.url, limit))
      && d.tweeted == (if uploaded then Some(now) else old(d.tweeted))
  {
    if !configured {
      return None;
    } else if !token {
      return None;
    } else if d.tweeted.Some? {
      return None;
    }
    var s := v.title;
    s := ReplaceAll(s, SiteSuffix, "");
    if |s| >= limit {
      s := s[..limit] + [Ellipsis];
    }
    s := s + " " + v.url;
    status := Some(s);
    if uploaded {
      d.tweeted := Some(now);
    }
  }

  /** `process_feed()`: returns the five counters it logs. `configured`
      says whether the configuration has a `twitter` section. */
  method ProcessFeed(feeds: seq<FeedRun>, configured: bool, now: Time) returns (c: Counters)
    modifies DiffsInFeeds(feeds)
    ensures c == TallyFeeds(Zero, feeds)
  {
    c := Zero;
    var k := 0;
    while k < |feeds|
      invariant 0 <= k <= |feeds|
      invariant c == TallyFeeds(Zero, feeds[..k])
    {
      var f := feeds[k];
      var tweeting := true;
      if f.tweet == Some(false) {
        tweeting := false;
      }
      if f.twitter.None? {
        tweeting := false;
      }
      assert tweeting == Tweeting(f);
      ghost var start := c;
      var i := 0;
      while i < |f.checks|
        invariant 0 <= i <= |f.checks|
        invariant c == Tally(start, f.checks[..i], tweeting)
      {
        var e := f.checks[i];
        assert f.checks[..i + 1][..i] == f.checks[..i];
        if !e.stale {
          c := c.(skipped := c.skipped + 1);
        } else {
          c := c.(checked := c.checked + 1);
          if e.latest.NewVersion? {
            c := c.(newVersions := c.newVersions + 1);
            if e.latest.lookup.HasDiff? {
              c := c.(diffs := c.diffs + 1);
              if tweeting {
                assert e.latest.lookup.d in DiffsIn(f.checks);
                var _ := TweetDiff(e.latest.lookup.d, e.latest.v, configured, f.twitter == Some(true),
                                   PackageLimit, e.latest.uploaded, now);
                c := c.(tweeted := c.tweeted + 1);
              }
            }
          }
        }
        i := i + 1;
      }
      assert f.checks[..|f.checks|] == f.checks;
      assert feeds[..k + 1][..k] == feeds[..k];
      k := k + 1;
    }
    assert feeds[..|feeds|] == feeds;
  }

  /** `FeedProcessor` (diffengine/FeedProcessor.py). */
  class FeedProcessor {
    /** `twitter_consumer` is set (non-empty). */
    const configured: bool
    const tweeting: bool
    var checked: nat
    var skipped: nat
    var newVersions: nat
    var diffs: nat
    var tweeted: nat

    constructor(configured: bool, tweeting: bool)
      ensures this.configured == configured && this.tweeting == tweeting
      ensures Counts() == Zero
    {
      this.configured := configured;
      this.tweeting := tweeting;
      checked, skipped, newVersions, diffs, tweeted := 0, 0, 0, 0, 0;
    }

    function Counts(): Counters
      reads this
    {
      Counters(checked, skipped, newVersions, diffs, tweeted)
    }

    /** `stats()` */
    function Stats(): string
      reads this
    {
      StatsOf(Counts())
    }

    /** `process_feed_entries(entries, twitter_config)`; `token` says
        whether `twitter_config` is non-empty. */
    method ProcessFeedEntries(checks: seq<EntryCheck>, token: bool, now: Time)
      modifies this, DiffsIn(checks)
      ensures Counts() == Tally(old(Counts()), checks, tweeting)
    {
      var i := 0;
      while i < |checks|
        invariant 0 <= i <= |checks|
        invariant Counts() == Tally(old(Counts()), checks[..i], tweeting)
      {
        var e := checks[i];
        assert checks[..i + 1][..i] == checks[..i];
        if !e.stale {
          skipped := skipped + 1;
        } else {
          checked := checked + 1;
          if e.latest.NewVersion? {
            newVersions := newVersions + 1;
            if e.latest.lookup.HasDiff? {
              diffs := diffs + 1;
              if tweeting {
                assert e.latest.lookup.d in DiffsIn(checks);
                var _ := TweetDiffWith(e.latest.lookup.d, e.latest.v, token, e.latest.uploaded, now);
                tweeted := tweeted + 1;
              }
            }
          }
        }
        i := i + 1;
      }
      assert checks[..|checks|] == checks;
    }

    /** `FeedProcessor.tweet_diff(diff, twitter_config)` */
    method TweetDiffWith(d: Diff, v: Version, token: bool, uploaded: bool, now: Time)
      returns (status: Option<string>)
      modifies d
      ensures !MayTweet(configured, token, old(d.tweeted)) ==> status == None && d.tweeted == old(d.tweeted)
      ensures MayTweet(configured, token, old(d.tweeted)) ==>
        status == Some(Status(v.title, v.url, ProcessorLimit))
        && d.tweeted == (if uploaded then Some(now) else old(d.tweeted))
    {
      status := TweetDiff(d, v, configured, token, ProcessorLimit, uploaded, now);
    }
  }

  /** `stats()` text. */
  function StatsOf(c: Counters): string {
    Field("new: ", c.newVersions, Field(", checked: ", c.checked, Field(", skipped: ", c.skipped,
      Field(", diffs: ", c.diffs, Field(", tweeted: ", c.tweeted, "")))))
  }

  /** A labelled number followed by the rest of the text. */
  function Field(name: string, n: nat, rest: string): string {
    name + NatToString(n) + rest
  }

  /** The three counters `check_feeds` keeps. */
  datatype Checked = Checked(checked: nat, skipped: nat, newVersions: nat)

  /** One iteration of `check_feeds` over `feed.entries`: None when the
      diff lookup, which is outside the `try`, raises and ends the run. */
  function CheckCount(c: Checked, e: EntryCheck): Option<Checked> {
    if !e.stale then Some(c.(skipped := c.skipped + 1))
    else
      var c1 := c.(checked := c.checked + 1);
      match e.latest
      case LatestRaised => Some(c1)
      case NoVersion => Some(c1)
      case NewVersion(_, lookup, _) => if lookup.LookupRaised? then None else Some(c1.(newVersions := c1.newVersions + 1))
  }

  function CheckTally(c: Checked, checks: seq<EntryCheck>): Option<Checked>
    decreases |checks|
  {
    if checks == [] then Some(c)
    else
      var r := CheckTally(c, checks[..|checks| - 1]);
      if r.None? then None else CheckCount(r.value, checks[|checks| - 1])
  }

  function CheckTallyFeeds(c: Checked, feeds: seq<FeedRun>): Option<Checked>
    decreases |feeds|
  {
    if feeds == [] then Some(c)
    else
      var r := CheckTallyFeeds(c, feeds[..|feeds| - 1]);
      if r.None? then None else CheckTally(r.value, feeds[|feeds| - 1].checks)
  }

  /** `DiffEngine.check_feeds()`: the counters it logs, or None when it
      ends by an exception. */
  method CheckFeeds(feeds: seq<FeedRun>, configured: bool, now: Time) returns (r: Option<Checked>)
    modifies DiffsInFeeds(feeds)
    ensures r == CheckTallyFeeds(Checked(0, 0, 0), feeds)
  {
    var c := Checked(0, 0, 0);
    var k := 0;
    while k < |feeds|
      invariant 0 <= k <= |feeds|
      invariant CheckTallyFeeds(Checked(0, 0, 0), feeds[..k]) == Some(c)
    {
      var f := feeds[k];
      ghost var start := c;
      var i := 0;
      while i < |f.checks|
        invariant 0 <= i <= |f.checks|
        invariant CheckTally(start, f.checks[..i]) == Some(c)
      {
        var e := f.checks[i];
        assert f.checks[..i + 1][..i] == f.checks[..i];
        if !e.stale {
          c := c.(skipped := c.skipped + 1);
        } else {
          c := c.(checked := c.checked + 1);
          if e.latest.NewVersion? {
            c := c.(newVersions := c.newVersions + 1);
            if e.latest.lookup.LookupRaised? {
              assert CheckTally(start, f.checks[..i + 1]) == None;
              NoneStaysNone(start, f.checks, i + 1);
              assert f.checks[..|f.checks|] == f.checks;
              FeedsNoneStaysNone(feeds, k);
              return None;
            }
            if e.latest.lookup.HasDiff? && f.twitter.Some? {
              assert e.latest.lookup.d in DiffsIn(f.checks);
              var _ := TweetDiff(e.latest.lookup.d, e.latest.v, configured, f.twitter == Some(true),
                                 EngineLimit, e.latest.uploaded, now);
            }
          }
        }
        i := i + 1;
      }
      assert f.checks[..|f.checks|] == f.checks;
      assert feeds[..k + 1][..k] == feeds[..k];
      k := k + 1;
    }
    assert feeds[..|feeds|] == feeds;
    r := Some(c);
  }

  // ---------------------------------------------------------------------
  // Lemmas

  /** Once the run has ended by an exception, later entries change nothing. */
  lemma {:induction false} NoneStaysNone(c: Checked, checks: seq<EntryCheck>, i: nat)
    requires i <= |checks| && CheckTally(c, checks[..i]) == None
    ensures CheckTally(c, checks) == None
    decreases |checks| - i
  {
    if i < |checks| {
      assert checks[..i + 1][..i] == checks[..i];
      NoneStaysNone(c, checks, i + 1);
    } else {
      assert checks[..i] == checks;
    }
  }

  lemma {:induction false} FeedsNoneStaysNone(feeds: seq<FeedRun>, k: nat)
    requires k < |feeds|
    requires var r := CheckTallyFeeds(Checked(0, 0, 0), feeds[..k]);
      r.Some? && CheckTally(r.value, feeds[k].checks) == None
    ensures CheckTallyFeeds(Checked(0, 0, 0), feeds) == None
    decreases |feeds| - k
  {
    assert feeds[..k + 1][..k] == feeds[..k];
    assert CheckTallyFeeds(Checked(0, 0, 0), feeds[..k + 1]) == None;
    FeedsNoneFrom(feeds, k + 1);
  }

  lemma {:induction false} FeedsNoneFrom(feeds: seq<FeedRun>, k: nat)
    requires k <= |feeds| && CheckTallyFeeds(Checked(0, 0, 0), feeds[..k]) == None
    ensures CheckTallyFeeds(Checked(0, 0, 0), feeds) == None
    decreases |feeds| - k
  {
    if k < |feeds| {
      assert feeds[..k + 1][..k] == feeds[..k];
      FeedsNoneFrom(feeds, k + 1);
    } else {
      assert feeds[..k] == feeds;
    }
  }

  /** Counting entries feed by feed is counting the concatenation. */
  lemma {:induction false} TallyAppend(c: Counters, a: seq<EntryCheck>, b: seq<EntryCheck>, tweeting: bool)
    ensures Tally(c, a + b, tweeting) == Tally(Tally(c, a, tweeting), b, tweeting)
    decreases |b|
  {
    if b == [] {
      assert a + b == a;
    } else {
      assert (a + b)[..|a + b| - 1] == a + b[..|b| - 1];
      TallyAppend(c, a, b[..|b| - 1], tweeting);
    }
  }

  /** Every entry is either checked or skipped; new versions come only from
      checked entries, diffs only from new versions, and tweets are counted
      for every diff exactly when tweeting is on. */
  lemma {:induction false} TallyBounds(c: Counters, checks: seq<EntryCheck>, tweeting: bool)
    ensures var r := Tally(c, checks, tweeting);
      && r.checked + r.skipped == c.checked + c.skipped + |checks|
      && c.checked <= r.checked && c.skipped <= r.skipped
      && c.newVersions <= r.newVersions && c.diffs <= r.diffs
      && r.newVersions - c.newVersions <= r.checked - c.checked
      && r.diffs - c.diffs <= r.newVersions - c.newVersions
      && r.tweeted == c.tweeted + (if tweeting then r.diffs - c.diffs else 0)
    decreases |checks|
  {
    if checks != [] {
      TallyBounds(c, checks[..|checks| - 1], tweeting);
    }
  }

  /** With `get_latest` as written, a stale entry whose content changed
      from an earlier version counts as checked and as nothing else, and
      every other entry counts as the corrected decision would have it. */
  lemma ChangeCountsOnlyChecked(c: Counters, vs: seq<Version>, nv: nat, nd: nat, home: string,
                                libs: Libs, entry: nat, fetch: Fetch, now: Time, blocked: bool,
                                lookup: DiffLookup, uploaded: bool, tweeting: bool)
    ensures var d := Decide(vs, nv, nd, home, libs, entry, fetch, now, blocked);
      var latest := LatestAsWrittenOf(DecideAsWritten(vs, nv, libs, entry, fetch, now, blocked), lookup, uploaded);
      && (d.Changed? ==> Count(c, EntryCheck(true, latest), tweeting) == c.(checked := c.checked + 1))
      && (!d.Changed? ==> latest == LatestAsWrittenOf(AsWritten(d, false), lookup, uploaded))
  {
    AsWrittenRaisesOnChange(vs, nv, nd, home, libs, entry, fetch, now, blocked);
  }

  function EntryTotal(feeds: seq<FeedRun>): nat
    decreases |feeds|
  {
    if feeds == [] then 0 else EntryTotal(feeds[..|feeds| - 1]) + |feeds[|feeds| - 1].checks|
  }

  /** The totals `process_feed` logs: checked and skipped add up to the
      number of entries seen, and tweeted <= diffs <= new <= checked. */
  lemma {:induction false} ProcessFeedBounds(feeds: seq<FeedRun>)
    ensures var r := TallyFeeds(Zero, feeds);
      && r.checked + r.skipped == EntryTotal(feeds)
      && r.tweeted <= r.diffs <= r.newVersions <= r.checked
    decreases |feeds|
  {
    if feeds != [] {
      var f := feeds[|feeds| - 1];
      ProcessFeedBounds(feeds[..|feeds| - 1]);
      TallyBounds(TallyFeeds(Zero, feeds[..|feeds| - 1]), f.checks, Tweeting(f));
    }
  }

  /** The `check_feeds` counters of a run. */
  function Project(c: Counters): Checked {
    Checked(c.checked, c.skipped, c.newVersions)
  }

  /** A stale entry whose new version's diff lookup raises. */
  predicate LookupRaises(e: EntryCheck) {
    e.stale && e.latest.NewVersion? && e.latest.lookup.LookupRaised?
  }

  /** `check_feeds` ends by an exception exactly when some diff lookup
      raises; otherwise it counts checked, skipped and new as
      `process_feed` does. */
  lemma {:induction false} CheckAgreesWithProcess(c: Counters, checks: seq<EntryCheck>, tweeting: bool)
    ensures CheckTally(Project(c), checks)
      == if exists i | 0 <= i < |checks| :: LookupRaises(checks[i]) then None
         else Some(Project(Tally(c, checks, tweeting)))
    decreases |checks|
  {
    if checks != [] {
      var init := checks[..|checks| - 1];
      CheckAgreesWithProcess(c, init, tweeting);
      if exists i | 0 <= i < |init| :: LookupRaises(init[i]) {
        var i :| 0 <= i < |init| && LookupRaises(init[i]);
        assert checks[i] == init[i];
      } else if !LookupRaises(checks[|checks| - 1]) {
        forall i | 0 <= i < |checks| ensures !LookupRaises(checks[i]) {
          if i < |init| {
            assert checks[i] == init[i];
          }
        }
      }
    }
  }

  /** Some stale entry of some feed has a diff lookup that raises. */
  predicate FeedsLookupRaise(feeds: seq<FeedRun>) {
    exists k, i | 0 <= k < |feeds| && 0 <= i < |feeds[k].checks| :: LookupRaises(feeds[k].checks[i])
  }

  /** Over all feeds, `check_feeds` ends by an exception exactly when some
      diff lookup raises; otherwise it counts checked, skipped and new as
      `process_feed` does. */
  lemma {:induction false} CheckFeedsAgree(c: Counters, feeds: seq<FeedRun>)
    ensures CheckTallyFeeds(Project(c), feeds)
      == if FeedsLookupRaise(feeds) then None else Some(Project(TallyFeeds(c, feeds)))
    decreases |feeds|
  {
    if feeds != [] {
      var init, f := feeds[..|feeds| - 1], feeds[|feeds| - 1];
      CheckFeedsAgree(c, init);
      if FeedsLookupRaise(init) {
        var k, i :| 0 <= k < |init| && 0 <= i < |init[k].checks| && LookupRaises(init[k].checks[i]);
        assert feeds[k] == init[k];
      } else {
        CheckAgreesWithProcess(TallyFeeds(c, init), f.checks, Tweeting(f));
        if exists i | 0 <= i < |f.checks| :: LookupRaises(f.checks[i]) {
          var i :| 0 <= i < |f.checks| && LookupRaises(f.checks[i]);
          assert LookupRaises(feeds[|feeds| - 1].checks[i]);
        } else {
          forall k, i | 0 <= k < |feeds| && 0 <= i < |feeds[k].checks|
            ensures !LookupRaises(feeds[k].checks[i])
          {
            if k < |init| {
              assert feeds[k] == init[k];
            }
          }
        }
      }
    }
  }

  /** When `check_feeds` finishes, every entry of every feed was counted
      once, as checked or skipped, and new versions come only from checked
      entries. */
  lemma CheckFeedsBounds(feeds: seq<FeedRun>)
    ensures var r := CheckTallyFeeds(Checked(0, 0, 0), feeds);
      r.Some? ==> r.value.checked + r.value.skipped == EntryTotal(feeds) && r.value.newVersions <= r.value.checked
  {
    assert Project(Zero) == Checked(0, 0, 0);
    CheckFeedsAgree(Zero, feeds);
    ProcessFeedBounds(feeds);
  }

  lemma DigitsNoComma(n: nat)
    ensures ',' !in NatToString(n)
  {
  }

  lemma FieldInjective(name: string, n1: nat, r1: string, n2: nat, r2: string)
    requires (r1 == [] && r2 == []) || (r1 != [] && r2 != [] && r1[0] == ',' && r2[0] == ',')
    requires Field(name, n1, r1) == Field(name, n2, r2)
    ensures n1 == n2 && r1 == r2
  {
    var s1, s2 := NatToString(n1) + r1, NatToString(n2) + r2;
    assert Field(name, n1, r1) == name + s1;
    assert Field(name, n2, r2) == name + s2;
    assert s1 == Field(name, n1, r1)[|name|..] == Field(name, n2, r2)[|name|..] == s2;
    if r1 == [] {
      assert NatToString(n1) == s1 == s2 == NatToString(n2);
      NatToStringInjective(n1, n2);
    } else {
      DigitsNoComma(n1);
      DigitsNoComma(n2);
      assert r1 == [','] + r1[1..] && r2 == [','] + r2[1..];
      assert s1 == NatToString(n1) + [','] + r1[1..];
      assert s2 == NatToString(n2) + [','] + r2[1..];
      SplitAtSeparator(NatToString(n1), r1[1..], NatToString(n2), r2[1..], ',');
      NatToStringInjective(n1, n2);
    }
  }

  /** `stats()` text determines all five counters. */
  lemma StatsInjective(c1: Counters, c2: Counters)
    requires StatsOf(c1) == StatsOf(c2)
    ensures c1 == c2
  {
    var t1 := Field(", tweeted: ", c1.tweeted, "");
    var t2 := Field(", tweeted: ", c2.tweeted, "");
    var d1 := Field(", diffs: ", c1.diffs, t1);
    var d2 := Field(", diffs: ", c2.diffs, t2);
    var s1 := Field(", skipped: ", c1.skipped, d1);
    var s2 := Field(", skipped: ", c2.skipped, d2);
    var k1 := Field(", checked: ", c1.checked, s1);
    var k2 := Field(", checked: ", c2.checked, s2);
    assert k1[0] == ',' && k2[0] == ',';
    FieldInjective("new: ", c1.newVersions, k1, c2.newVersions, k2);
    assert s1[0] == ',' && s2[0] == ',';
    FieldInjective(", checked: ", c1.checked, s1, c2.checked, s2);
    assert d1[0] == ',' && d2[0] == ',';
    FieldInjective(", skipped: ", c1.skipped, d1, c2.skipped, d2);
    assert t1[0] == ',' && t2[0] == ',';
    FieldInjective(", diffs: ", c1.diffs, t1, c2.diffs, t2);
    FieldInjective(", tweeted: ", c1.tweeted, "", c2.tweeted, "");
  }

  /** The status ends with a space and the URL, and the text before it is
      the cleaned title or its first `limit` characters and an ellipsis. */
  lemma StatusShape(title: string, url: string, limit: nat)
    ensures var s := Status(title, url, limit);
      var t := CleanTitle(title);
      && |s| <= limit + 2 + |url|
      && s[|s| - |url| - 1..] == " " + url
      && (|t| < limit ==> s[..|s| - |url| - 1] == t)
      && (|t| >= limit ==> s[..|s| - |url| - 1] == t[..limit] + [Ellipsis])
  {
    var t := CleanTitle(title);
    var head := if |t| >= limit then t[..limit] + [Ellipsis] else t;
    var s := Status(title, url, limit);
    assert s == head + (" " + url);
  }

  /** A title without the site suffix is posted unchanged when it is
      shorter than the limit. */
  lemma StatusKeepsShortTitle(title: string, url: string, limit: nat)
    requires !Contains(title, SiteSuffix) && |title| < limit
    ensures Status(title, url, limit) == title + " " + url
  {
    ReplaceAllNoMatch(title, SiteSuffix, "");
  }

  /** A cleaned title of exactly `limit` characters still gets an
      ellipsis, though nothing was cut. */
  lemma StatusEllipsisAtLimit(title: string, url: string, limit: nat)
    requires !Contains(title, SiteSuffix) && |title| == limit
    ensures Status(title, url, limit) == title + [Ellipsis] + " " + url
  {
    ReplaceAllNoMatch(title, SiteSuffix, "");
    assert title[..limit] == title;
  }

  /** A fresh processor reports all five counters as 0. */
  lemma FreshStats()
    ensures StatsOf(Zero) == "new: 0" + ", checked: 0" + ", skipped: 0" + ", diffs: 0" + ", tweeted: 0"
  {
    assert NatToString(0) == "0";
    var t := Field(", tweeted: ", 0, "");
    assert t == ", tweeted: 0";
    var d := Field(", diffs: ", 0, t);
    assert d == ", diffs: 0" + ", tweeted: 0";
    var s := Field(", skipped: ", 0, d);
    assert s == ", skipped: 0" + d;
    var k := Field(", checked: ", 0, s);
    assert k == ", checked: 0" + s;
    assert Field("new: ", 0, k) == "new: 0" + k;
  }
}
