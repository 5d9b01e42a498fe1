/** Versions of an entry's content and the step that records a new one:
    `EntryVersion` with its `html`, `diff` and `next_diff`, the `Diff` row,
    and `Entry.get_latest` (diffengine/__init__.py:103-271,
    diffengine/model/Entry.py:21-132, diffengine/model/EntryVersion.py,
    diffengine/model/Diff.py:19-24, 119-142). The database tables are
    fields of a `VersionStore` object. */
module Versions {
  import opened Common
  import opened Strings
  import opened Text
  import opened Urls
  import opened Staleness
  import opened Diffs

  /** An `EntryVersion` row; `entry` is the id of its `Entry`. */
  datatype Version = Version(id: nat, title: string, url: string, summary: string,
                             created: Time, entry: nat)

  /** `EntryVersion.html` */
  function Html(v: Version): (h: string)
    ensures |h| == |v.title| + |v.summary| + 11
    ensures StartsWith(h, "<h1>" + v.title + "</h1>")
    ensures h[|h| - |v.summary|..] == v.summary
  {
    var h := "<h1>" + v.title + "</h1>\n\n" + v.summary;
    assert h[..|"<h1>" + v.title + "</h1>"|] == "<h1>" + v.title + "</h1>";
    h
  }

  /** A `Diff` row. Only `tweeted` changes after creation. */
  class Diff {
    const id: nat
    /** `old_id`: the version the change starts from. */
    const oldId: nat
    /** `new_id`: the version the change leads to. */
    const newId: nat
    const created: Time
    var tweeted: Option<Time>

    constructor(id: nat, oldId: nat, newId: nat, created: Time)
      ensures this.id == id && this.oldId == oldId && this.newId == newId
      ensures this.created == created && tweeted == None
    {
      this.id := id;
      this.oldId := oldId;
      this.newId := newId;
      this.created := created;
      tweeted := None;
    }
  }

  /** `EntryVersion.diff`: the first Diff row whose new version is
      `versionId`, or None. */
  function DiffOf(diffs: seq<Diff>, versionId: nat): (r: Option<Diff>)
    ensures r.None? <==> forall i | 0 <= i < |diffs| :: diffs[i].newId != versionId
    ensures r.Some? ==> exists i | 0 <= i < |diffs| ::
      diffs[i] == r.value && r.value.newId == versionId
      && forall j | 0 <= j < i :: diffs[j].newId != versionId
  {
    if diffs == [] then None
    else if diffs[0].newId == versionId then Some(diffs[0])
    else
      var r := DiffOf(diffs[1..], versionId);
      assert r.Some? ==> exists i | 0 <= i < |diffs[1..]| ::
        diffs[1..][i] == r.value && forall j | 0 <= j < i :: diffs[1..][j].newId != versionId;
      assert r.Some? ==> exists i | 1 <= i < |diffs| ::
        diffs[i] == r.value && forall j | 0 <= j < i :: diffs[j].newId != versionId by {
        if r.Some? {
          var i :| 0 <= i < |diffs[1..]| && diffs[1..][i] == r.value
            && forall j | 0 <= j < i :: diffs[1..][j].newId != versionId;
          assert diffs[i + 1] == r.value;
          forall j | 0 <= j < i + 1 ensures diffs[j].newId != versionId {
            if j > 0 { assert diffs[j] == diffs[1..][j - 1]; }
          }
        }
      }
      r
  }

  /** `EntryVersion.next_diff`: the first Diff row whose old version is
      `versionId`, or None. */
  function NextDiffOf(diffs: seq<Diff>, versionId: nat): (r: Option<Diff>)
    ensures r.None? <==> forall i | 0 <= i < |diffs| :: diffs[i].oldId != versionId
    ensures r.Some? ==> exists i | 0 <= i < |diffs| ::
      diffs[i] == r.value && r.value.oldId == versionId
      && forall j | 0 <= j < i :: diffs[j].oldId != versionId
  {
    if diffs == [] then None
    else if diffs[0].oldId == versionId then Some(diffs[0])
    else
      var r := NextDiffOf(diffs[1..], versionId);
      assert r.Some? ==> exists i | 1 <= i < |diffs| ::
        diffs[i] == r.value && forall j | 0 <= j < i :: diffs[j].oldId != versionId by {
        if r.Some? {
          var i :| 0 <= i < |diffs[1..]| && diffs[1..][i] == r.value
            && forall j | 0 <= j < i :: diffs[1..][j].oldId != versionId;
          assert diffs[i + 1] == r.value;
          forall j | 0 <= j < i + 1 ensures diffs[j].oldId != versionId {
            if j > 0 { assert diffs[j] == diffs[1..][j - 1]; }
          }
        }
      }
      r
  }

  /** The first row of `EntryVersion.select().where(url == url)
      .order_by(-created)`: a version at `url` created last, the most
      recently stored one among equal times. */
  function LatestByUrl(vs: seq<Version>, url: string): (r: Option<Version>)
    ensures r.None? <==> forall i | 0 <= i < |vs| :: vs[i].url != url
    ensures r.Some? ==> r.value in vs && r.value.url == url
    ensures r.Some? ==> forall i | 0 <= i < |vs| :: vs[i].url == url ==> vs[i].created <= r.value.created
  {
    if vs == [] then None
    else
      var r := LatestByUrl(vs[..|vs| - 1], url);
      var last := vs[|vs| - 1];
      assert forall i | 0 <= i < |vs| - 1 :: vs[i] == vs[..|vs| - 1][i];
      if last.url == url && (r.None? || last.created >= r.value.created) then Some(last) else r
  }

  /** The `EntryVersion` and `Diff` tables. Ids come from counters and are
      never reused. */
  class VersionStore {
    var versions: seq<Version>
    var diffs: seq<Diff>
    var nextVersionId: nat
    var nextDiffId: nat
    /** The home directory diff files are written under. */
    const home: string

    predicate Valid()
      reads this
    {
      && (forall i | 0 <= i < |versions| :: versions[i].id < nextVersionId)
      && (forall i, j | 0 <= i < j < |versions| :: versions[i].id < versions[j].id)
      && (forall i | 0 <= i < |diffs| ::
            diffs[i].id < nextDiffId && diffs[i].oldId < nextVersionId && diffs[i].newId < nextVersionId)
      && (forall i, j | 0 <= i < j < |diffs| :: diffs[i].id < diffs[j].id)
    }

    constructor(home: string)
      ensures Valid() && this.home == home
      ensures versions == [] && diffs == [] && nextVersionId == 1 && nextDiffId == 1
    {
      this.home := home;
      versions := [];
      diffs := [];
      nextVersionId := 1;
      nextDiffId := 1;
    }

    /** `EntryVersion.create(...)`: a row with the next id. */
    method CreateVersion(title: string, url: string, summary: string, created: Time, entry: nat)
      returns (v: Version)
      requires Valid()
      modifies this
      ensures Valid()
      ensures v == Version(old(nextVersionId), title, url, summary, created, entry)
      ensures versions == old(versions) + [v] && nextVersionId == old(nextVersionId) + 1
      ensures diffs == old(diffs) && nextDiffId == old(nextDiffId)
    {
      v := Version(nextVersionId, title, url, summary, created, entry);
      versions := versions + [v];
      nextVersionId := nextVersionId + 1;
    }

    /** `Diff.create(old=..., new=...)`: a row with the next id. */
    method CreateDiff(oldId: nat, newId: nat, created: Time) returns (row: Diff)
      requires Valid() && oldId < nextVersionId && newId < nextVersionId
      modifies this
      ensures Valid() && fresh(row)
      ensures row.id == old(nextDiffId) && row.oldId == oldId && row.newId == newId
      ensures row.created == created && row.tweeted == None
      ensures diffs == old(diffs) + [row] && nextDiffId == old(nextDiffId) + 1
      ensures versions == old(versions) && nextVersionId == old(nextVersionId)
    {
      row := new Diff(nextDiffId, oldId, newId, created);
      diffs := diffs + [row];
      nextDiffId := nextDiffId + 1;
    }

    /** The store side of a detected change: `EntryVersion.create`; then,
        when there is a prior version, `Diff.create` and, when the diff was
        not generated, `new.delete()`. Returns the version kept. */
    method RecordChange(title: string, url: string, summary: string, created: Time, entry: nat,
                        prior: Option<Version>, generated: bool)
      returns (r: Option<Version>)
      requires Valid() && (prior.Some? ==> prior.value.id < nextVersionId)
      modifies this
      ensures Valid()
      ensures var v := Version(old(nextVersionId), title, url, summary, created, entry);
        && r == (if prior.None? || generated then Some(v) else None)
        && versions == old(versions) + (if r.Some? then [v] else [])
        && nextVersionId == old(nextVersionId) + 1
      ensures prior.None? ==> diffs == old(diffs) && nextDiffId == old(nextDiffId)
      ensures prior.Some? ==>
        && nextDiffId == old(nextDiffId) + 1
        && |diffs| == |old(diffs)| + 1
        && diffs[..|old(diffs)|] == old(diffs)
        && var row := diffs[|old(diffs)|];
           fresh(row) && row.id == old(nextDiffId) && row.oldId == prior.value.id
           && row.newId == old(nextVersionId) && row.created == created && row.tweeted == None
      ensures r.Some? ==> (DiffOf(diffs, r.value.id).Some? <==> prior.Some?)
    {
      ghost var oldDiffs := diffs;
      DiffOfFresh(this, nextVersionId);
      var v := CreateVersion(title, url, summary, created, entry);
      r := Some(v);
      if prior.Some? {
        var row := CreateDiff(prior.value.id, v.id, created);
        DiffOfLast(oldDiffs, row);
        assert diffs[..|oldDiffs|] == oldDiffs;
        if !generated {
          DeleteLastVersion();
          r := None;
        }
      }
    }

    /** Removes the most recently stored version; its id is not reused. */
    method DeleteLastVersion()
      requires Valid() && |versions| > 0
      modifies this
      ensures Valid()
      ensures versions == old(versions)[..|old(versions)| - 1]
      ensures diffs == old(diffs) && nextVersionId == old(nextVersionId) && nextDiffId == old(nextDiffId)
    {
      versions := versions[..|versions| - 1];
    }
  }

  /** The result of fetching an entry's URL: `_get` raised, or a response
      with its status, final URL (after redirects, as `urlparse`
      components), and readability's title and summary HTML. */
  datatype Fetch = FetchRaised | Response(status: int, finalUrl: Url, title: string, summaryHtml: string)

  /** `_normal(bleach.clean(summary, tags=["p"], strip=True))` */
  function CleanSummary(libs: Libs, summaryHtml: string): string {
    Normal(libs.clean(["p"], summaryHtml))
  }

  /** The test at diffengine/__init__.py:205, negated: same title and equal
      fingerprints. */
  predicate SameContent(libs: Libs, prior: Version, title: string, summary: string) {
    prior.title == title && Equal(libs, prior.summary, summary)
  }

  /** What one `get_latest` call does to the store. */
  datatype Decision =
    | Skip                 // fetch raised or status was not 200: nothing changes
    | Same                 // content unchanged: only `checked` moves
    | First(v: Version)    // no earlier version at the URL: `v` stored and returned
    | Changed(v: Version, prior: Version, accepted: bool)
      // a Diff row from `prior` to `v` is stored; `v` is kept and returned iff accepted

  function Candidate(fetch: Fetch, libs: Libs, id: nat, entry: nat, now: Time): Version
    requires fetch.Response?
  {
    Version(id, fetch.title, RemoveUtm(fetch.finalUrl), CleanSummary(libs, fetch.summaryHtml), now, entry)
  }

  /** `Entry.get_latest` of diffengine/__init__.py:150-229. `blocked` says
      the diff file already exists or the template is missing; the diff is
      generated at its real path. */
  function Decide(vs: seq<Version>, nextVersionId: nat, nextDiffId: nat, home: string,
                  libs: Libs, entry: nat, fetch: Fetch, now: Time, blocked: bool): Decision
  {
    if fetch.FetchRaised? || fetch.status != 200 then Skip
    else DecideContent(vs, Candidate(fetch, libs, nextVersionId, entry, now), nextDiffId, home, libs, blocked)
  }

  /** The part of `get_latest` after a successful fetch, given the
      candidate version `v`. */
  function DecideContent(vs: seq<Version>, v: Version, nextDiffId: nat, home: string,
                         libs: Libs, blocked: bool): Decision
  {
    var prior := LatestByUrl(vs, v.url);
    if prior.Some? && SameContent(libs, prior.value, v.title, v.summary) then Same
    else if prior.None? then First(v)
    else
      var path := PathString(HtmlPathByDay(libs, home, v.created, nextDiffId));
      Changed(v, prior.value, Generate(libs, Html(prior.value), Html(v), path, blocked) == Written)
  }

  /** What `get_latest` as written does: the decision `d` says which rows
      the store holds afterwards, and `raised` says the call raised instead
      of returning. */
  datatype AsWritten = AsWritten(d: Decision, raised: bool)

  /** `Entry.get_latest` of diffengine/__init__.py:150-229 as written: line
      217 calls `diff.generate()` without a path, so `generate` receives the
      `html_path` property object and raises after both rows are created.
      The version is then never deleted and `checked` is never set. */
  function DecideAsWritten(vs: seq<Version>, nextVersionId: nat, libs: Libs, entry: nat,
                           fetch: Fetch, now: Time, blocked: bool): AsWritten
  {
    if fetch.FetchRaised? || fetch.status != 200 then AsWritten(Skip, false)
    else DecideContentAsWritten(vs, Candidate(fetch, libs, nextVersionId, entry, now), libs, blocked)
  }

  /** The part of `get_latest` as written after a successful fetch. */
  function DecideContentAsWritten(vs: seq<Version>, v: Version, libs: Libs, blocked: bool): AsWritten {
    var prior := LatestByUrl(vs, v.url);
    if prior.Some? && SameContent(libs, prior.value, v.title, v.summary) then AsWritten(Same, false)
    else if prior.None? then AsWritten(First(v), false)
    else
      var g := Generate(libs, Html(prior.value), Html(v), PropertyObject, blocked);
      AsWritten(Changed(v, prior.value, g != NotWritten), g == Raised)
  }

  /** `Entry.get_latest` of diffengine/model/Entry.py:57-132: no diff step,
      so a changed version is always kept. */
  function DecideSplit(vs: seq<Version>, nextVersionId: nat, libs: Libs, entry: nat,
                       fetch: Fetch, now: Time): Decision
  {
    if fetch.FetchRaised? || fetch.status != 200 then Skip
    else
      var v := Candidate(fetch, libs, nextVersionId, entry, now);
      var prior := LatestByUrl(vs, v.url);
      if prior.Some? && SameContent(libs, prior.value, v.title, v.summary) then Same
      else if prior.None? then First(v)
      else Changed(v, prior.value, true)
  }

  /** The version `get_latest` returns. */
  function Returned(d: Decision): Option<Version> {
    match d
    case First(v) => Some(v)
    case Changed(v, _, accepted) => if accepted then Some(v) else None
    case _ => None
  }

  /** The versions table after the decision. */
  function ApplyVersions(vs: seq<Version>, d: Decision): seq<Version> {
    if Returned(d).Some? then vs + [Returned(d).value] else vs
  }

  /** The store after a decision `d`, from the tables `vs` and `ds` and
      counters `nv` and `nd`, with `r` returned: the version kept is
      appended; a change adds one fresh Diff row from the prior version,
      whose id is the new version's, kept or not; the row is the diff
      of the version returned. */
  ghost predicate Stored(vs: seq<Version>, nv: nat, nd: nat, ds: seq<Diff>, store: VersionStore,
                         d: Decision, r: Option<Version>)
    reads store, store.diffs
  {
    && r == Returned(d)
    && store.versions == ApplyVersions(vs, d)
    && store.nextVersionId == nv + (if d.First? || d.Changed? then 1 else 0)
    && (d.Changed? ==>
          && store.nextDiffId == nd + 1
          && |store.diffs| == |ds| + 1
          && store.diffs[..|ds|] == ds
          && var row := store.diffs[|ds|];
             row.id == nd && row.oldId == d.prior.id
             && row.newId == d.v.id && row.created == d.v.created && row.tweeted == None)
    && (!d.Changed? ==> store.diffs == ds && store.nextDiffId == nd)
    && (r.Some? ==> (DiffOf(store.diffs, r.value.id).Some? <==> d.Changed?))
  }

  /** An `Entry` row: only `checked` changes. */
  class Entry {
    const id: nat
    const url: string
    const created: Time
    var checked: Option<Time>

    /** `Entry.create(url=url)`: both timestamps default to now. */
    constructor(id: nat, url: string, now: Time)
      ensures this.id == id && this.url == url && created == now && checked == Some(now)
    {
      this.id := id;
      this.url := url;
      created := now;
      checked := Some(now);
    }

    /** `Entry.get_latest(archive_enabled)` (diffengine/__init__.py:150-229). */
    method GetLatest(store: VersionStore, libs: Libs, fetch: Fetch, now: Time, blocked: bool)
      returns (r: Option<Version>)
      requires store.Valid()
      modifies this, store
      ensures store.Valid()
      ensures var d := Decide(old(store.versions), old(store.nextVersionId), old(store.nextDiffId),
                              store.home, libs, id, fetch, now, blocked);
        && Stored(old(store.versions), old(store.nextVersionId), old(store.nextDiffId), old(store.diffs), store, d, r)
        && checked == (if d.Skip? then old(checked) else Some(now))
      ensures |store.diffs| > |old(store.diffs)| ==> fresh(store.diffs[|old(store.diffs)|])
    {
      if fetch.FetchRaised? || fetch.status != 200 {
        return None;
      }
      var title := fetch.title;
      var summary := CleanSummary(libs, fetch.summaryHtml);
      var canonicalUrl := RemoveUtm(fetch.finalUrl);
      r := RecordContent(store, libs, title, canonicalUrl, summary, now, blocked);
      checked := Some(now);
    }

    /** Lines 194-229 of `get_latest`: look up the latest version at the
        canonical URL and store a new version (and a Diff row) when the
        title or summary changed. */
    method RecordContent(store: VersionStore, libs: Libs, title: string, canonicalUrl: string,
                         summary: string, now: Time, blocked: bool)
      returns (r: Option<Version>)
      requires store.Valid()
      modifies store
      ensures store.Valid()
      ensures Stored(old(store.versions), old(store.nextVersionId), old(store.nextDiffId), old(store.diffs), store,
                     DecideContent(old(store.versions), Version(old(store.nextVersionId), title, canonicalUrl, summary, now, id),
                                   old(store.nextDiffId), store.home, libs, blocked), r)
      ensures |store.diffs| > |old(store.diffs)| ==> fresh(store.diffs[|old(store.diffs)|])
    {
      var prior := LatestByUrl(store.versions, canonicalUrl);
      r := None;
      if prior.None? || !SameContent(libs, prior.value, title, summary) {
        var path := PathString(HtmlPathByDay(libs, store.home, now, store.nextDiffId));
        // The diff is generated from the two versions' html at the path of
        // the row about to be created; it reads nothing the store changes,
        // so it is computed here, before the rows are written.
        var generated := false;
        if prior.Some? {
          var v := Version(store.nextVersionId, title, canonicalUrl, summary, now, id);
          generated := Generate(libs, Html(prior.value), Html(v), path, blocked) == Written;
        }
        r := store.RecordChange(title, canonicalUrl, summary, now, id, prior, generated);
      }
    }

    /** `Entry.get_latest(archive_enabled)` as written: `raised` says the
        call raised, in which case `r` is None and `checked` keeps its
        value while the rows already written stay. */
    method GetLatestAsWritten(store: VersionStore, libs: Libs, fetch: Fetch, now: Time, blocked: bool)
      returns (r: Option<Version>, raised: bool)
      requires store.Valid()
      modifies this, store
      ensures store.Valid()
      ensures var o := DecideAsWritten(old(store.versions), old(store.nextVersionId), libs, id, fetch, now, blocked);
        && Stored(old(store.versions), old(store.nextVersionId), old(store.nextDiffId), old(store.diffs), store,
                  o.d, Returned(o.d))
        && raised == o.raised
        && r == (if raised then None else Returned(o.d))
        && checked == (if o.d.Skip? || raised then old(checked) else Some(now))
    {
      if fetch.FetchRaised? || fetch.status != 200 {
        return None, false;
      }
      var title := fetch.title;
      var summary := CleanSummary(libs, fetch.summaryHtml);
      var canonicalUrl := RemoveUtm(fetch.finalUrl);
      r, raised := RecordContentAsWritten(store, libs, title, canonicalUrl, summary, now, blocked);
      if !raised {
        checked := Some(now);
      }
    }

    /** Lines 194-229 of `get_latest` as written. */
    method RecordContentAsWritten(store: VersionStore, libs: Libs, title: string, canonicalUrl: string,
                                  summary: string, now: Time, blocked: bool)
      returns (r: Option<Version>, raised: bool)
      requires store.Valid()
      modifies store
      ensures store.Valid()
      ensures var o := DecideContentAsWritten(old(store.versions),
                         Version(old(store.nextVersionId), title, canonicalUrl, summary, now, id), libs, blocked);
        && Stored(old(store.versions), old(store.nextVersionId), old(store.nextDiffId), old(store.diffs), store,
                  o.d, Returned(o.d))
        && raised == o.raised
        && r == (if raised then None else Returned(o.d))
    {
      var prior := LatestByUrl(store.versions, canonicalUrl);
      r, raised := None, false;
      if prior.None? || !SameContent(libs, prior.value, title, summary) {
        // `generate` fails before it reads anything the store changes, so
        // its outcome is computed before the rows are written.
        var kept := false;
        if prior.Some? {
          var v := Version(store.nextVersionId, title, canonicalUrl, summary, now, id);
          var g := Generate(libs, Html(prior.value), Html(v), PropertyObject, blocked);
          kept, raised := g != NotWritten, g == Raised;
        }
        r := store.RecordChange(title, canonicalUrl, summary, now, id, prior, kept);
        if raised {
          r := None;
        }
      }
    }

    /** `Entry.get_latest()` of diffengine/model/Entry.py:57-132. */
    method GetLatestSplit(store: VersionStore, libs: Libs, fetch: Fetch, now: Time)
      returns (r: Option<Version>)
      requires store.Valid()
      modifies this, store
      ensures store.Valid()
      ensures var d := DecideSplit(old(store.versions), old(store.nextVersionId), libs, id, fetch, now);
        && r == Returned(d)
        && store.versions == ApplyVersions(old(store.versions), d)
        && store.nextVersionId == old(store.nextVersionId) + (if d.First? || d.Changed? then 1 else 0)
        && checked == (if d.Skip? then old(checked) else Some(now))
      ensures store.diffs == old(store.diffs) && store.nextDiffId == old(store.nextDiffId)
    {
      if fetch.FetchRaised? || fetch.status != 200 {
        return None;
      }
      var title := fetch.title;
      var summary := CleanSummary(libs, fetch.summaryHtml);
      var canonicalUrl := RemoveUtm(fetch.finalUrl);
      var prior := LatestByUrl(store.versions, canonicalUrl);
      r := None;
      if prior.None? || !SameContent(libs, prior.value, title, summary) {
        var v := store.CreateVersion(title, canonicalUrl, summary, now, id);
        r := Some(v);
      }
      checked := Some(now);
    }
  }

  /** A row appended for a version no earlier row leads to is that
      version's `diff`. */
  lemma DiffOfLast(diffs: seq<Diff>, row: Diff)
    requires forall i | 0 <= i < |diffs| :: diffs[i].newId != row.newId
    ensures DiffOf(diffs + [row], row.newId).Some?
  {
    assert (diffs + [row])[|diffs|] == row;
  }

  // ---------------------------------------------------------------------
  // Lemmas

  /** `html` depends on the title and summary only, and recovers both when
      the title has no `<`. */
  lemma HtmlDeterminesContent(v1: Version, v2: Version)
    requires '<' !in v1.title && '<' !in v2.title
    ensures Html(v1) == Html(v2) <==> v1.title == v2.title && v1.summary == v2.summary
  {
    if Html(v1) == Html(v2) {
      HtmlAfterTag(v1);
      HtmlAfterTag(v2);
      SplitAtSeparator(v1.title, "/h1>\n\n" + v1.summary, v2.title, "/h1>\n\n" + v2.summary, '<');
      assert v1.summary == ("/h1>\n\n" + v1.summary)[6..];
      assert v2.summary == ("/h1>\n\n" + v2.summary)[6..];
    }
  }

  lemma HtmlAfterTag(v: Version)
    ensures Html(v)[4..] == v.title + ['<'] + ("/h1>\n\n" + v.summary)
  {
    var t := "/h1>\n\n" + v.summary;
    assert "</h1>\n\n" + v.summary == ['<'] + t;
    assert Html(v) == "<h1>" + (v.title + ['<'] + t);
  }

  /** A fetch that raised or did not return 200 changes nothing, and only
      such a fetch does. */
  lemma DecideSkipIff(vs: seq<Version>, nv: nat, nd: nat, home: string, libs: Libs,
                      entry: nat, fetch: Fetch, now: Time, blocked: bool)
    ensures Decide(vs, nv, nd, home, libs, entry, fetch, now, blocked) == Skip
      <==> fetch.FetchRaised? || fetch.status != 200
  {
  }

  /** A version is stored exactly when there is no earlier version at the
      canonical URL, or its title differs, or the fingerprints differ; it is
      the fetched content, at the canonical URL, with the next id. */
  lemma DecideAddsIff(vs: seq<Version>, nv: nat, nd: nat, home: string, libs: Libs,
                      entry: nat, fetch: Fetch, now: Time, blocked: bool)
    requires fetch.Response? && fetch.status == 200
    ensures var d := Decide(vs, nv, nd, home, libs, entry, fetch, now, blocked);
      var url := RemoveUtm(fetch.finalUrl);
      var summary := CleanSummary(libs, fetch.summaryHtml);
      var prior := LatestByUrl(vs, url);
      && ((d.First? || d.Changed?) <==>
            (prior.None? || prior.value.title != fetch.title || !Equal(libs, prior.value.summary, summary)))
      && (d.First? <==> prior.None?)
      && ((d.First? || d.Changed?) ==>
            d.v == Version(nv, fetch.title, url, summary, now, entry))
      && (d.Changed? ==> Some(d.prior) == prior)
  {
  }

  /** After a change, the new version is kept exactly when its diff file is
      free and the rendered diff passes `validate_diff`. */
  lemma ChangeAcceptedIff(vs: seq<Version>, nv: nat, nd: nat, home: string, libs: Libs,
                          entry: nat, fetch: Fetch, now: Time, blocked: bool)
    requires Decide(vs, nv, nd, home, libs, entry, fetch, now, blocked).Changed?
    ensures var d := Decide(vs, nv, nd, home, libs, entry, fetch, now, blocked);
      d.accepted <==> !blocked && DiffAccepted(libs.render(Html(d.prior), Html(d.v)))
  {
    var d := Decide(vs, nv, nd, home, libs, entry, fetch, now, blocked);
    GenerateWithPath(libs, Html(d.prior), Html(d.v), HtmlPathByDay(libs, home, now, nd), blocked);
  }

  /** The copy in diffengine/model/Entry.py decides as the other one does,
      except that it keeps every changed version. */
  lemma DecideCopiesAgree(vs: seq<Version>, nv: nat, nd: nat, home: string, libs: Libs,
                          entry: nat, fetch: Fetch, now: Time, blocked: bool)
    ensures var d := Decide(vs, nv, nd, home, libs, entry, fetch, now, blocked);
      DecideSplit(vs, nv, libs, entry, fetch, now)
        == (if d.Changed? then Changed(d.v, d.prior, true) else d)
  {
  }

  /** As written, `get_latest` raises exactly on a change from an earlier
      version; everywhere else it decides as the corrected one, and on a
      change it keeps the new version and the Diff row whatever the diff
      would have shown. */
  lemma AsWrittenRaisesOnChange(vs: seq<Version>, nv: nat, nd: nat, home: string, libs: Libs,
                                entry: nat, fetch: Fetch, now: Time, blocked: bool)
    ensures var d := Decide(vs, nv, nd, home, libs, entry, fetch, now, blocked);
      var o := DecideAsWritten(vs, nv, libs, entry, fetch, now, blocked);
      && (o.raised <==> d.Changed?)
      && (!o.raised ==> o.d == d)
      && (o.raised ==> o.d == Changed(d.v, d.prior, true))
  {
    var d := Decide(vs, nv, nd, home, libs, entry, fetch, now, blocked);
    if d.Changed? {
      assert Generate(libs, Html(d.prior), Html(d.v), PropertyObject, blocked) == Raised;
    }
  }

  /** As written, a change is stored but never reported: the fetch that
      found it raised, and the next fetch of the same page finds the
      stored version as its latest and returns nothing. */
  lemma {:induction false} AsWrittenLosesChange(vs: seq<Version>, nv: nat, libs: Libs, entry: nat,
                                                fetch: Fetch, now: Time, later: Time, blocked: bool,
                                                nv2: nat, blocked2: bool)
    requires forall i | 0 <= i < |vs| :: vs[i].created <= now
    requires DecideAsWritten(vs, nv, libs, entry, fetch, now, blocked).raised
    ensures var o := DecideAsWritten(vs, nv, libs, entry, fetch, now, blocked);
      var o2 := DecideAsWritten(ApplyVersions(vs, o.d), nv2, libs, entry, fetch, later, blocked2);
      o2 == AsWritten(Same, false) && Returned(o2.d) == None
  {
    var o := DecideAsWritten(vs, nv, libs, entry, fetch, now, blocked);
    var v := o.d.v;
    var v2 := Candidate(fetch, libs, nv2, entry, later);
    assert v == Candidate(fetch, libs, nv, entry, now);
    assert v2.url == v.url && v2.title == v.title && v2.summary == v.summary;
    assert ApplyVersions(vs, o.d) == vs + [v];
    LatestAfterAppend(vs, v);
    assert Equal(libs, v.summary, v2.summary);
  }

  /** A version appended after all others at its URL is the latest there. */
  lemma LatestAfterAppend(vs: seq<Version>, v: Version)
    requires forall i | 0 <= i < |vs| :: vs[i].url == v.url ==> vs[i].created <= v.created
    ensures LatestByUrl(vs + [v], v.url) == Some(v)
  {
    assert (vs + [v])[..|vs|] == vs;
  }

  /** Fetching the same page again later records nothing new: the version
      just stored is now the latest and has the same fingerprint. */
  lemma SecondPassSame(vs: seq<Version>, nv: nat, nd: nat, home: string, libs: Libs,
                       entry: nat, fetch: Fetch, now: Time, later: Time, blocked: bool,
                       nv2: nat, nd2: nat, blocked2: bool)
    requires forall i | 0 <= i < |vs| :: vs[i].created <= now
    requires Returned(Decide(vs, nv, nd, home, libs, entry, fetch, now, blocked)).Some?
    ensures var vs2 := ApplyVersions(vs, Decide(vs, nv, nd, home, libs, entry, fetch, now, blocked));
      Decide(vs2, nv2, nd2, home, libs, entry, fetch, later, blocked2) == Same
  {
    var d := Decide(vs, nv, nd, home, libs, entry, fetch, now, blocked);
    var v := Returned(d).value;
    var v2 := Candidate(fetch, libs, nv2, entry, later);
    assert v2.url == v.url && v2.title == v.title && v2.summary == v.summary;
    assert ApplyVersions(vs, d) == vs + [v];
    LatestAfterAppend(vs, v);
    assert Equal(libs, v.summary, v2.summary);
  }

  /** A rejected change leaves the table as it was, so the next identical
      fetch finds the same earlier version and tries, and fails, again. */
  lemma RejectedChangeRepeats(vs: seq<Version>, nv: nat, nd: nat, home: string, libs: Libs,
                              entry: nat, fetch: Fetch, now: Time, blocked: bool,
                              nv2: nat, nd2: nat)
    requires Decide(vs, nv, nd, home, libs, entry, fetch, now, blocked).Changed?
    requires !Decide(vs, nv, nd, home, libs, entry, fetch, now, blocked).accepted
    ensures ApplyVersions(vs, Decide(vs, nv, nd, home, libs, entry, fetch, now, blocked)) == vs
    ensures var d2 := Decide(vs, nv2, nd2, home, libs, entry, fetch, now, blocked);
      d2.Changed? && !d2.accepted
      && d2.prior == Decide(vs, nv, nd, home, libs, entry, fetch, now, blocked).prior
  {
    var d := Decide(vs, nv, nd, home, libs, entry, fetch, now, blocked);
    var d2 := Decide(vs, nv2, nd2, home, libs, entry, fetch, now, blocked);
    ChangeAcceptedIff(vs, nv, nd, home, libs, entry, fetch, now, blocked);
    ChangeAcceptedIff(vs, nv2, nd2, home, libs, entry, fetch, now, blocked);
    assert Html(d2.v) == Html(d.v);
  }

  /** A version id not yet handed out has no Diff row. */
  lemma DiffOfFresh(store: VersionStore, id: nat)
    requires store.Valid() && id >= store.nextVersionId
    ensures DiffOf(store.diffs, id) == None && NextDiffOf(store.diffs, id) == None
  {
  }

  /** After a rejected change the earlier version's `next_diff` is a Diff
      row whose new version is not in the table. */
  lemma RejectedLeavesDanglingDiff(vs: seq<Version>, nv: nat, diffs: seq<Diff>, row: Diff)
    requires forall i | 0 <= i < |vs| :: vs[i].id < nv
    requires row.newId == nv
    requires forall i | 0 <= i < |diffs| :: diffs[i].oldId != row.oldId
    ensures NextDiffOf(diffs + [row], row.oldId) == Some(row)
    ensures forall i | 0 <= i < |vs| :: vs[i].id != NextDiffOf(diffs + [row], row.oldId).value.newId
  {
    var all := diffs + [row];
    assert all[|diffs|] == row;
    assert forall k | 0 <= k < |diffs| :: all[k] == diffs[k];
  }
}
