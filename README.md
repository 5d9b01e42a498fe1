# diffengine change detection, modelled in Dafny

diffengine watches RSS/Atom feeds. For every entry found in a feed it
fetches the page again now and then and stores a new `EntryVersion` when the
readable text has changed. It renders an HTML diff between the previous and
the new version and tweets about it. This project models the core of that
pipeline and proves properties of the model:

- **Text** (`text.dfy`): `_normal`, `_fingerprint` and `_equal`. Whitespace
  is Python's `str.isspace` set, which is also what `re`'s `\s` and
  `str.strip()` use.
- **URLs** (`urls.dfy`): `Feed.sanitize_url` and `_remove_utm`. `urlparse`
  components are a `Url` record. `urlunparse` is written out. `parse_qs`
  grouping and `urlencode(doseq=True)` work on name/value pairs.
- **Staleness** (`staleness.dfy`): `Entry.stale` over microsecond
  timestamps. `timedelta.seconds` is modelled exactly, as the remainder
  within a day.
- **Diffs** (`diffs.dfy`):
  - `Diff.validate_diff` and its exclusion lists, as a loop like the
    source's;
  - the diff file paths;
  - `Diff.generate` reduced to its outcome.
- **Versions** (`versions.dfy`):
  - the `EntryVersion` record, its `html`, and the `diff`/`next_diff`
    lookups;
  - the `Diff` row, as a class whose `tweeted` field changes;
  - a `VersionStore` object holding the version and diff tables;
  - `Entry.get_latest`, as a method of an `Entry` class whose `checked`
    field it sets. Both copies are modelled: the package one
    (`diffengine/__init__.py`) and the split one
    (`diffengine/model/Entry.py`).
- **Registry** (`registry.dfy`): the entry and feed-entry tables as a
  `Registry` object, with `Entry.get_or_create`, `Feed.refresh_feed` (both
  copies) and `Feed.entries`.
- **Batch** (`batch.dfy`): the counter loops of `process_feed`, the
  `FeedProcessor` class and `DiffEngine.check_feeds`, with the three copies
  of `tweet_diff`: their guards, the status text, and when `diff.tweeted`
  is set.

Library code the pipeline calls is a parameter, a `Libs` value in
`common.dfy`:

- `bleach.clean` and `htmldiff.render_html_diff` are uninterpreted
  functions.
- The Unicode "P" category test is an uninterpreted predicate.
- `strftime('%Y-%m-%d')` is an uninterpreted function.

What the outside world gave is an input:

- The result of an HTTP fetch is a `Fetch` value: raised, or a status, the
  final URL, readability's title and summary.
- The result of a feed parse is a `FeedFetch` value: raised, or the item
  links.
- Whether the diff file already exists (or the template is missing) is a
  `blocked` flag.
- Whether the Twitter upload returned normally is an `uploaded` flag.
- The clock is a `now` parameter.

The database tables are sequences held in object fields. Ids come from
counters that only grow.

Where the two copies of the pipeline differ, both are modelled and a lemma
relates them (`NormalCopiesAgree`, `StaleCopiesAgree`, `DecideCopiesAgree`,
`RefreshCopiesAgree`, `CheckAgreesWithProcess`).

## Model

| member | source | states |
|---|---|---|
| Text.NormalForm | diffengine/__init__.py:638-648 | the output of `_normal` holds no no-break space, curly double quote, right single quote, newline or soft hyphen, has no two adjacent spaces and no leading or trailing whitespace |
| Text.NormalIdempotent | diffengine/__init__.py:638-648 | normalising a normalised string changes nothing |
| Text.RewriteChars | diffengine/__init__.py:640-645 | after the six replacements none of the six replaced characters is left |
| Text.RewriteIdentity | diffengine/__init__.py:640-645 | a string holding none of the six characters is left unchanged by the replacements |
| Text.CollapseNoDouble | diffengine/__init__.py:646 | collapsing space runs leaves no two adjacent spaces, and the result starts with a space exactly when the input does |
| Text.CollapseIdentity | diffengine/__init__.py:646 | a string without two adjacent spaces is unchanged by the collapse |
| Text.CollapseChars | diffengine/__init__.py:646 | every character of the collapsed string occurs in the input |
| Text.TrimLeftStarts | diffengine/__init__.py:647 | after removing leading whitespace the string is empty or starts with a non-space |
| Text.TrimRightEnds | diffengine/__init__.py:647 | after removing trailing whitespace the string is empty or ends with a non-space |
| Text.StripProperties | diffengine/__init__.py:647 | `strip()` returns a contiguous substring of its input with no whitespace at either end |
| Text.StripIdentity | diffengine/__init__.py:647 | a string with no whitespace at either end is its own `strip()` |
| Text.CollapseVariantsAgree | diffengine/model/Entry.py:142 | collapsing runs of two or more spaces gives the same string as collapsing runs of one or more |
| Text.NormalCopiesAgree | diffengine/model/Entry.py:134-144 | the split copy of `_normal` (pattern `'  +'`) equals the package copy (pattern `' +'`) on every input |
| Text.Fingerprint | diffengine/__init__.py:659-667 | a fingerprint holds no whitespace and no punctuation-category character |
| Text.FilterAppend | diffengine/__init__.py:665-666 | removing characters from a concatenation is removing them from each part |
| Text.SqueezeIgnores | diffengine/__init__.py:665-666 | inserting one whitespace or punctuation character anywhere does not change what is left after removing whitespace and punctuation |
| Text.FingerprintOfNormal | diffengine/__init__.py:659-667 | a string and its normal form have the same fingerprint, so `_equal` holds between them |
| Text.EqualEquivalence | diffengine/__init__.py:651-652 | `_equal` is reflexive, symmetric and transitive |
| Text.EqualIgnoresInsertion | diffengine/__init__.py:659-667 | two texts whose bleached normal forms differ by one inserted whitespace or punctuation character are `_equal` |
| Urls.SanitizeRemovesHttp | diffengine/__init__.py:50-52 | no `http://` is left anywhere in a sanitised URL, not only at its start |
| Urls.SanitizeIdempotent | diffengine/model/Feed.py:18-20 | sanitising twice is sanitising once |
| Urls.SanitizeFixedPoint | diffengine/model/Feed.py:18-20 | a URL is unchanged by `sanitize_url` exactly when it contains no `http://` |
| Urls.SanitizePrefix | diffengine/__init__.py:50-52 | a prefix of the sanitised URL that has no `h` was in the input already |
| Urls.SplitJoin | diffengine/__init__.py:672 | splitting fields joined by a separator they do not contain gives the fields back |
| Urls.GroupPairs | diffengine/__init__.py:672 | grouping the pairs of a dictionary with distinct names, none of them empty, gives that dictionary back |
| Urls.ParseUrlencode | diffengine/__init__.py:672-679 | `parse_qs(urlencode(q, doseq=True))` is `q` for every well-formed query dictionary |
| Urls.ParseQsWellFormed | diffengine/__init__.py:672 | `parse_qs` returns distinct names, each with at least one value, with no `&` or `=` in a name and no `&` in a value |
| Urls.DropUtm | diffengine/__init__.py:673 | no name in the filtered dictionary starts with `utm_` |
| Urls.DropUtmWellFormed | diffengine/__init__.py:673 | filtering keeps the dictionary well formed, and every group it keeps is a group of the input |
| Urls.DropUtmKeeps | diffengine/__init__.py:673 | every group whose name does not start with `utm_` is kept, with all its values |
| Urls.DropUtmIdentity | diffengine/__init__.py:673 | a dictionary with no `utm_` names is unchanged by the filter |
| Urls.RemoveUtmQuery | diffengine/__init__.py:670-681 | the query `_remove_utm` produces parses to the input's query minus its `utm_` names, so it holds no `utm_` name and every other name keeps its values |
| Urls.RemoveUtmKeepsComponents | diffengine/__init__.py:674-681 | scheme, netloc, path, params and fragment are passed to `urlunparse` unchanged |
| Urls.RemoveUtmIdempotent | diffengine/model/Entry.py:156-167 | removing tracking parameters from the components twice is removing them once |
| Urls.RemoveUtmNoTracking | diffengine/model/Entry.py:156-167 | a URL whose query is the encoding of a dictionary without `utm_` names is left as it is |
| Urls.RemoveUtmExample | diffengine/__init__.py:670-681 | `https://example.com/a?utm_source=x&b=2` becomes `https://example.com/a?b=2` |
| Staleness.Seconds | diffengine/__init__.py:128 | `timedelta.seconds` lies in 0..86399 |
| Staleness.StaleCases | diffengine/__init__.py:123-148 | an entry never checked, or whose `.seconds` age is 0, is stale; otherwise it is stale exactly when 5 * staleness >= hotness |
| Staleness.CutoffNeverFires | diffengine/__init__.py:132-134 | a `.seconds` value never exceeds 2628000, so the one-month test never returns False |
| Staleness.SecondsForgetsDays | diffengine/__init__.py:128 | adding whole days to an age leaves its `.seconds` unchanged |
| Staleness.StaleCopiesAgree | diffengine/model/Entry.py:26-55 | the split copy without the cutoff decides exactly as the package copy |
| Staleness.StaleCutoffCounterexample | diffengine/__init__.py:128-134 | an entry created 31 days and 100 seconds ago, checked 50 seconds ago, is stale as written and not stale with whole-second ages |
| Staleness.StaleIntendedCutoff | diffengine/__init__.py:132-134 | with whole-second ages, an entry more than 2628000 seconds old is never stale |
| Staleness.StaleIntendedMonotone | diffengine/__init__.py:136-145 | with whole-second ages, an entry that is stale stays stale if its last check was earlier |
| Staleness.StaleIntendedAgreesWithinDay | diffengine/__init__.py:123-148 | for ages below one day the as-written and the whole-second tests agree |
| Staleness.StaleExamples | diffengine/__init__.py:136-148 | three concrete ratios: 2000/2500 and 900/4000 are stale, 700/4000 is not |
| Diffs.ValidateDiff | diffengine/__init__.py:330-356 | the loop over the exclusion lists returns true exactly when some marker is present and the two marker counts are not both equal to their exclusion counts |
| Diffs.MarkerGuardRedundant | diffengine/__init__.py:331-333 | the first guard never changes the answer: a diff is accepted exactly when the counts do not both match |
| Diffs.NoMarkerRejected | diffengine/model/Diff.py:57-59 | a text with neither `<ins>` nor `<del>` is rejected |
| Diffs.InsExclusionsAtFront | diffengine/model/Diff.py:49-50 | at most one insertion exclusion starts at a position, and only where an `<ins>` starts |
| Diffs.InsExclusionsBounded | diffengine/model/Diff.py:49-50 | the insertion exclusions never match more often than `<ins>` occurs |
| Diffs.StrayInsertionAccepted | diffengine/model/Diff.py:78-82 | an `<ins>` not followed by `Comments` or `* Comments` makes the diff accepted |
| Diffs.DoubleCountedDeletion | diffengine/model/Diff.py:52-54 | `Last updated <del>Comments` has one `<del>` but matches two deletion exclusions, so it is accepted |
| Diffs.HtmlPathInjective | diffengine/model/Diff.py:26-32 | distinct diff ids get distinct HTML paths |
| Diffs.DiffFileInjective | diffengine/model/Diff.py:26-32 | distinct diff ids get distinct relative file names `diffs/<bucket>/<id>.html` |
| Diffs.HtmlPathBucket | diffengine/model/Diff.py:29 | the bucket directory is a number below 257 |
| Diffs.ScreenshotPathSuffix | diffengine/model/Diff.py:34-36 | with only the extension replaced, a `.html` path gives a `.jpg` path |
| Diffs.ThumbnailPathSuffix | diffengine/model/Diff.py:38-40 | with only the extension replaced, a `.html` path gives a `-thumb.jpg` path |
| Diffs.PathsAgreeWithoutDots | diffengine/model/Diff.py:34-40 | when the home directory has no dot, the replace-all paths of the source equal the extension-only paths |
| Diffs.DotlessScreenshot | diffengine/model/Diff.py:34-40 | for a path stem without dots, the replace-all screenshot and thumbnail paths change only the extension |
| Diffs.SuffixPathsUnderHome | diffengine/model/Diff.py:26-40 | for every home directory, the extension-only screenshot and thumbnail paths are `diffs/<id % 257>/<id>.jpg` and `diffs/<id % 257>/<id>-thumb.jpg` joined to the home |
| Diffs.ScreenshotPathCounterexample | diffengine/model/Diff.py:34-36 | under a home directory whose name contains `.html`, the replace-all screenshot path differs from the extension-only path |
| Versions.Html | diffengine/model/EntryVersion.py:17-19 | `html` starts with `<h1>`, the title, `</h1>`, ends with the summary and is 11 characters longer than both together |
| Versions.HtmlDeterminesContent | diffengine/model/EntryVersion.py:8-19 | for titles without `<`, two versions have the same `html` exactly when their titles and summaries are equal |
| Versions.DiffOf | diffengine/__init__.py:246-255 | `version.diff` is None exactly when no Diff has this version as `new`, and otherwise the first such row |
| Versions.NextDiffOf | diffengine/model/Diff.py:131-142 | `version.next_diff` is None exactly when no Diff has this version as `old`, and otherwise the first such row |
| Versions.LatestByUrl | diffengine/__init__.py:193-198 | the prior version is None exactly when no version has the canonical URL; otherwise it is one with that URL and the greatest `created` |
| Versions.LatestAfterAppend | diffengine/__init__.py:193-198 | a version created no earlier than the others at its URL is the latest there |
| Versions.VersionStore.CreateVersion | diffengine/__init__.py:206-211 | `EntryVersion.create` appends one row with the next id and leaves the diff table alone |
| Versions.VersionStore.CreateDiff | diffengine/__init__.py:216 | `Diff.create` appends one fresh, untweeted row with the next id and leaves the versions alone |
| Versions.VersionStore.DeleteLastVersion | diffengine/__init__.py:219 | `new.delete()` removes the version just created and nothing else |
| Versions.Entry.GetLatest | diffengine/__init__.py:150-229 | the returned version, the version and diff tables, the id counters and `checked` are what `Decide` says (`Stored`); a returned version has a diff row exactly when a prior version existed |
| Versions.Entry.RecordContent | diffengine/__init__.py:192-223 | after the fetch, the lookup of the prior version and the comparison leave the store as `DecideContent` says for the candidate version |
| Versions.VersionStore.RecordChange | diffengine/__init__.py:206-220 | a change appends the new version with the next id; with a prior version it also appends one fresh, untweeted Diff row from the prior to the new version, and the new version stays exactly when the diff was generated; a kept version has a diff row exactly when there was a prior version |
| Versions.DecideSkipIff | diffengine/__init__.py:167-175 | nothing changes, `checked` included, exactly when the fetch raised or the status was not 200 |
| Versions.DecideAddsIff | diffengine/__init__.py:193-211 | a version is created exactly when there is no prior version at the canonical URL, or its title differs, or its summary's fingerprint differs; the new version holds the fetched title, the URL without `utm_` parameters and the cleaned summary |
| Versions.ChangeAcceptedIff | diffengine/__init__.py:214-220 | after a change the new version is kept exactly when the diff file is not blocked and `validate_diff` accepts the rendered diff |
| Versions.RejectedChangeRepeats | diffengine/__init__.py:214-220 | a rejected change leaves the versions as they were, so the next check with the same page is again a rejected change from the same prior version |
| Versions.SecondPassSame | diffengine/__init__.py:200-229 | right after a version is stored, fetching the same page again creates nothing |
| Versions.DiffOfFresh | diffengine/__init__.py:245-267 | a version id not yet handed out has neither `diff` nor `next_diff` |
| Versions.DiffOfLast | diffengine/__init__.py:216 | once the Diff row is stored, the new version's `diff` lookup finds a row |
| Versions.RejectedLeavesDanglingDiff | diffengine/__init__.py:216-220 | after a rejection the prior version's `next_diff` is the stored row, whose `new` version is in no table |
| Versions.Entry.GetLatestAsWritten | diffengine/__init__.py:150-229 | as written: the tables and counters are what `DecideAsWritten` says; on a change from a prior version the call raises, returns nothing and leaves `checked`, while the new version and its Diff row stay |
| Versions.Entry.RecordContentAsWritten | diffengine/__init__.py:192-227 | as written: after the fetch the store is as `DecideContentAsWritten` says, and the call raises exactly on a change from a prior version |
| Versions.AsWrittenRaisesOnChange | diffengine/__init__.py:214-217 | as written, `get_latest` raises exactly when the corrected one finds a change from a prior version; otherwise both decide alike, and on a change the new version is kept whatever the diff shows |
| Versions.AsWrittenLosesChange | diffengine/__init__.py:193-227 | as written, after the raising call the next fetch of the same page finds the stored version as its latest and returns nothing, so the change is never reported |
| Versions.Entry.GetLatestSplit | diffengine/model/Entry.py:57-132 | the split copy: same skip and creation rules, no diff row, and a changed version is always kept and returned |
| Versions.DecideCopiesAgree | diffengine/model/Entry.py:95-125 | the split copy decides as the package copy, except that it accepts every change |
| Versions.Entry.constructor | diffengine/__init__.py:103-106 | a new entry's `created` and `checked` are both the current time |
| Registry.FindRow | diffengine/__init__.py:82 | the lookup by URL is None exactly when no entry has that URL, and otherwise an entry with it |
| Registry.RowsUnique | diffengine/__init__.py:82 | with URLs unique, the lookup finds the one entry with that URL |
| Registry.RowsAppend | diffengine/__init__.py:82 | creating an entry for an unknown URL with the next id keeps ids increasing and URLs unique |
| Registry.Registry.GetOrCreate | diffengine/__init__.py:82 | `get_or_create` returns the entry with the URL, or appends a fresh one with the next id and both timestamps now; `created` says which |
| Registry.Registry.RefreshItem | diffengine/model/Feed.py:45-64 | one loop iteration leaves the tables and the loop state as `Step` says |
| Registry.Registry.RefreshUrl | diffengine/__init__.py:82-96 | after `_sanitize_url`, `get_or_create` and the link step leave the tables and the loop state as `StepUrl` says |
| Registry.Registry.LinkEntry | diffengine/__init__.py:84-96 | the duplicate test and `FeedEntry.create` change only the links, as `LinkStep` says, and keep the tables valid |
| Registry.Registry.RefreshItems | diffengine/__init__.py:74-96 | the loop over the feed's items, from an empty `dupe_table` and zero counts, ends with the tables and count of `Refresh` |
| Registry.LinkKeepsValid | diffengine/__init__.py:89-96 | a link for a new entry, or for one not yet linked to the feed, keeps ids below the counter and links unique |
| Registry.Registry.RefreshFeed | diffengine/__init__.py:62-100 | a fetch or parse failure returns 0 and changes nothing; otherwise the tables and the count are those of `Refresh`, and every item's entry ends with exactly one link to this feed |
| Registry.LinkKeepsUnique | diffengine/__init__.py:89-96 | adding a link for a new entry, or for an entry not yet linked to the feed, keeps every (feed, entry) pair unique |
| Registry.StepKeepsInv | diffengine/__init__.py:77-96 | one iteration keeps ids below the counter, URLs unique, links unique, and every entry in `dupe_table` linked to the feed |
| Registry.RefreshKeepsInv | diffengine/__init__.py:77-96 | the whole loop keeps the same invariant |
| Registry.RefreshCountsLinks | diffengine/model/Feed.py:42-68 | the loop only appends to the tables, and the count it returns is the number of links created and at most the number of items |
| Registry.StepLinksItem | diffengine/__init__.py:81-96 | after an iteration the item's entry exists and is linked to the feed |
| Registry.RefreshLinksEveryItem | diffengine/__init__.py:77-96 | after the loop every item's entry is linked to the feed exactly once |
| Registry.LinkCountOne | diffengine/model/Feed.py:61-64 | with no duplicate links, a linked pair is linked exactly once |
| Registry.NotLinkedNoCount | diffengine/model/Feed.py:61 | a pair that is not linked has no link |
| Registry.RefreshCopiesAgree | diffengine/model/Feed.py:50-55 | the loop that never finds a duplicate gives the same tables and count as the loop that does |
| Registry.SortNewestFirst | diffengine/__init__.py:60 | ordering by `created` descending gives a sorted permutation |
| Registry.FeedEntries | diffengine/model/Feed.py:22-28 | `Feed.entries` is sorted newest first and holds one entry per link of the feed |
| Registry.FeedEntriesMembers | diffengine/__init__.py:54-60 | an entry is listed by `Feed.entries` exactly when it is stored and linked to the feed |
| Batch.TweetDiff | diffengine/__init__.py:500-532 | nothing is posted or changed unless Twitter is configured, the feed has a token and the diff is untweeted; otherwise the status is the cut title and the URL, and `tweeted` is set to now only when the upload returned |
| Batch.ProcessFeed | diffengine/__init__.py:564-614 | the five counters at the end of `process_feed` are `TallyFeeds` of the per-entry outcomes |
| Batch.ChangeCountsOnlyChecked | diffengine/__init__.py:599-610 | with `get_latest` as written, a stale entry that changed from a prior version counts as checked and as nothing else; every other entry counts as with the corrected `get_latest` |
| Batch.ProcessFeedBounds | diffengine/__init__.py:567-610 | every entry of every feed is counted once, as checked or skipped, and tweeted <= diffs <= new <= checked |
| Batch.FeedProcessor.constructor | diffengine/FeedProcessor.py:8-15 | a new processor has all five counters at 0 |
| Batch.FeedProcessor.ProcessFeedEntries | diffengine/FeedProcessor.py:17-35 | the counters move from their old values as `Tally` of the entries says |
| Batch.FeedProcessor.TweetDiffWith | diffengine/FeedProcessor.py:41-72 | the guards and status of `tweet_diff` with the 225-character limit |
| Batch.TallyAppend | diffengine/FeedProcessor.py:19-35 | processing two lists of entries in turn is processing their concatenation |
| Batch.TallyBounds | diffengine/FeedProcessor.py:19-33 | checked + skipped grows by the number of entries; `new` grows by at most `checked`; `diffs` by at most `new`; `tweeted` grows exactly with `diffs` when tweeting and not at all otherwise |
| Batch.StatsInjective | diffengine/FeedProcessor.py:37-39 | the stats text determines all five counters |
| Batch.FreshStats | unit_tests.py:7-10 | a fresh processor's stats read `new: 0, checked: 0, skipped: 0, diffs: 0, tweeted: 0` |
| Batch.StatusShape | diffengine/FeedProcessor.py:58-64 | the status is the title with every `| Stuff.co.nz` removed (its first `limit` characters and `…` when it has at least `limit`), a space and the URL |
| Batch.StatusKeepsShortTitle | diffengine/diffengine.py:64-70 | a title shorter than the limit without the site suffix is posted whole |
| Batch.StatusEllipsisAtLimit | diffengine/FeedProcessor.py:61-62 | a title of exactly the limit gets `…` although nothing was cut |
| Batch.CheckFeeds | diffengine/diffengine.py:18-44 | `check_feeds` ends with the counters `CheckTallyFeeds` gives, or ends by an exception exactly when that is None |
| Batch.NoneStaysNone | diffengine/diffengine.py:40-43 | once a diff lookup has raised, the run is over whatever the remaining entries are |
| Batch.FeedsNoneFrom | diffengine/diffengine.py:21-43 | an exception in any feed ends the whole run |
| Batch.CheckAgreesWithProcess | diffengine/diffengine.py:30-43 | over one feed's entries, the loop of `check_feeds` raises exactly when some stale entry's diff lookup raises, and otherwise counts checked, skipped and new as `process_feed` does |
| Batch.CheckFeedsAgree | diffengine/diffengine.py:18-44 | over all feeds, `check_feeds` raises exactly when some stale entry of some feed has a diff lookup that raises, and otherwise counts checked, skipped and new as `process_feed` does |
| Batch.CheckFeedsBounds | diffengine/diffengine.py:21-34 | a `check_feeds` run that finishes has counted every entry of every feed once, as checked or skipped, and `new` is at most `checked` |

## Left out

- HTTP fetching, `feedparser`, `readability`: the fetch and the parse are input values.
- `bleach.clean`, `htmldiff.render_html_diff`, the Unicode category table and `strftime`: these are uninterpreted functions in `Libs`.
- Percent-encoding in `parse_qs`/`urlencode`: names and values are kept as they are.
- `urlparse`: the URL arrives as its components.
- The float division in `stale` is the exact integer test `5 * staleness >= hotness`. Both operands are whole numbers below 86400, so the binary64 quotient never rounds across 0.2.
- Logging and `time.sleep`: nothing to state. In diffengine/model/Entry.py `time` is the `datetime` module, so `time.sleep(1)` would raise before the fetch; the model of that copy starts at the fetch.
- Writing the diff HTML, the Jinja template and the PhantomJS screenshots: `generate` is its outcome, and `blocked` stands for an existing diff file or a missing template. `generate_diff_images` in diffengine/__init__.py returns at once because the HTML file it checks for was just written.
- The Wayback `archive` call and the Twitter API: `uploaded` says whether the upload returned. Twitter's own length rules for a status are not checked.
- KeyErrors from missing `consumer_key` or `access_token` entries in the configuration are not modelled.
- `rerun`, `config.py`, `init`, `main` and the database setup: configuration and command-line plumbing.
- The import wiring of the split files is not modelled:
  - `from model import Entry` binds a module;
  - `EntryVersion` there has no `diff`;
  - the defaults `datetime.utcnow()` in diffengine/model/Entry.py are taken once, at import.

  The split copies are modelled as their logic reads.
- Batch.TweetDiff: `uploaded` stands for an upload of the thumbnail file. As written, the package copy passes the bound method `diff.thumbnail_path` (diffengine/__init__.py:310-311, 527) where a file name is expected. The upload library is not part of this model; if it raises on a method, as expected, that copy never sets `tweeted`. The engine copy (diffengine/diffengine.py:73) passes the property's string and is modelled as written.
- Batch.FeedProcessor.TweetDiffWith: as written, diffengine/FeedProcessor.py:67 calls `diff.thumbnail_path()`, which raises inside the `try` before the upload. With diffengine/model/Diff.py:38-40 the property gives a string, which cannot be called. With diffengine/__init__.py:310-311 the default `path=html_path` is the property object, which has no `replace`. So this copy never sets `tweeted`; the model leaves `uploaded` an input, as for the other copies.
- Urls.ParseQs: follows Python 3.9.2 and later, where `parse_qs` splits fields on `&` only. Earlier versions also split on `;`.
- peewee: only the lookups by URL, by (feed, entry) and by `new`/`old` version id are modelled. Ids come from counters that never reuse a value, whereas SQLite may reuse the id of a deleted row.
- Versions.VersionStore.DeleteLastVersion: models `new.delete()` as the intended removal of the row. peewee's `delete` called on an instance may only build a query without running it.
- Batch.ProcessFeed: does not state what happens to each `Diff.tweeted`. Each call's effect is stated by Batch.TweetDiff, and the loop's frame is the set of diffs named in its input.
- Batch.CheckFeeds: same as Batch.ProcessFeed for `Diff.tweeted`.
- Batch.FeedProcessor.ProcessFeedEntries: same as Batch.ProcessFeed for `Diff.tweeted`.
- The batch loops take what `entry.stale`, `get_latest` and `version.diff` gave for each entry as inputs. They do not call Versions.Entry.GetLatest or Registry.Registry.RefreshFeed on a shared store.
- diffengine/model/FeedEntry.py: its link record is the `Link` datatype of the registry.

## Findings

| source | as written | input that shows it | evidently intended | confidence | as-written member | corrected member |
|---|---|---|---|---|---|---|
| diffengine/__init__.py:128-134 | `hotness` is `timedelta.seconds`, the remainder within one day, so `hotness - 2628000 > 0` never holds | created 31 days and 100 s ago, checked 50 s ago: stale, although older than a month | ages in whole seconds (`total_seconds()`), so that entries older than a month are no longer checked | high; not executed | Staleness.StaleCutoffCounterexample | Staleness.StaleIntendedCutoff |
| diffengine/__init__.py:217, 313-314, 359 | `diff.generate()` uses its default argument, the `html_path` property object, and `os.path.isfile` raises `TypeError` on it: the new version and its Diff row stay, `checked` is not set, `process_feed` counts the entry only as checked, and the next check finds no change | any change to an entry that already has a version | the diff generated at `diff.html_path` | high; not executed | Versions.AsWrittenLosesChange | Versions.ChangeAcceptedIff |
| diffengine/model/Diff.py:34-40 | `replace(".html", ".jpg")` and `replace('.jpg', '-thumb.jpg')` rewrite every occurrence in the whole path, the home directory included | home directory `/srv/a.html` | only the file extension changes | low; not executed | Diffs.ScreenshotPathCounterexample | Diffs.SuffixPathsUnderHome |

The model uses the corrected forms:

- Staleness.StaleIntended is the whole-second test. The batch loops take whether an entry is stale as an input.
- Versions.Entry.GetLatest generates the diff at its path. Versions.Entry.GetLatestAsWritten keeps the as-written call, and Batch.ChangeCountsOnlyChecked gives its effect on the counters.
- Diffs.SuffixPathsUnderHome states the extension-only paths. No other member needs a screenshot or thumbnail path.
