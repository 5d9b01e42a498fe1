/** The `Diff` record's pure parts: the check that a rendered diff holds a
    real change (`validate_diff` and its exclusion lists), the file paths a
    diff is written to, and whether `generate` writes the diff
    (diffengine/__init__.py:291-381, diffengine/model/Diff.py:19-117). */
module Diffs {
  import opened Common
  import opened Strings

  const Ins: string := "<ins>"
  const Del: string := "<del>"

  /** `ins_diff_exclusions`; `\*` in the pattern is a literal star. */
  const InsExclusions: seq<string> := ["<ins>* Comments", "<ins>Comments"]
  /** `del_diff_exclusions` */
  const DelExclusions: seq<string> := ["<del>* Comments", "<del>Comments", "Last updated <del>"]

  /** Total of `len(re.findall(p, diff))` over the patterns `ps`. */
  function ExclusionCount(diff: string, ps: seq<string>): nat
    requires forall i | 0 <= i < |ps| :: |ps[i]| > 0
  {
    if ps == [] then 0
    else ExclusionCount(diff, ps[..|ps| - 1]) + CountOcc(diff, ps[|ps| - 1])
  }

  /** Every marker is accounted for by an exclusion pattern. */
  predicate CountsMatch(diff: string) {
    && CountOcc(diff, Ins) == ExclusionCount(diff, InsExclusions)
    && CountOcc(diff, Del) == ExclusionCount(diff, DelExclusions)
  }

  /** What `validate_diff` accepts: some marker is present and the marker
      counts are not both matched by exclusion counts. */
  predicate DiffAccepted(diff: string) {
    (Contains(diff, Ins) || Contains(diff, Del)) && !CountsMatch(diff)
  }

  /** `Diff.validate_diff(diff)` (diffengine/__init__.py:330-356). */
  method ValidateDiff(diff: string) returns (ok: bool)
    ensures ok == DiffAccepted(diff)
  {
    if !Contains(diff, Ins) && !Contains(diff, Del) {
      return false;
    }
    var insCount := CountOcc(diff, Ins);
    var delCount := CountOcc(diff, Del);
    var insExclusionCount := 0;
    var delExclusionCount := 0;
    for i := 0 to |InsExclusions|
      invariant insExclusionCount == ExclusionCount(diff, InsExclusions[..i])
    {
      assert InsExclusions[..i + 1][..i] == InsExclusions[..i];
      insExclusionCount := insExclusionCount + CountOcc(diff, InsExclusions[i]);
    }
    assert InsExclusions[..|InsExclusions|] == InsExclusions;
    for i := 0 to |DelExclusions|
      invariant delExclusionCount == ExclusionCount(diff, DelExclusions[..i])
    {
      assert DelExclusions[..i + 1][..i] == DelExclusions[..i];
      delExclusionCount := delExclusionCount + CountOcc(diff, DelExclusions[i]);
    }
    assert DelExclusions[..|DelExclusions|] == DelExclusions;
    if insCount == insExclusionCount && delCount == delExclusionCount {
      return false;
    }
    return true;
  }

  // ---------------------------------------------------------------------
  // Lemmas about validate_diff

  lemma {:induction false} ContainsFromSuffix(d: string, k: nat, p: string)
    requires k <= |d| && Contains(d[k..], p)
    ensures Contains(d, p)
    decreases k
  {
    if k > 0 {
      assert d[k..] == d[1..][k - 1..];
      ContainsFromSuffix(d[1..], k - 1, p);
    }
  }

  /** Text that holds `a + p + b` holds `p`. */
  lemma {:induction false} ContainsInfix(d: string, a: string, p: string, b: string)
    requires Contains(d, a + p + b)
    ensures Contains(d, p)
    decreases |d|
  {
    if StartsWith(d, a + p + b) {
      assert d[|a|..][..|p|] == (a + p + b)[|a|..|a| + |p|] == p;
      ContainsFromSuffix(d, |a|, p);
    } else {
      ContainsInfix(d[1..], a, p, b);
    }
  }

  lemma NoMarkerNoExclusion(d: string, a: string, p: string, b: string)
    requires |a + p + b| > 0 && |p| > 0
    requires !Contains(d, p)
    ensures CountOcc(d, a + p + b) == 0
  {
    if CountOcc(d, a + p + b) > 0 {
      CountOccPositive(d, a + p + b);
      ContainsInfix(d, a, p, b);
    }
  }

  /** The first guard of `validate_diff` never decides anything: without
      markers every count is zero, so the exclusion test rejects too. */
  lemma MarkerGuardRedundant(d: string)
    ensures DiffAccepted(d) <==> !CountsMatch(d)
  {
    if !Contains(d, Ins) && !Contains(d, Del) {
      CountOccPositive(d, Ins);
      CountOccPositive(d, Del);
      InsExclusionsTotal(d);
      DelExclusionsTotal(d);
      assert InsExclusions[0] == [] + Ins + "* Comments";
      assert InsExclusions[1] == [] + Ins + "Comments";
      NoMarkerNoExclusion(d, [], Ins, "* Comments");
      NoMarkerNoExclusion(d, [], Ins, "Comments");
      assert DelExclusions[0] == [] + Del + "* Comments";
      assert DelExclusions[1] == [] + Del + "Comments";
      assert DelExclusions[2] == "Last updated " + Del + [];
      NoMarkerNoExclusion(d, [], Del, "* Comments");
      NoMarkerNoExclusion(d, [], Del, "Comments");
      NoMarkerNoExclusion(d, "Last updated ", Del, []);
    }
  }

  /** A diff with no marker at all is rejected. */
  lemma NoMarkerRejected(d: string)
    requires !Contains(d, Ins) && !Contains(d, Del)
    ensures !DiffAccepted(d)
  {
  }

  lemma InsExclusionsTotal(d: string)
    ensures ExclusionCount(d, InsExclusions)
      == CountOcc(d, InsExclusions[0]) + CountOcc(d, InsExclusions[1])
  {
    var p1 := InsExclusions[..1];
    assert ExclusionCount(d, InsExclusions) == ExclusionCount(d, p1) + CountOcc(d, InsExclusions[1]);
    assert p1[..0] == [] && p1[0] == InsExclusions[0];
    assert ExclusionCount(d, p1) == ExclusionCount(d, p1[..0]) + CountOcc(d, p1[0]);
  }

  lemma DelExclusionsTotal(d: string)
    ensures ExclusionCount(d, DelExclusions)
      == CountOcc(d, DelExclusions[0]) + CountOcc(d, DelExclusions[1]) + CountOcc(d, DelExclusions[2])
  {
    var p2 := DelExclusions[..2];
    var p1 := p2[..1];
    assert ExclusionCount(d, DelExclusions) == ExclusionCount(d, p2) + CountOcc(d, DelExclusions[2]);
    assert p2[1] == DelExclusions[1] && p1[0] == DelExclusions[0] && p1[..0] == [];
    assert ExclusionCount(d, p2) == ExclusionCount(d, p1) + CountOcc(d, p2[1]);
    assert ExclusionCount(d, p1) == ExclusionCount(d, p1[..0]) + CountOcc(d, p1[0]);
  }

  /** At most one insertion exclusion starts at the front of `d`, and only
      where an `<ins>` starts. */
  lemma InsExclusionsAtFront(d: string)
    ensures (if StartsWith(d, InsExclusions[0]) then 1 else 0) + (if StartsWith(d, InsExclusions[1]) then 1 else 0)
            <= (if StartsWith(d, Ins) then 1 else 0)
  {
    var a, b := InsExclusions[0], InsExclusions[1];
    if StartsWith(d, a) {
      assert d[..|Ins|] == a[..|Ins|] == Ins;
      assert d[5] == a[5] == '*';
      assert b[5] == 'C';
    } else if StartsWith(d, b) {
      assert d[..|Ins|] == b[..|Ins|] == Ins;
    }
  }

  /** At each position at most one insertion exclusion starts, and only
      where an `<ins>` starts. */
  lemma {:induction false} InsPositions(d: string)
    ensures CountAt(d, InsExclusions[0]) + CountAt(d, InsExclusions[1]) <= CountAt(d, Ins)
    decreases |d|
  {
    if d != [] {
      InsPositions(d[1..]);
      InsExclusionsAtFront(d);
    }
  }

  /** Insertion exclusions never outnumber insertions. */
  lemma InsExclusionsBounded(d: string)
    ensures ExclusionCount(d, InsExclusions) <= CountOcc(d, Ins)
  {
    InsExclusionsTotal(d);
    CountOccIsCountAt(d, InsExclusions[0]);
    CountOccIsCountAt(d, InsExclusions[1]);
    CountOccIsCountAt(d, Ins);
    InsPositions(d);
  }

  lemma {:induction false} StrayPosition(d: string, k: nat)
    requires k < |d|
    requires StartsWith(d[k..], Ins)
    requires !StartsWith(d[k..], InsExclusions[0]) && !StartsWith(d[k..], InsExclusions[1])
    ensures CountAt(d, InsExclusions[0]) + CountAt(d, InsExclusions[1]) < CountAt(d, Ins)
    decreases k
  {
    InsPositions(d[1..]);
    if k == 0 {
      assert d[0..] == d;
    } else {
      assert d[k..] == d[1..][k - 1..];
      StrayPosition(d[1..], k - 1);
      InsExclusionsAtFront(d);
    }
  }

  /** An `<ins>` followed by neither `Comments` nor `* Comments` makes the
      insertion counts differ, so the diff is accepted. */
  lemma StrayInsertionAccepted(d: string, k: nat)
    requires k < |d|
    requires StartsWith(d[k..], Ins)
    requires !StartsWith(d[k..], InsExclusions[0]) && !StartsWith(d[k..], InsExclusions[1])
    ensures DiffAccepted(d)
  {
    InsExclusionsTotal(d);
    CountOccIsCountAt(d, InsExclusions[0]);
    CountOccIsCountAt(d, InsExclusions[1]);
    CountOccIsCountAt(d, Ins);
    StrayPosition(d, k);
    MarkerGuardRedundant(d);
  }

  /** One `<del>` between `Last updated ` and `Comments` is matched by two
      deletion exclusions, so the counts differ and the diff is accepted. */
  lemma DoubleCountedDeletion(lead: string, tail: string)
    requires lead == "Last updated " && tail == "<del>Comments"
    ensures var d := lead + tail;
      CountOcc(d, Del) == 1 && ExclusionCount(d, DelExclusions) == 2 && DiffAccepted(d)
  {
    var d := lead + tail;
    DoubleCountMarkers(lead, tail);
    DoubleCountExclusions(lead, tail);
    CountOccPositive(d, Del);
    assert !CountsMatch(d);
  }

  lemma DoubleCountMarkers(lead: string, tail: string)
    requires lead == "Last updated " && tail == "<del>Comments"
    ensures CountOcc(lead + tail, Del) == 1
  {
    DoubleCountTail(tail);
    LeadLacksOpen(lead);
    CountThroughLead(lead, tail, Del);
  }

  lemma DoubleCountExclusions(lead: string, tail: string)
    requires lead == "Last updated " && tail == "<del>Comments"
    ensures ExclusionCount(lead + tail, DelExclusions) == 2
  {
    DoubleCountStarred(lead, tail);
    DoubleCountPlain(lead, tail);
    DoubleCountLead(lead, tail);
    DelExclusionsTotal(lead + tail);
  }

  lemma DoubleCountStarred(lead: string, tail: string)
    requires lead == "Last updated " && tail == "<del>Comments"
    ensures CountOcc(lead + tail, DelExclusions[0]) == 0
  {
    DoubleCountTail(tail);
    LeadLacksOpen(lead);
    var x := DelExclusions[0];
    StarredHeadUnique();
    CountThroughLead(lead, tail, x);
  }

  lemma DoubleCountPlain(lead: string, tail: string)
    requires lead == "Last updated " && tail == "<del>Comments"
    ensures CountOcc(lead + tail, DelExclusions[1]) == 1
  {
    DoubleCountTail(tail);
    LeadLacksOpen(lead);
    var x := DelExclusions[1];
    PlainHeadUnique();
    CountThroughLead(lead, tail, x);
  }


  /** `<` occurs in the two `<del>` exclusions only at their start. */
  lemma StarredHeadUnique()
    ensures HeadUnique(DelExclusions[0])
  {
    var x := DelExclusions[0];
    var t := x[1..];
    assert t == "del>* Comments";
    forall k | 1 <= k < |x| ensures x[k] != x[0] {
      assert x[k] == t[k - 1];
    }
  }

  lemma PlainHeadUnique()
    ensures HeadUnique(DelExclusions[1])
  {
    var x := DelExclusions[1];
    var t := x[1..];
    assert t == "del>Comments";
    forall k | 1 <= k < |x| ensures x[k] != x[0] {
      assert x[k] == t[k - 1];
    }
  }

  /** Counts of a head-unique pattern skip a lead without its first character. */
  lemma CountThroughLead(lead: string, tail: string, p: string)
    requires HeadUnique(p)
    requires forall k | 0 <= k < |lead| :: lead[k] != p[0]
    ensures CountOcc(lead + tail, p) == CountOcc(tail, p)
  {
    CountOccIsCountAt(lead + tail, p);
    CountOccIsCountAt(tail, p);
    SkipCountAt(lead, tail, p);
  }

  lemma LeadLacksOpen(lead: string)
    requires lead == "Last updated "
    ensures forall k | 0 <= k < |lead| :: lead[k] != '<'
  {
  }

  lemma DoubleCountTail(tail: string)
    requires tail == "<del>Comments"
    ensures CountOcc(tail, Del) == 1
    ensures CountOcc(tail, DelExclusions[0]) == 0
    ensures CountOcc(tail, DelExclusions[1]) == 1
  {
    var rest := "Comments";
    assert StartsWith(tail, Del) && tail[5..] == rest;
    assert !Contains(rest, Del) by {
      ContainsSkip(rest, [], Del);
      assert rest + [] == rest;
    }
    CountOccPositive(rest, Del);
    assert tail == DelExclusions[1];
    assert tail[|DelExclusions[1]|..] == [];
  }

  lemma DoubleCountLead(lead: string, tail: string)
    requires lead == "Last updated " && tail == "<del>Comments"
    ensures CountOcc(lead + tail, DelExclusions[2]) == 1
  {
    var d := lead + tail;
    assert StartsWith(d, DelExclusions[2]);
    assert d[18..] == "Comments";
  }

  lemma {:induction false} SkipCountAt(a: string, x: string, p: string)
    requires |p| > 0
    requires forall k | 0 <= k < |a| :: a[k] != p[0]
    ensures CountAt(a + x, p) == CountAt(x, p)
    decreases |a|
  {
    if a == [] {
      assert a + x == x;
    } else {
      assert (a + x)[1..] == a[1..] + x;
      SkipCountAt(a[1..], x, p);
      if |p| <= |a + x| {
        assert (a + x)[..|p|][0] == a[0];
      }
    }
  }

  // ---------------------------------------------------------------------
  // Paths

  /** `os.path.join(a, b)` */
  function PathJoin(a: string, b: string): string {
    if StartsWith(b, "/") then b
    else if a == [] || a[|a| - 1] == '/' then a + b
    else a + "/" + b
  }

  /** The relative path of diff `id` in diffengine/model/Diff.py: a bucket
      directory `id % 257` (a prime, to spread the files) and `<id>.html`. */
  function DiffFile(id: nat): string {
    "diffs/" + NatToString(id % 257) + "/" + NatToString(id) + ".html"
  }

  /** `Diff.html_path` of diffengine/model/Diff.py:26-32. */
  function HtmlPath(home: string, id: nat): string {
    PathJoin(home, DiffFile(id))
  }

  /** `Diff.html_path` of diffengine/__init__.py:298-305: the bucket is the
      creation day. */
  function HtmlPathByDay(libs: Libs, home: string, created: Time, id: nat): string {
    PathJoin(home, "diffs/" + libs.day(created) + "/" + NatToString(id) + ".html")
  }

  /** `screenshot_path`, as written: every `.html` becomes `.jpg`. */
  function ScreenshotPath(htmlPath: string): string {
    ReplaceAll(htmlPath, ".html", ".jpg")
  }

  /** `thumbnail_path`, as written: every `.jpg` becomes `-thumb.jpg`. */
  function ThumbnailPath(htmlPath: string): string {
    ReplaceAll(ScreenshotPath(htmlPath), ".jpg", "-thumb.jpg")
  }

  function EndsWith(s: string, suffix: string): bool {
    |suffix| <= |s| && s[|s| - |suffix|..] == suffix
  }

  /** The screenshot path with only the file extension changed. */
  function ScreenshotPathSuffix(htmlPath: string): (r: string)
    ensures EndsWith(htmlPath, ".html") ==> EndsWith(r, ".jpg")
  {
    if EndsWith(htmlPath, ".html") then htmlPath[..|htmlPath| - 5] + ".jpg" else htmlPath
  }

  /** The thumbnail path with only the file extension changed. */
  function ThumbnailPathSuffix(htmlPath: string): (r: string)
    ensures EndsWith(htmlPath, ".html") ==> EndsWith(r, "-thumb.jpg")
  {
    var s := ScreenshotPathSuffix(htmlPath);
    if EndsWith(s, ".jpg") then s[..|s| - 4] + "-thumb.jpg" else s
  }

  lemma {:induction false} DigitsNoSeparator(s: string, c: char)
    requires forall i | 0 <= i < |s| :: IsDigit(s[i])
    requires !IsDigit(c)
    ensures c !in s
  {
  }

  lemma PathJoinRelative(home: string, rel: string)
    requires |rel| > 0 && rel[0] != '/'
    ensures exists pre :: PathJoin(home, rel) == pre + rel
  {
    assert !StartsWith(rel, "/") by {
      assert rel[..1] == [rel[0]];
    }
    if home == [] || home[|home| - 1] == '/' {
      assert PathJoin(home, rel) == home + rel;
    } else {
      assert PathJoin(home, rel) == (home + "/") + rel;
    }
  }

  /** Distinct diffs get distinct files. */
  lemma HtmlPathInjective(home: string, i: nat, j: nat)
    requires HtmlPath(home, i) == HtmlPath(home, j)
    ensures i == j
  {
    var ri, rj := DiffFile(i), DiffFile(j);
    assert ri[0] == 'd' && rj[0] == 'd';
    assert |ri| == |rj| by {
      PathJoinSameLength(home, ri, rj);
    }
    PathJoinCancel(home, ri, rj);
    DiffFileInjective(i, j);
  }

  /** Distinct ids have distinct relative diff file names. */
  lemma DiffFileInjective(i: nat, j: nat)
    requires DiffFile(i) == DiffFile(j)
    ensures i == j
  {
    var bi, bj := NatToString(i % 257), NatToString(j % 257);
    var ti, tj := NatToString(i) + ".html", NatToString(j) + ".html";
    DiffFileTail(i);
    DiffFileTail(j);
    assert bi + ['/'] + ti == bj + ['/'] + tj;
    DigitsNoSeparator(bi, '/');
    DigitsNoSeparator(bj, '/');
    SplitAtSeparator(bi, ti, bj, tj, '/');
    assert NatToString(i) == ti[..|ti| - 5] && NatToString(j) == tj[..|tj| - 5];
    NatToStringInjective(i, j);
  }

  /** After `diffs/` come the bucket, a `/` and the file name. */
  lemma DiffFileTail(id: nat)
    ensures DiffFile(id)[6..] == NatToString(id % 257) + ['/'] + (NatToString(id) + ".html")
  {
    var b, t := NatToString(id % 257), NatToString(id) + ".html";
    assert DiffFile(id) == "diffs/" + (b + ['/'] + t);
  }

  lemma PathJoinSameLength(home: string, a: string, b: string)
    requires |a| > 0 && |b| > 0 && a[0] != '/' && b[0] != '/'
    requires PathJoin(home, a) == PathJoin(home, b)
    ensures |a| == |b|
  {
    assert !StartsWith(a, "/") by { assert a[..1] == [a[0]]; }
    assert !StartsWith(b, "/") by { assert b[..1] == [b[0]]; }
  }

  lemma PathJoinCancel(home: string, a: string, b: string)
    requires |a| > 0 && |b| > 0 && a[0] != '/' && b[0] != '/' && |a| == |b|
    requires PathJoin(home, a) == PathJoin(home, b)
    ensures a == b
  {
    assert !StartsWith(a, "/") by { assert a[..1] == [a[0]]; }
    assert !StartsWith(b, "/") by { assert b[..1] == [b[0]]; }
    var p := PathJoin(home, a);
    assert a == p[|p| - |a|..];
    assert b == p[|p| - |b|..];
  }

  /** The bucket directory name is a number below 257. */
  lemma HtmlPathBucket(id: nat)
    ensures DigitsValue(NatToString(id % 257)) < 257
  {
    NatToStringRoundTrip(id % 257);
  }

  /** With no `.` in the home directory the as-written paths only change
      the file extension. */
  lemma PathsAgreeWithoutDots(home: string, id: nat)
    requires '.' !in home
    ensures ScreenshotPath(HtmlPath(home, id)) == ScreenshotPathSuffix(HtmlPath(home, id))
    ensures ThumbnailPath(HtmlPath(home, id)) == ThumbnailPathSuffix(HtmlPath(home, id))
  {
    var stem := "diffs/" + NatToString(id % 257) + "/" + NatToString(id);
    var pre := PathJoin(home, stem);
    assert '.' !in stem by {
      DigitsNoSeparator(NatToString(id % 257), '.');
      DigitsNoSeparator(NatToString(id), '.');
    }
    assert DiffFile(id) == stem + ".html";
    assert stem[..1][0] == 'd' && DiffFile(id)[..1][0] == 'd';
    assert HtmlPath(home, id) == pre + ".html";
    assert '.' !in pre;
    DotlessScreenshot(pre);
    var h := pre + ".html";
    assert h[..|h| - 5] == pre;
    assert (pre + ".jpg")[..|pre| + 4 - 4] == pre;
  }

  /** For a stem without dots both rewrites touch only the extension. */
  lemma DotlessScreenshot(pre: string)
    requires '.' !in pre
    ensures ScreenshotPath(pre + ".html") == pre + ".jpg"
    ensures ThumbnailPath(pre + ".html") == pre + "-thumb.jpg"
  {
    ReplaceAllSkip(pre, ".html", ".html", ".jpg");
    ReplaceAllLeading(".html", [], ".jpg");
    assert ".html" + [] == ".html";
    ReplaceAllShort([], ".html", ".jpg");
    ReplaceAllSkip(pre, ".jpg", ".jpg", "-thumb.jpg");
    ReplaceAllLeading(".jpg", [], "-thumb.jpg");
    assert ".jpg" + [] == ".jpg";
    ReplaceAllShort([], ".jpg", "-thumb.jpg");
  }

  /** A home directory whose name ends in `.html` is rewritten too: with
      home `/srv/site.html` the screenshot goes under `/srv/site.jpg`. */
  lemma ScreenshotPathCounterexample(dir: string, id: nat)
    requires '.' !in dir
    ensures ScreenshotPath(HtmlPath(dir + ".html", id))
      != ScreenshotPathSuffix(HtmlPath(dir + ".html", id))
  {
    var rest := "/" + DiffFile(id);
    var p := HtmlPath(dir + ".html", id);
    HtmlPathUnder(dir, id);
    ScreenshotRewritesDir(dir, rest);
    SuffixKeepsPrefix(p, |dir| + 1);
    assert p[|dir| + 1] == 'h';
  }

  lemma ScreenshotRewritesDir(dir: string, rest: string)
    requires '.' !in dir
    ensures |ScreenshotPath(dir + (".html" + rest))| > |dir| + 1
    ensures ScreenshotPath(dir + (".html" + rest))[|dir| + 1] == 'j'
  {
    ReplaceAllSkip(dir, ".html" + rest, ".html", ".jpg");
    ReplaceAllLeading(".html", rest, ".jpg");
    var x := ReplaceAll(rest, ".html", ".jpg");
    assert ScreenshotPath(dir + (".html" + rest)) == dir + (".jpg" + x);
  }

  lemma SuffixKeepsPrefix(p: string, k: nat)
    requires EndsWith(p, ".html") && k < |p| - 5
    ensures |ScreenshotPathSuffix(p)| > k && ScreenshotPathSuffix(p)[k] == p[k]
  {
  }


  lemma HtmlPathUnder(dir: string, id: nat)
    ensures var p := HtmlPath(dir + ".html", id);
      p == dir + (".html" + ("/" + DiffFile(id)))
      && EndsWith(p, ".html") && |p| - 5 > |dir| + 1
  {
    var home := dir + ".html";
    var f := DiffFile(id);
    var p := HtmlPath(home, id);
    assert !StartsWith(f, "/") by { assert f[0] == 'd'; }
    assert home[|home| - 1] == 'l';
    assert p == dir + (".html" + ("/" + f));
    var stem := "diffs/" + NatToString(id % 257) + "/" + NatToString(id);
    assert f == stem + ".html";
    assert p == (dir + ".html" + "/" + stem) + ".html";
  }


  /** For every home directory, the suffix-only paths are `<id>.jpg` and
      `<id>-thumb.jpg` in the diff's bucket under that home. */
  lemma SuffixPathsUnderHome(home: string, id: nat)
    ensures var stem := "diffs/" + NatToString(id % 257) + "/" + NatToString(id);
      && ScreenshotPathSuffix(HtmlPath(home, id)) == PathJoin(home, stem + ".jpg")
      && ThumbnailPathSuffix(HtmlPath(home, id)) == PathJoin(home, stem + "-thumb.jpg")
  {
    var stem := "diffs/" + NatToString(id % 257) + "/" + NatToString(id);
    var dir := if home == [] || home[|home| - 1] == '/' then home else home + "/";
    var jpg, thumb := stem + ".jpg", stem + "-thumb.jpg";
    assert DiffFile(id) == stem + ".html";
    assert DiffFile(id)[..1][0] == 'd' && jpg[..1][0] == 'd' && thumb[..1][0] == 'd';
    assert HtmlPath(home, id) == (dir + stem) + ".html";
    assert PathJoin(home, jpg) == (dir + stem) + ".jpg";
    assert PathJoin(home, thumb) == (dir + stem) + "-thumb.jpg";
    SuffixPathsKeepDirectory((dir + stem) + ".html");
    var h := (dir + stem) + ".html";
    assert h[..|h| - 5] == dir + stem;
  }

  /** The suffix-only paths keep the directory of the html file. */
  lemma SuffixPathsKeepDirectory(htmlPath: string)
    requires EndsWith(htmlPath, ".html")
    ensures var stem := htmlPath[..|htmlPath| - 5];
      ScreenshotPathSuffix(htmlPath) == stem + ".jpg"
      && ThumbnailPathSuffix(htmlPath) == stem + "-thumb.jpg"
  {
    var stem := htmlPath[..|htmlPath| - 5];
    var s := stem + ".jpg";
    assert s[|s| - 4..] == ".jpg";
    assert s[..|s| - 4] == stem;
  }

  // ---------------------------------------------------------------------
  // generate

  /** What `generate` receives as its `path`: a string, or the `html_path`
      property object itself, which is what the default argument
      `path=html_path` evaluates to. */
  datatype PathArg = PathString(p: string) | PropertyObject

  datatype GenerateOutcome = Written | NotWritten | Raised

  /** `Diff.generate(path)` (diffengine/__init__.py:313-321, 358-381).
      `blocked`: the diff file already exists or the template is missing.
      Writing the file and the screenshots is left out. */
  function Generate(libs: Libs, oldHtml: string, newHtml: string, path: PathArg, blocked: bool): GenerateOutcome {
    if path.PropertyObject? then Raised   // os.path.isfile(<property>) raises TypeError
    else if blocked then NotWritten
    else if !DiffAccepted(libs.render(oldHtml, newHtml)) then NotWritten
    else Written
  }

  /** Given a real path, the diff is written exactly when the file is not
      blocked and the rendered diff is accepted, and nothing raises. */
  lemma GenerateWithPath(libs: Libs, oldHtml: string, newHtml: string, p: string, blocked: bool)
    ensures Generate(libs, oldHtml, newHtml, PathString(p), blocked) != Raised
    ensures Generate(libs, oldHtml, newHtml, PathString(p), blocked) == Written
      <==> !blocked && DiffAccepted(libs.render(oldHtml, newHtml))
  {
  }
}
