/** URL clean-up: `Feed.sanitize_url` (diffengine/__init__.py:50-52) and
    `_remove_utm` (diffengine/__init__.py:670-681), with the pieces of
    `urllib.parse` it relies on: `parse_qs(q, keep_blank_values=True)`,
    `urlencode(d, doseq=True)` and `urlunparse`. */
module Urls {
  import opened Strings

  // ---------------------------------------------------------------------
  // sanitize_url

  const Http: string := "http://"
  const Https: string := "https://"

  /** `url.replace('http://', 'https://')` */
  function SanitizeUrl(url: string): string {
    ReplaceAll(url, Http, Https)
  }

  /** A prefix of the output that has no `h` was copied from the input: every
      inserted `https://` begins with `h`. */
  lemma {:induction false} SanitizePrefix(x: string, w: string)
    requires 'h' !in w
    requires StartsWith(SanitizeUrl(x), w)
    ensures StartsWith(x, w)
    decreases |x|
  {
    if |x| >= |Http| && w != [] && !StartsWith(x, Http) {
      var y := SanitizeUrl(x[1..]);
      assert SanitizeUrl(x) == [x[0]] + y;
      assert w[0] == x[0];
      assert StartsWith(y, w[1..]) by {
        var r := SanitizeUrl(x);
        assert |w| <= |r| && r[..|w|] == w;
        assert r[1..] == y;
        assert w[1..] == r[..|w|][1..] == r[1..][..|w| - 1];
      }
      SanitizePrefix(x[1..], w[1..]);
      assert x[..|w|] == [x[0]] + x[1..][..|w| - 1];
    } else if |x| >= |Http| && w != [] {
      SanitizeHead(x);
      assert false;
    }
  }

  lemma SanitizeHead(x: string)
    requires StartsWith(x, Http)
    ensures |SanitizeUrl(x)| > 0 && SanitizeUrl(x)[0] == 'h'
  {
  }

  /** After sanitising, no `http://` is left anywhere in the URL. */
  lemma {:induction false} SanitizeRemovesHttp(s: string)
    ensures !Contains(SanitizeUrl(s), Http)
    decreases |s|
  {
    var r := SanitizeUrl(s);
    if |s| < |Http| {
      if Contains(r, Http) {
        ContainsLength(r, Http);
      }
    } else if StartsWith(s, Http) {
      var y := SanitizeUrl(s[|Http|..]);
      SanitizeRemovesHttp(s[|Http|..]);
      assert r == Https + y;
      var tail := "ttps://";
      assert r[1..] == tail + y;
      ContainsSkip(tail, y, Http);
      assert r[4] == 's';
      assert !StartsWith(r, Http);
    } else {
      var y := SanitizeUrl(s[1..]);
      SanitizeRemovesHttp(s[1..]);
      assert r == [s[0]] + y;
      assert r[1..] == y;
      if StartsWith(r, Http) {
        assert StartsWith(y, "ttp://") by {
          assert y[..6] == r[1..7];
        }
        SanitizePrefix(s[1..], "ttp://");
        assert false;
      }
    }
  }

  /** Sanitising twice is sanitising once. */
  lemma SanitizeIdempotent(s: string)
    ensures SanitizeUrl(SanitizeUrl(s)) == SanitizeUrl(s)
  {
    SanitizeRemovesHttp(s);
    ReplaceAllNoMatch(SanitizeUrl(s), Http, Https);
  }

  /** A URL is left as it is exactly when it holds no `http://`. */
  lemma SanitizeFixedPoint(s: string)
    ensures SanitizeUrl(s) == s <==> !Contains(s, Http)
  {
    SanitizeRemovesHttp(s);
    if !Contains(s, Http) {
      ReplaceAllNoMatch(s, Http, Https);
    }
  }

  // ---------------------------------------------------------------------
  // Query strings

  /** `s.split(sep)` */
  function Split(s: string, sep: char): (r: seq<string>)
    ensures |r| >= 1
    decreases |s|
  {
    var i := IndexOfChar(s, sep);
    if i >= |s| then [s] else [s[..i]] + Split(s[i + 1..], sep)
  }

  /** `sep.join(fs)` */
  function Join(fs: seq<string>, sep: char): string {
    if fs == [] then []
    else if |fs| == 1 then fs[0]
    else fs[0] + [sep] + Join(fs[1..], sep)
  }

  lemma {:induction false} IndexOfCharAbsent(s: string, c: char)
    ensures IndexOfChar(s, c) <= |s|
    ensures IndexOfChar(s, c) == |s| <==> c !in s
    decreases |s|
  {
    if s != [] && s[0] != c {
      IndexOfCharAbsent(s[1..], c);
      assert s == [s[0]] + s[1..];
    }
  }

  /** Joining fields free of the separator and splitting again gives them back. */
  lemma {:induction false} SplitJoin(fs: seq<string>, sep: char)
    requires |fs| >= 1
    requires forall i | 0 <= i < |fs| :: sep !in fs[i]
    ensures Split(Join(fs, sep), sep) == fs
    decreases |fs|
  {
    if |fs| == 1 {
      IndexOfCharAbsent(fs[0], sep);
    } else {
      var rest := Join(fs[1..], sep);
      var s := fs[0] + [sep] + rest;
      IndexOfSeparator(fs[0], rest, sep);
      assert s[..|fs[0]|] == fs[0];
      assert s[|fs[0]| + 1..] == rest;
      SplitJoin(fs[1..], sep);
    }
  }

  lemma {:induction false} SplitPiecesLackSep(s: string, sep: char)
    ensures forall i | 0 <= i < |Split(s, sep)| :: sep !in Split(s, sep)[i]
    decreases |s|
  {
    var i := IndexOfChar(s, sep);
    IndexOfCharAbsent(s, sep);
    if i < |s| {
      SplitPiecesLackSep(s[i + 1..], sep);
      IndexOfCharPrefix(s, sep);
    }
  }

  lemma {:induction false} IndexOfCharPrefix(s: string, c: char)
    ensures IndexOfChar(s, c) <= |s|
    ensures c !in s[..IndexOfChar(s, c)]
    ensures IndexOfChar(s, c) < |s| ==> s[IndexOfChar(s, c)] == c
    decreases |s|
  {
    if s != [] && s[0] != c {
      IndexOfCharPrefix(s[1..], c);
      assert s[..IndexOfChar(s, c)] == [s[0]] + s[1..][..IndexOfChar(s[1..], c)];
    }
  }

  type Pair = (string, string)
  /** The dictionary `parse_qs` returns, in insertion order. */
  type Groups = seq<(string, seq<string>)>

  /** One `name=value` field; with `keep_blank_values` a field with no `=`
      gets the empty value. */
  function ParseField(f: string): Pair {
    var i := IndexOfChar(f, '=');
    if i < |f| then (f[..i], f[i + 1..]) else (f, "")
  }

  function NonEmpty(fs: seq<string>): (r: seq<string>)
    ensures forall i | 0 <= i < |r| :: r[i] != []
  {
    if fs == [] then [] else (if fs[0] != [] then [fs[0]] else []) + NonEmpty(fs[1..])
  }

  function ParseFields(fs: seq<string>): seq<Pair> {
    seq(|fs|, i requires 0 <= i < |fs| => ParseField(fs[i]))
  }

  /** The `(name, value)` pairs of a query string, in order: empty fields
      are skipped. Percent-decoding is not modelled. */
  function QueryPairs(q: string): seq<Pair> {
    ParseFields(NonEmpty(Split(q, '&')))
  }

  predicate HasKey(g: Groups, k: string) {
    exists j | 0 <= j < |g| :: g[j].0 == k
  }

  function KeyIndex(g: Groups, k: string): (j: nat)
    requires HasKey(g, k)
    ensures j < |g| && g[j].0 == k
    ensures forall j' | 0 <= j' < j :: g[j'].0 != k
  {
    if g[0].0 == k then 0
    else
      assert HasKey(g[1..], k) by {
        var j :| 0 <= j < |g| && g[j].0 == k;
        assert g[1..][j - 1].0 == k;
      }
      1 + KeyIndex(g[1..], k)
  }

  /** `d[k].append(v)` if `k` is present, else `d[k] = [v]`. */
  function Insert(g: Groups, p: Pair): Groups {
    if HasKey(g, p.0) then
      var j := KeyIndex(g, p.0);
      g[j := (p.0, g[j].1 + [p.1])]
    else g + [(p.0, [p.1])]
  }

  /** `parse_qs` grouping: values collected per name, names in order of
      first appearance. */
  function Group(ps: seq<Pair>): Groups {
    if ps == [] then [] else Insert(Group(ps[..|ps| - 1]), ps[|ps| - 1])
  }

  /** `parse_qs(q, keep_blank_values=True)` */
  function ParseQs(q: string): Groups {
    Group(QueryPairs(q))
  }

  function PairsOf(k: string, vs: seq<string>): (r: seq<Pair>)
    ensures |r| == |vs|
  {
    seq(|vs|, i requires 0 <= i < |vs| => (k, vs[i]))
  }

  /** The pairs `urlencode(d, doseq=True)` emits, in order. */
  function Pairs(g: Groups): seq<Pair> {
    if g == [] then [] else Pairs(g[..|g| - 1]) + PairsOf(g[|g| - 1].0, g[|g| - 1].1)
  }

  /** The `name=value` fields `urlencode` writes for each pair. */
  function EncodeFields(ps: seq<Pair>): (r: seq<string>)
    ensures |r| == |ps|
    ensures forall i | 0 <= i < |ps| :: r[i] == ps[i].0 + "=" + ps[i].1
  {
    seq(|ps|, i requires 0 <= i < |ps| => ps[i].0 + "=" + ps[i].1)
  }

  /** `urlencode(d, doseq=True)` with percent-encoding left out. */
  function Urlencode(g: Groups): string {
    Join(EncodeFields(Pairs(g)), '&')
  }

  predicate DistinctKeys(g: Groups) {
    forall i, j | 0 <= i < j < |g| :: g[i].0 != g[j].0
  }

  /** What a parsed query dictionary looks like: distinct names, at least one
      value each, no `&` or `=` in a name and no `&` in a value. */
  predicate WellFormed(g: Groups) {
    && DistinctKeys(g)
    && (forall j | 0 <= j < |g| :: |g[j].1| > 0 && '&' !in g[j].0 && '=' !in g[j].0)
    && (forall j, m | 0 <= j < |g| && 0 <= m < |g[j].1| :: '&' !in g[j].1[m])
  }

  predicate IsUtm(k: string) {
    StartsWith(k, "utm_")
  }

  /** `dict((k, v) for k, v in q.items() if not k.startswith('utm_'))` */
  function DropUtm(g: Groups): (r: Groups)
    ensures forall j | 0 <= j < |r| :: !IsUtm(r[j].0)
  {
    if g == [] then []
    else DropUtm(g[..|g| - 1]) + (if IsUtm(g[|g| - 1].0) then [] else [g[|g| - 1]])
  }

  // ---------------------------------------------------------------------
  // urlunparse

  /** `urllib.parse.uses_netloc` */
  const UsesNetloc: seq<string> := ["", "ftp", "http", "gopher", "nntp", "telnet",
    "imap", "wais", "file", "mms", "https", "shttp", "snews", "prospero", "rtsp",
    "rtspu", "rsync", "svn", "svn+ssh", "sftp", "nfs", "git", "git+ssh", "ws", "wss"]

  /** The six components `urlparse` splits a URL into. Splitting a string
      into them is not modelled; the components are the input. */
  datatype Url = Url(scheme: string, netloc: string, path: string,
                     params: string, query: string, fragment: string)

  /** `urlunparse(u)` */
  function Unparse(u: Url): string {
    var url := if u.params != "" then u.path + ";" + u.params else u.path;
    var url := if u.netloc != "" || (u.scheme != "" && u.scheme in UsesNetloc && !StartsWith(url, "//"))
      then "//" + u.netloc + (if url != "" && url[0] != '/' then "/" + url else url)
      else url;
    var url := if u.scheme != "" then u.scheme + ":" + url else url;
    var url := if u.query != "" then url + "?" + u.query else url;
    if u.fragment != "" then url + "#" + u.fragment else url
  }

  /** The components `_remove_utm` hands to `urlunparse`. */
  function RemoveUtmParts(u: Url): Url {
    u.(query := Urlencode(DropUtm(ParseQs(u.query))))
  }

  /** `_remove_utm(url)`, given the components of `urlparse(url)`. */
  function RemoveUtm(u: Url): string {
    Unparse(RemoveUtmParts(u))
  }

  // ---------------------------------------------------------------------
  // Lemmas about the query round trip

  lemma ParseFieldJoin(k: string, v: string)
    requires '=' !in k
    ensures ParseField(k + "=" + v) == (k, v)
  {
    var f := k + "=" + v;
    IndexOfSeparator(k, v, '=');
    assert f[..|k|] == k && f[|k| + 1..] == v;
  }

  lemma KeyIndexOfDistinct(g: Groups, j: nat)
    requires DistinctKeys(g) && j < |g|
    ensures HasKey(g, g[j].0) && KeyIndex(g, g[j].0) == j
  {
  }

  /** Appending the values of a fresh name, one at a time, builds its group. */
  lemma {:induction false} GroupAppendFresh(ps: seq<Pair>, k: string, vs: seq<string>)
    requires |vs| >= 1
    requires !HasKey(Group(ps), k)
    ensures Group(ps + PairsOf(k, vs)) == Group(ps) + [(k, vs)]
    decreases |vs|
  {
    var n := |vs|;
    var all := ps + PairsOf(k, vs);
    assert all[..|all| - 1] == ps + PairsOf(k, vs[..n - 1]);
    assert all[|all| - 1] == (k, vs[n - 1]);
    if n == 1 {
      assert ps + PairsOf(k, vs[..0]) == ps;
      assert [vs[0]] == vs;
    } else {
      GroupAppendFresh(ps, k, vs[..n - 1]);
      InsertIntoLast(Group(ps), k, vs[..n - 1], vs[n - 1]);
      assert vs[..n - 1] + [vs[n - 1]] == vs;
    }
  }

  /** A value for the name of the last group, which no earlier group has,
      is appended to that group. */
  lemma InsertIntoLast(g0: Groups, k: string, vs: seq<string>, v: string)
    requires !HasKey(g0, k)
    ensures Insert(g0 + [(k, vs)], (k, v)) == g0 + [(k, vs + [v])]
  {
    var g := g0 + [(k, vs)];
    assert g[|g| - 1].0 == k;
    assert KeyIndex(g, k) == |g| - 1 by {
      forall j | 0 <= j < |g| - 1 ensures g[j].0 != k {
        assert g[j] == g0[j];
      }
    }
  }

  lemma {:induction false} GroupPairs(g: Groups)
    requires DistinctKeys(g)
    requires forall j | 0 <= j < |g| :: |g[j].1| > 0
    ensures Group(Pairs(g)) == g
    decreases |g|
  {
    if g != [] {
      var init := g[..|g| - 1];
      var last := g[|g| - 1];
      GroupPairs(init);
      assert !HasKey(init, last.0) by {
        forall j | 0 <= j < |init| ensures init[j].0 != last.0 {
          assert init[j] == g[j];
        }
      }
      GroupAppendFresh(Pairs(init), last.0, last.1);
      assert init + [last] == g;
    }
  }

  lemma {:induction false} PairsWellFormed(g: Groups)
    requires WellFormed(g)
    ensures forall i | 0 <= i < |Pairs(g)| ::
      '&' !in Pairs(g)[i].0 && '=' !in Pairs(g)[i].0 && '&' !in Pairs(g)[i].1
    decreases |g|
  {
    if g != [] {
      var init := g[..|g| - 1];
      assert WellFormed(init) by {
        forall j, m | 0 <= j < |init| && 0 <= m < |init[j].1|
          ensures '&' !in init[j].1[m]
        {
          assert init[j] == g[j];
        }
      }
      PairsWellFormed(init);
      var last := g[|g| - 1];
      var ps := Pairs(g);
      forall i | 0 <= i < |ps|
        ensures '&' !in ps[i].0 && '=' !in ps[i].0 && '&' !in ps[i].1
      {
        if i >= |Pairs(init)| {
          assert ps[i] == (last.0, last.1[i - |Pairs(init)|]);
        } else {
          assert ps[i] == Pairs(init)[i];
        }
      }
    }
  }

  lemma {:induction false} NonEmptyIdentity(fs: seq<string>)
    requires forall i | 0 <= i < |fs| :: fs[i] != []
    ensures NonEmpty(fs) == fs
    decreases |fs|
  {
    if fs != [] {
      NonEmptyIdentity(fs[1..]);
      assert fs == [fs[0]] + fs[1..];
    }
  }

  /** Parsing the fields `urlencode` writes gives the pairs back. */
  lemma QueryPairsOfFields(ps: seq<Pair>)
    requires |ps| >= 1
    requires forall i | 0 <= i < |ps| :: '&' !in ps[i].0 && '=' !in ps[i].0 && '&' !in ps[i].1
    ensures QueryPairs(Join(EncodeFields(ps), '&')) == ps
  {
    var fs := EncodeFields(ps);
    forall i | 0 <= i < |fs| ensures '&' !in fs[i] && fs[i] != [] {
      assert fs[i][|ps[i].0|] == '=';
    }
    SplitJoin(fs, '&');
    NonEmptyIdentity(fs);
    forall i | 0 <= i < |fs| ensures ParseField(fs[i]) == ps[i] {
      ParseFieldJoin(ps[i].0, ps[i].1);
    }
  }

  lemma PairsEmpty(g: Groups)
    requires forall j | 0 <= j < |g| :: |g[j].1| > 0
    requires Pairs(g) == []
    ensures g == []
  {
  }

  /** `parse_qs(urlencode(d, doseq=True))` gives back every well-formed
      dictionary. */
  lemma ParseUrlencode(g: Groups)
    requires WellFormed(g)
    ensures ParseQs(Urlencode(g)) == g
  {
    var ps := Pairs(g);
    PairsWellFormed(g);
    GroupPairs(g);
    if ps == [] {
      PairsEmpty(g);
      assert Split([], '&') == [[]];
      assert NonEmpty([[]]) == [];
    } else {
      QueryPairsOfFields(ps);
    }
  }

  lemma {:induction false} NonEmptyLacks(fs: seq<string>, c: char)
    requires forall i | 0 <= i < |fs| :: c !in fs[i]
    ensures forall i | 0 <= i < |NonEmpty(fs)| :: c !in NonEmpty(fs)[i]
    decreases |fs|
  {
    if fs != [] {
      NonEmptyLacks(fs[1..], c);
    }
  }

  lemma {:induction false} InsertShape(g: Groups, p: Pair)
    ensures |Insert(g, p)| >= |g|
    ensures forall j | 0 <= j < |Insert(g, p)| ::
      Insert(g, p)[j].0 == (if j < |g| then g[j].0 else p.0)
    ensures forall j, m | 0 <= j < |Insert(g, p)| && 0 <= m < |Insert(g, p)[j].1| ::
      Insert(g, p)[j].1[m] == p.1 || (j < |g| && Insert(g, p)[j].1[m] in g[j].1)
  {
  }

  /** Whatever pairs it is given, `parse_qs` grouping is well formed when the
      names lack `&` and `=` and the values lack `&`. */
  lemma {:induction false} GroupWellFormed(ps: seq<Pair>)
    requires forall i | 0 <= i < |ps| :: '&' !in ps[i].0 && '=' !in ps[i].0 && '&' !in ps[i].1
    ensures WellFormed(Group(ps))
    decreases |ps|
  {
    if ps != [] {
      var init := ps[..|ps| - 1];
      var p := ps[|ps| - 1];
      GroupWellFormed(init);
      var g := Group(init);
      var h := Insert(g, p);
      InsertShape(g, p);
      if !HasKey(g, p.0) {
        assert DistinctKeys(h) by {
          forall i, j | 0 <= i < j < |h| ensures h[i].0 != h[j].0 {
            if j == |g| {
              assert h[i].0 == g[i].0;
            }
          }
        }
      }
      assert forall j | 0 <= j < |h| :: |h[j].1| > 0;
    }
  }

  /** Every dictionary `parse_qs` returns is well formed. */
  lemma ParseQsWellFormed(q: string)
    ensures WellFormed(ParseQs(q))
  {
    var fs := NonEmpty(Split(q, '&'));
    SplitPiecesLackSep(q, '&');
    NonEmptyLacks(Split(q, '&'), '&');
    var ps := QueryPairs(q);
    forall i | 0 <= i < |ps| ensures '&' !in ps[i].0 && '=' !in ps[i].0 && '&' !in ps[i].1 {
      var f := fs[i];
      IndexOfCharPrefix(f, '=');
      var k := IndexOfChar(f, '=');
      if k < |f| {
        assert forall c | c in f[k + 1..] :: c in f;
        assert forall c | c in f[..k] :: c in f;
      }
    }
    GroupWellFormed(ps);
  }

  lemma {:induction false} DropUtmWellFormed(g: Groups)
    requires WellFormed(g)
    ensures WellFormed(DropUtm(g))
    ensures forall j | 0 <= j < |DropUtm(g)| :: exists i | 0 <= i < |g| :: DropUtm(g)[j] == g[i]
    decreases |g|
  {
    if g != [] {
      var init := g[..|g| - 1];
      assert WellFormed(init) by {
        forall j, m | 0 <= j < |init| && 0 <= m < |init[j].1|
          ensures '&' !in init[j].1[m]
        {
          assert init[j] == g[j];
        }
      }
      DropUtmWellFormed(init);
      var d := DropUtm(init);
      var r := DropUtm(g);
      if !IsUtm(g[|g| - 1].0) {
        assert r == d + [g[|g| - 1]];
        forall i, j | 0 <= i < j < |r| ensures r[i].0 != r[j].0 {
          if j == |d| {
            var i' :| 0 <= i' < |init| && d[i] == init[i'];
            assert g[i'] == init[i'];
          }
        }
        forall j | 0 <= j < |r| ensures exists i | 0 <= i < |g| :: r[j] == g[i] {
          if j == |d| {
            assert r[j] == g[|g| - 1];
          } else {
            var i' :| 0 <= i' < |init| && d[j] == init[i'];
            assert r[j] == g[i'];
          }
        }
      } else {
        assert r == d;
        forall j | 0 <= j < |r| ensures exists i | 0 <= i < |g| :: r[j] == g[i] {
          var i' :| 0 <= i' < |init| && d[j] == init[i'];
          assert r[j] == g[i'];
        }
      }
    }
  }

  lemma {:induction false} DropUtmIdentity(g: Groups)
    requires forall j | 0 <= j < |g| :: !IsUtm(g[j].0)
    ensures DropUtm(g) == g
    decreases |g|
  {
    if g != [] {
      DropUtmIdentity(g[..|g| - 1]);
      assert g[..|g| - 1] + [g[|g| - 1]] == g;
    }
  }

  /** Every name not beginning `utm_` survives the filter with its values. */
  lemma {:induction false} DropUtmKeeps(g: Groups, i: nat)
    requires i < |g| && !IsUtm(g[i].0)
    ensures g[i] in DropUtm(g)
    decreases |g|
  {
    if i < |g| - 1 {
      DropUtmKeeps(g[..|g| - 1], i);
    }
  }

  /** The cleaned query parses to exactly the original query's dictionary
      minus the names beginning `utm_`: no tracking parameter survives and
      every other value does, in order. */
  lemma RemoveUtmQuery(u: Url)
    ensures ParseQs(RemoveUtmParts(u).query) == DropUtm(ParseQs(u.query))
    ensures forall j | 0 <= j < |ParseQs(RemoveUtmParts(u).query)| ::
      !IsUtm(ParseQs(RemoveUtmParts(u).query)[j].0)
  {
    ParseQsWellFormed(u.query);
    DropUtmWellFormed(ParseQs(u.query));
    ParseUrlencode(DropUtm(ParseQs(u.query)));
  }

  /** `_remove_utm` touches only the query. */
  lemma RemoveUtmKeepsComponents(u: Url)
    ensures var v := RemoveUtmParts(u);
      v.scheme == u.scheme && v.netloc == u.netloc && v.path == u.path
      && v.params == u.params && v.fragment == u.fragment
  {
  }

  /** Removing tracking parameters from an already cleaned URL changes nothing. */
  lemma RemoveUtmIdempotent(u: Url)
    ensures RemoveUtmParts(RemoveUtmParts(u)) == RemoveUtmParts(u)
  {
    var d := DropUtm(ParseQs(u.query));
    RemoveUtmQuery(u);
    DropUtmIdentity(d);
  }

  /** A query with no tracking parameter and in the form `urlencode` writes
      (well-formed names and values) is kept as it is. */
  lemma RemoveUtmNoTracking(u: Url, g: Groups)
    requires WellFormed(g)
    requires forall j | 0 <= j < |g| :: !IsUtm(g[j].0)
    requires u.query == Urlencode(g)
    ensures RemoveUtmParts(u) == u
  {
    ParseUrlencode(g);
    DropUtmIdentity(g);
  }

  /** `_remove_utm('https://example.com/a?utm_source=x&b=2')`
      is `'https://example.com/a?b=2'`. */
  lemma RemoveUtmExample(u: Url)
    requires u == Url("https", "example.com", "/a", "", "utm_source=x&b=2", "")
    ensures RemoveUtm(u) == "https://example.com/a?b=2"
  {
    var g: Groups := [("utm_source", ["x"]), ("b", ["2"])];
    ExampleEncode(g);
    assert WellFormed(g);
    ParseUrlencode(g);
    ExampleDrop(g);
    assert RemoveUtmParts(u) == u.(query := "b=2");
    ExampleUnparse();
  }

  lemma ExampleUnparse()
    ensures Unparse(Url("https", "example.com", "/a", "", "b=2", "")) == "https://example.com/a?b=2"
  {
  }

  lemma PairsOfSingle(k: string, vs: seq<string>)
    requires |vs| == 1
    ensures PairsOf(k, vs) == [(k, vs[0])]
  {
    var p := PairsOf(k, vs);
    assert |p| == 1 && p[0] == (k, vs[0]);
  }

  lemma PairsOfSingles(a: (string, seq<string>), b: (string, seq<string>))
    requires |a.1| == 1 && |b.1| == 1
    ensures Pairs([a, b]) == [(a.0, a.1[0]), (b.0, b.1[0])]
    ensures Pairs([b]) == [(b.0, b.1[0])]
  {
    PairsOfSingle(a.0, a.1);
    PairsOfSingle(b.0, b.1);
    var g := [a, b];
    assert g[..1] == [a];
    assert [a][..0] == [];
    assert [b][..0] == [];
    calc {
      Pairs([a]);
      Pairs([]) + PairsOf(a.0, a.1);
      [(a.0, a.1[0])];
    }
    calc {
      Pairs([b]);
      Pairs([]) + PairsOf(b.0, b.1);
      [(b.0, b.1[0])];
    }
    calc {
      Pairs(g);
      Pairs(g[..1]) + PairsOf(b.0, b.1);
      [(a.0, a.1[0])] + [(b.0, b.1[0])];
    }
  }

  lemma ExampleEncode(g: Groups)
    requires g == [("utm_source", ["x"]), ("b", ["2"])]
    ensures Urlencode(g) == "utm_source=x&b=2"
    ensures Urlencode([("b", ["2"])]) == "b=2"
  {
    PairsOfSingles(g[0], g[1]);
    var fs := EncodeFields(Pairs(g));
    assert fs == ["utm_source" + "=" + "x", "b" + "=" + "2"];
    assert Join(fs, '&') == fs[0] + ['&'] + fs[1];
    var f1 := EncodeFields(Pairs([g[1]]));
    assert f1 == ["b" + "=" + "2"];
  }

  lemma ExampleDrop(g: Groups)
    requires g == [("utm_source", ["x"]), ("b", ["2"])]
    ensures DropUtm(g) == [("b", ["2"])]
  {
    assert g[..|g| - 1] == [("utm_source", ["x"])];
    assert g[|g| - 1] == ("b", ["2"]);
    assert "utm_source"[..4] == "utm_";
    assert IsUtm("utm_source") && !IsUtm("b");
    var g1 := g[..|g| - 1];
    assert g1[..0] == [];
    assert DropUtm(g1) == [];
    assert IsUtm("utm_source") && !IsUtm("b");
    assert g[..1] == [("utm_source", ["x"])];
    assert g[..1][..0] == [];
  }
}
