/** Text normalisation and the content fingerprint (`_normal`, `_fingerprint`
    and `_equal` in diffengine/__init__.py and diffengine/model/Entry.py).
    A page counts as changed only when the fingerprint of its summary
    changes. */
module Text {
  import opened Common
  import opened Strings

  const NoBreakSpace: char := '\U{A0}'
  const LeftDoubleQuote: char := '\U{201C}'
  const RightDoubleQuote: char := '\U{201D}'
  const RightSingleQuote: char := '\U{2019}'
  const SoftHyphen: char := '\U{AD}'

  /** Python's `str.isspace()`, which is also what `str.strip()` removes and
      what `\s` matches in a `str` regular expression. */
  predicate IsSpace(c: char) {
    || ('\U{9}' <= c <= '\U{D}')
    || ('\U{1C}' <= c <= '\U{20}')
    || c == '\U{85}' || c == '\U{A0}' || c == '\U{1680}'
    || ('\U{2000}' <= c <= '\U{200A}')
    || c == '\U{2028}' || c == '\U{2029}' || c == '\U{202F}'
    || c == '\U{205F}' || c == '\U{3000}'
  }

  predicate NoDoubleSpace(s: string) {
    forall i | 0 <= i < |s| - 1 :: !(s[i] == ' ' && s[i + 1] == ' ')
  }

  /** No whitespace at either end: what `str.strip()` leaves. */
  predicate Trimmed(s: string) {
    s == [] || (!IsSpace(s[0]) && !IsSpace(s[|s| - 1]))
  }

  /** Number of spaces `s` begins with. */
  function LeadingSpaces(s: string): (k: nat)
    ensures k <= |s|
    ensures forall i | 0 <= i < k :: s[i] == ' '
    ensures k < |s| ==> s[k] != ' '
  {
    if s != [] && s[0] == ' ' then 1 + LeadingSpaces(s[1..]) else 0
  }

  /** `re.sub(' ' * minRun + '*', ' ', s)`: every maximal run of at least
      `minRun` spaces becomes one space. `_normal` in __init__.py uses
      `' +'` (minRun 1); model/Entry.py uses `'  +'` (minRun 2). */
  function CollapseRuns(s: string, minRun: nat): string
    requires minRun >= 1
    decreases |s|
  {
    if s == [] then []
    else
      var k := LeadingSpaces(s);
      if k >= minRun then " " + CollapseRuns(s[k..], minRun)
      else [s[0]] + CollapseRuns(s[1..], minRun)
  }

  /** The number of whitespace characters `lstrip` removes. */
  function LeadingWhitespace(s: string): (k: nat)
    ensures k <= |s|
  {
    if s != [] && IsSpace(s[0]) then 1 + LeadingWhitespace(s[1..]) else 0
  }

  /** The number of whitespace characters `rstrip` removes. */
  function TrailingWhitespace(s: string): (k: nat)
    ensures k <= |s|
  {
    if s != [] && IsSpace(s[|s| - 1]) then 1 + TrailingWhitespace(s[..|s| - 1]) else 0
  }

  function TrimLeft(s: string): string {
    s[LeadingWhitespace(s)..]
  }

  function TrimRight(s: string): string {
    s[..|s| - TrailingWhitespace(s)]
  }

  /** `s.strip()` */
  function Strip(s: string): string {
    TrimRight(TrimLeft(s))
  }

  /** The character rewrites `_normal` applies before collapsing spaces. */
  function Rewrite(s: string): string {
    var s1 := ReplaceAll(s, [NoBreakSpace], " ");
    var s2 := ReplaceAll(s1, [LeftDoubleQuote], "\"");
    var s3 := ReplaceAll(s2, [RightDoubleQuote], "\"");
    var s4 := ReplaceAll(s3, [RightSingleQuote], "'");
    var s5 := ReplaceAll(s4, "\n", " ");
    ReplaceAll(s5, [SoftHyphen], "")
  }

  /** `_normal(s)` (diffengine/__init__.py:638-648). */
  function Normal(s: string): string {
    Strip(CollapseRuns(Rewrite(s), 1))
  }

  /** `_normal(s)` as diffengine/model/Entry.py:134-144 writes it. */
  function NormalSplit(s: string): string {
    Strip(CollapseRuns(Rewrite(s), 2))
  }

  function Filter(s: string, keep: char -> bool): (r: string)
    ensures forall i | 0 <= i < |r| :: keep(r[i])
  {
    if s == [] then [] else (if keep(s[0]) then [s[0]] else []) + Filter(s[1..], keep)
  }

  /** `re.sub(r'\s+', '', s)` followed by `s.translate(punctuation)`. */
  function Squeeze(s: string, isPunct: char -> bool): string {
    Filter(Filter(s, c => !IsSpace(c)), c => !isPunct(c))
  }

  /** `_fingerprint(s)` (diffengine/__init__.py:659-667). */
  function Fingerprint(libs: Libs, s: string): (r: string)
    ensures forall i | 0 <= i < |r| :: !IsSpace(r[i]) && !libs.isPunct(r[i])
  {
    var cleaned := libs.clean([], Normal(s));
    var r := Squeeze(cleaned, libs.isPunct);
    FilterKeeps(Filter(cleaned, c => !IsSpace(c)), c => !IsSpace(c), c => !libs.isPunct(c));
    r
  }

  /** `_equal(s1, s2)` */
  predicate Equal(libs: Libs, s1: string, s2: string) {
    Fingerprint(libs, s1) == Fingerprint(libs, s2)
  }

  // ---------------------------------------------------------------------
  // Lemmas

  lemma {:induction false} FilterKeeps(s: string, p: char -> bool, q: char -> bool)
    requires forall i | 0 <= i < |s| :: p(s[i])
    ensures forall i | 0 <= i < |Filter(s, q)| :: p(Filter(s, q)[i]) && q(Filter(s, q)[i])
    decreases |s|
  {
    if s != [] {
      FilterKeeps(s[1..], p, q);
    }
  }

  lemma {:induction false} FilterAppend(a: string, b: string, keep: char -> bool)
    ensures Filter(a + b, keep) == Filter(a, keep) + Filter(b, keep)
    decreases |a|
  {
    if a == [] {
      assert a + b == b;
    } else {
      assert (a + b)[1..] == a[1..] + b;
      FilterAppend(a[1..], b, keep);
    }
  }

  /** The fingerprint ignores an inserted whitespace or punctuation character:
      edits of that kind never count as a change. */
  lemma SqueezeIgnores(x: string, c: char, y: string, isPunct: char -> bool)
    requires IsSpace(c) || isPunct(c)
    ensures Squeeze(x + [c] + y, isPunct) == Squeeze(x + y, isPunct)
  {
    var ws := (d: char) => !IsSpace(d);
    var pn := (d: char) => !isPunct(d);
    FilterAppend(x + [c], y, ws);
    FilterAppend(x, [c], ws);
    FilterAppend(x, y, ws);
    assert Filter([c], ws) == (if ws(c) then [c] else []);
    if ws(c) {
      assert !pn(c);
      FilterAppend(Filter(x, ws) + [c], Filter(y, ws), pn);
      FilterAppend(Filter(x, ws), [c], pn);
      FilterAppend(Filter(x, ws), Filter(y, ws), pn);
      assert Filter([c], pn) == [];
    } else {
      assert Filter(x, ws) + [] == Filter(x, ws);
    }
  }

  lemma {:induction false} CollapseChars(s: string, minRun: nat, c: char)
    requires minRun >= 1
    requires c in CollapseRuns(s, minRun)
    ensures c in s
    decreases |s|
  {
    var k := LeadingSpaces(s);
    if k >= minRun {
      if c != ' ' {
        CollapseChars(s[k..], minRun, c);
      }
    } else if c != s[0] {
      CollapseChars(s[1..], minRun, c);
    }
  }

  /** A collapsed string has no double space, and begins with a space exactly
      when its input does. */
  lemma {:induction false} CollapseNoDouble(s: string)
    ensures NoDoubleSpace(CollapseRuns(s, 1))
    ensures s != [] ==> CollapseRuns(s, 1) != [] && (CollapseRuns(s, 1)[0] == ' ' <==> s[0] == ' ')
    decreases |s|
  {
    if s != [] {
      var k := LeadingSpaces(s);
      var r := CollapseRuns(s, 1);
      if k >= 1 {
        var rest := s[k..];
        CollapseNoDouble(rest);
        assert r == " " + CollapseRuns(rest, 1);
        assert rest != [] ==> rest[0] != ' ';
      } else {
        CollapseNoDouble(s[1..]);
        assert r == [s[0]] + CollapseRuns(s[1..], 1);
      }
    }
  }

  lemma {:induction false} CollapseIdentity(s: string)
    requires NoDoubleSpace(s)
    ensures CollapseRuns(s, 1) == s
    decreases |s|
  {
    if s != [] {
      var k := LeadingSpaces(s);
      if |s| >= 2 {
        assert !(s[0] == ' ' && s[1] == ' ');
      }
      assert k <= 1;
      assert NoDoubleSpace(s[1..]);
      CollapseIdentity(s[1..]);
      assert s == [s[0]] + s[1..];
    }
  }

  /** `re.sub(' +', ' ', s)` and `re.sub('  +', ' ', s)` give the same string:
      a single space replaced by a single space is no change. */
  lemma {:induction false} CollapseVariantsAgree(s: string)
    ensures CollapseRuns(s, 1) == CollapseRuns(s, 2)
    decreases |s|
  {
    if s != [] {
      var k := LeadingSpaces(s);
      if k >= 2 {
        CollapseVariantsAgree(s[k..]);
      } else {
        CollapseVariantsAgree(s[1..]);
        if k == 1 {
          assert s[0] == ' ' && s[1..] == s[k..];
        }
      }
    }
  }

  lemma SubstringNoDouble(s: string, i: nat, j: nat)
    requires i <= j <= |s|
    requires NoDoubleSpace(s)
    ensures NoDoubleSpace(s[i..j])
  {
    var t := s[i..j];
    forall k | 0 <= k < |t| - 1
      ensures !(t[k] == ' ' && t[k + 1] == ' ')
    {
      assert t[k] == s[i + k] && t[k + 1] == s[i + k + 1];
    }
  }

  lemma {:induction false} TrimLeftStarts(s: string)
    ensures TrimLeft(s) == [] || !IsSpace(TrimLeft(s)[0])
    decreases |s|
  {
    if s != [] && IsSpace(s[0]) {
      TrimLeftStarts(s[1..]);
      assert TrimLeft(s) == TrimLeft(s[1..]);
    }
  }

  lemma {:induction false} TrimRightEnds(s: string)
    ensures TrimRight(s) == [] || !IsSpace(TrimRight(s)[|TrimRight(s)| - 1])
    decreases |s|
  {
    if s != [] && IsSpace(s[|s| - 1]) {
      TrimRightEnds(s[..|s| - 1]);
      assert TrimRight(s) == TrimRight(s[..|s| - 1]);
    }
  }

  /** `strip` leaves a trimmed substring of its input. */
  lemma StripProperties(s: string)
    ensures Trimmed(Strip(s))
    ensures exists i, j :: 0 <= i <= j <= |s| && Strip(s) == s[i..j]
  {
    var l := TrimLeft(s);
    var r := TrimRight(l);
    TrimLeftStarts(s);
    TrimRightEnds(l);
    if r != [] {
      assert r[0] == l[0];
    }
    var i := LeadingWhitespace(s);
    assert r == s[i..i + |r|];
  }

  lemma StripIdentity(s: string)
    requires Trimmed(s)
    ensures Strip(s) == s
  {
  }

  lemma RewriteChars(s: string)
    ensures var r := Rewrite(s);
      NoBreakSpace !in r && LeftDoubleQuote !in r && RightDoubleQuote !in r
      && RightSingleQuote !in r && '\n' !in r && SoftHyphen !in r
  {
    var s1 := ReplaceAll(s, [NoBreakSpace], " ");
    var s2 := ReplaceAll(s1, [LeftDoubleQuote], "\"");
    var s3 := ReplaceAll(s2, [RightDoubleQuote], "\"");
    var s4 := ReplaceAll(s3, [RightSingleQuote], "'");
    var s5 := ReplaceAll(s4, "\n", " ");
    var s6 := ReplaceAll(s5, [SoftHyphen], "");
    ReplaceAllRemovesChar(s, NoBreakSpace, " ");
    ReplaceAllRemovesChar(s1, LeftDoubleQuote, "\"");
    ReplaceAllKeepsAbsent(s1, [LeftDoubleQuote], "\"", NoBreakSpace);
    ReplaceAllRemovesChar(s2, RightDoubleQuote, "\"");
    ReplaceAllKeepsAbsent(s2, [RightDoubleQuote], "\"", NoBreakSpace);
    ReplaceAllKeepsAbsent(s2, [RightDoubleQuote], "\"", LeftDoubleQuote);
    ReplaceAllRemovesChar(s3, RightSingleQuote, "'");
    ReplaceAllKeepsAbsent(s3, [RightSingleQuote], "'", NoBreakSpace);
    ReplaceAllKeepsAbsent(s3, [RightSingleQuote], "'", LeftDoubleQuote);
    ReplaceAllKeepsAbsent(s3, [RightSingleQuote], "'", RightDoubleQuote);
    assert "\n" == ['\n'];
    ReplaceAllRemovesChar(s4, '\n', " ");
    ReplaceAllKeepsAbsent(s4, "\n", " ", NoBreakSpace);
    ReplaceAllKeepsAbsent(s4, "\n", " ", LeftDoubleQuote);
    ReplaceAllKeepsAbsent(s4, "\n", " ", RightDoubleQuote);
    ReplaceAllKeepsAbsent(s4, "\n", " ", RightSingleQuote);
    ReplaceAllRemovesChar(s5, SoftHyphen, "");
    ReplaceAllKeepsAbsent(s5, [SoftHyphen], "", NoBreakSpace);
    ReplaceAllKeepsAbsent(s5, [SoftHyphen], "", LeftDoubleQuote);
    ReplaceAllKeepsAbsent(s5, [SoftHyphen], "", RightDoubleQuote);
    ReplaceAllKeepsAbsent(s5, [SoftHyphen], "", RightSingleQuote);
    ReplaceAllKeepsAbsent(s5, [SoftHyphen], "", '\n');
  }

  /** A string free of the six rewritten characters is left as it is. */
  lemma RewriteIdentity(s: string)
    requires NoBreakSpace !in s && LeftDoubleQuote !in s && RightDoubleQuote !in s
    requires RightSingleQuote !in s && '\n' !in s && SoftHyphen !in s
    ensures Rewrite(s) == s
  {
    ContainsChar(s, NoBreakSpace);
    ReplaceAllNoMatch(s, [NoBreakSpace], " ");
    ContainsChar(s, LeftDoubleQuote);
    ReplaceAllNoMatch(s, [LeftDoubleQuote], "\"");
    ContainsChar(s, RightDoubleQuote);
    ReplaceAllNoMatch(s, [RightDoubleQuote], "\"");
    ContainsChar(s, RightSingleQuote);
    ReplaceAllNoMatch(s, [RightSingleQuote], "'");
    ContainsChar(s, '\n');
    assert "\n" == ['\n'];
    ReplaceAllNoMatch(s, "\n", " ");
    ContainsChar(s, SoftHyphen);
    ReplaceAllNoMatch(s, [SoftHyphen], "");
  }

  /** What `_normal` promises of its output: none of the rewritten characters,
      no two consecutive spaces, no whitespace at either end. */
  lemma NormalForm(s: string)
    ensures var r := Normal(s);
      && NoBreakSpace !in r && LeftDoubleQuote !in r && RightDoubleQuote !in r
      && RightSingleQuote !in r && '\n' !in r && SoftHyphen !in r
      && NoDoubleSpace(r)
      && Trimmed(r)
  {
    var w := Rewrite(s);
    var c := CollapseRuns(w, 1);
    var r := Strip(c);
    RewriteChars(s);
    CollapseNoDouble(w);
    StripProperties(c);
    var i, j :| 0 <= i <= j <= |c| && r == c[i..j];
    SubstringNoDouble(c, i, j);
    forall x | x in r
      ensures x != NoBreakSpace && x != LeftDoubleQuote && x != RightDoubleQuote
      ensures x != RightSingleQuote && x != '\n' && x != SoftHyphen
    {
      assert x in c;
      CollapseChars(w, 1, x);
    }
  }

  /** `_normal` is idempotent. */
  lemma NormalIdempotent(s: string)
    ensures Normal(Normal(s)) == Normal(s)
  {
    var r := Normal(s);
    NormalForm(s);
    RewriteIdentity(r);
    CollapseIdentity(r);
    StripIdentity(r);
  }

  /** The two copies of `_normal` agree on every input. */
  lemma NormalCopiesAgree(s: string)
    ensures NormalSplit(s) == Normal(s)
  {
    CollapseVariantsAgree(Rewrite(s));
  }

  /** Normalising first changes no fingerprint, so a text always equals its
      own normal form. */
  lemma FingerprintOfNormal(libs: Libs, s: string)
    ensures Fingerprint(libs, Normal(s)) == Fingerprint(libs, s)
    ensures Equal(libs, Normal(s), s)
  {
    NormalIdempotent(s);
  }

  /** `_equal` is an equivalence: reflexive, symmetric and transitive. */
  lemma EqualEquivalence(libs: Libs)
    ensures forall s :: Equal(libs, s, s)
    ensures forall s1, s2 :: Equal(libs, s1, s2) ==> Equal(libs, s2, s1)
    ensures forall s1, s2, s3 :: Equal(libs, s1, s2) && Equal(libs, s2, s3) ==> Equal(libs, s1, s3)
  {
  }

  /** Two texts whose bleached normal forms differ by one inserted
      whitespace or punctuation character are `_equal`. */
  lemma EqualIgnoresInsertion(libs: Libs, s1: string, s2: string, x: string, c: char, y: string)
    requires IsSpace(c) || libs.isPunct(c)
    requires libs.clean([], Normal(s1)) == x + [c] + y
    requires libs.clean([], Normal(s2)) == x + y
    ensures Equal(libs, s1, s2)
  {
    SqueezeIgnores(x, c, y, libs.isPunct);
  }
}
