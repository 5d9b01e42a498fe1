/** The string operations Python gives the pipeline for free: `startswith`,
    `in`, `str.replace`, non-overlapping `re.findall` of a literal pattern
    and `str(n)` for a natural number. */
module Strings {

  predicate StartsWith(s: string, p: string) {
    |p| <= |s| && s[..|p|] == p
  }

  /** `p in s` */
  predicate Contains(s: string, p: string)
    decreases |s|
  {
    StartsWith(s, p) || (|s| > 0 && Contains(s[1..], p))
  }

  /** `s.replace(p, rep)`: scan left to right, replacing each
      non-overlapping occurrence of `p`. */
  function ReplaceAll(s: string, p: string, rep: string): string
    requires |p| > 0
    decreases |s|
  {
    if |s| < |p| then s
    else if StartsWith(s, p) then rep + ReplaceAll(s[|p|..], p, rep)
    else [s[0]] + ReplaceAll(s[1..], p, rep)
  }

  /** `len(re.findall(p, s))` for a pattern that matches literally. */
  function CountOcc(s: string, p: string): nat
    requires |p| > 0
    decreases |s|
  {
    if |s| < |p| then 0
    else if StartsWith(s, p) then 1 + CountOcc(s[|p|..], p)
    else CountOcc(s[1..], p)
  }

  /** Number of positions of `s` at which `p` starts, overlaps included. */
  function CountAt(s: string, p: string): nat
    decreases |s|
  {
    if s == [] then 0
    else (if StartsWith(s, p) then 1 else 0) + CountAt(s[1..], p)
  }

  /** `p[0]` occurs nowhere else in `p`, so occurrences cannot overlap. */
  predicate HeadUnique(p: string) {
    |p| > 0 && forall k | 1 <= k < |p| :: p[k] != p[0]
  }

  predicate IsDigit(c: char) {
    '0' as int <= c as int <= '9' as int
  }

  function Digit(d: nat): (c: char)
    requires d < 10
  {
    ((d + '0' as int) as char)
  }

  /** `str(n)` for a natural number. */
  function NatToString(n: nat): (r: string)
    ensures |r| > 0
    ensures forall i | 0 <= i < |r| :: IsDigit(r[i])
  {
    if n < 10 then [Digit(n)] else NatToString(n / 10) + [Digit(n % 10)]
  }

  /** The value of a string of decimal digits (`int(s)`). */
  function DigitsValue(s: string): nat
    requires forall i | 0 <= i < |s| :: IsDigit(s[i])
  {
    if s == [] then 0
    else
      var c := s[|s| - 1];
      assert IsDigit(c);
      DigitsValue(s[..|s| - 1]) * 10 + (c as int - '0' as int)
  }

  /** Index of the first `c` in `s`, or `|s|` when there is none. */
  function IndexOfChar(s: string, c: char): nat
  {
    if s == [] then 0 else if s[0] == c then 0 else 1 + IndexOfChar(s[1..], c)
  }

  // ---------------------------------------------------------------------
  // Lemmas

  lemma ContainsLength(s: string, p: string)
    requires Contains(s, p)
    ensures |p| <= |s|
    decreases |s|
  {
    if !StartsWith(s, p) {
      ContainsLength(s[1..], p);
    }
  }

  lemma {:induction false} ContainsChar(s: string, c: char)
    ensures Contains(s, [c]) <==> c in s
    decreases |s|
  {
    if s != [] {
      ContainsChar(s[1..], c);
      assert s == [s[0]] + s[1..];
      assert StartsWith(s, [c]) <==> s[0] == c;
    }
  }

  /** A match cannot start inside a prefix `a` that lacks `p`'s first character. */
  lemma {:induction false} ContainsSkip(a: string, x: string, p: string)
    requires |p| > 0
    requires forall k | 0 <= k < |a| :: a[k] != p[0]
    ensures Contains(a + x, p) <==> Contains(x, p)
    decreases |a|
  {
    if a == [] {
      assert a + x == x;
    } else {
      assert (a + x)[1..] == a[1..] + x;
      ContainsSkip(a[1..], x, p);
      if |p| <= |a + x| {
        assert (a + x)[..|p|][0] == a[0] != p[0];
      }
      assert !StartsWith(a + x, p);
    }
  }

  lemma {:induction false} ReplaceAllNoMatch(s: string, p: string, rep: string)
    requires |p| > 0
    requires !Contains(s, p)
    ensures ReplaceAll(s, p, rep) == s
    decreases |s|
  {
    if |s| >= |p| {
      ReplaceAllNoMatch(s[1..], p, rep);
      assert s == [s[0]] + s[1..];
    }
  }

  /** Every character of the result comes from the input or from `rep`. */
  lemma {:induction false} ReplaceAllChars(s: string, p: string, rep: string, c: char)
    requires |p| > 0
    requires c in ReplaceAll(s, p, rep)
    ensures c in s || c in rep
    decreases |s|
  {
    if |s| < |p| {
    } else if StartsWith(s, p) {
      if c !in rep {
        ReplaceAllChars(s[|p|..], p, rep, c);
      }
    } else {
      if c != s[0] {
        ReplaceAllChars(s[1..], p, rep, c);
      }
    }
  }

  /** Replacing a single character by a string without it removes it. */
  lemma {:induction false} ReplaceAllRemovesChar(s: string, c: char, rep: string)
    requires c !in rep
    ensures c !in ReplaceAll(s, [c], rep)
    decreases |s|
  {
    if |s| >= 1 {
      ReplaceAllRemovesChar(s[1..], c, rep);
      if StartsWith(s, [c]) {
        assert ReplaceAll(s, [c], rep) == rep + ReplaceAll(s[1..], [c], rep);
      } else {
        assert s[0] != c;
        assert ReplaceAll(s, [c], rep) == [s[0]] + ReplaceAll(s[1..], [c], rep);
      }
    }
  }

  /** Characters absent from both input and replacement stay absent. */
  lemma ReplaceAllKeepsAbsent(s: string, p: string, rep: string, c: char)
    requires |p| > 0
    requires c !in s && c !in rep
    ensures c !in ReplaceAll(s, p, rep)
  {
    if c in ReplaceAll(s, p, rep) {
      ReplaceAllChars(s, p, rep, c);
    }
  }

  /** A prefix lacking `p[0]` passes through `ReplaceAll` untouched. */
  lemma {:induction false} ReplaceAllSkip(a: string, x: string, p: string, rep: string)
    requires |p| > 0
    requires forall k | 0 <= k < |a| :: a[k] != p[0]
    ensures ReplaceAll(a + x, p, rep) == a + ReplaceAll(x, p, rep)
    decreases |a|
  {
    if a == [] {
      assert a + x == x;
    } else {
      var s := a + x;
      assert s[1..] == a[1..] + x;
      ReplaceAllSkip(a[1..], x, p, rep);
      if |s| >= |p| {
        assert s[..|p|][0] == a[0] != p[0];
        assert !StartsWith(s, p);
        calc {
          ReplaceAll(s, p, rep);
          [s[0]] + ReplaceAll(s[1..], p, rep);
          [a[0]] + (a[1..] + ReplaceAll(x, p, rep));
          { assert a == [a[0]] + a[1..]; }
          a + ReplaceAll(x, p, rep);
        }
      } else {
        assert x == [] || |a| + |x| < |p|;
        ReplaceAllShort(x, p, rep);
      }
    }
  }

  lemma ReplaceAllShort(x: string, p: string, rep: string)
    requires |p| > 0 && |x| < |p|
    ensures ReplaceAll(x, p, rep) == x
  {
  }

  lemma ReplaceAllLeading(p: string, x: string, rep: string)
    requires |p| > 0
    ensures ReplaceAll(p + x, p, rep) == rep + ReplaceAll(x, p, rep)
  {
    assert StartsWith(p + x, p);
    assert (p + x)[|p|..] == x;
  }

  lemma {:induction false} CountAtTooShort(s: string, p: string)
    requires |s| < |p|
    ensures CountAt(s, p) == 0
    decreases |s|
  {
    if s != [] {
      CountAtTooShort(s[1..], p);
    }
  }

  /** Positions strictly inside an occurrence of a head-unique pattern start
      no further occurrence. */
  lemma {:induction false} CountAtSkipInside(s: string, p: string, k: nat)
    requires HeadUnique(p) && StartsWith(s, p)
    requires 1 <= k <= |p|
    ensures CountAt(s[k..], p) == CountAt(s[|p|..], p)
    decreases |p| - k
  {
    if k < |p| {
      CountAtSkipInside(s, p, k + 1);
      var t := s[k..];
      assert t[0] == p[k] != p[0];
      assert !StartsWith(t, p);
      assert t[1..] == s[k + 1..];
    }
  }

  /** For a head-unique pattern, non-overlapping and overlapping counts agree. */
  lemma {:induction false} CountOccIsCountAt(s: string, p: string)
    requires HeadUnique(p)
    ensures CountOcc(s, p) == CountAt(s, p)
    decreases |s|
  {
    if |s| < |p| {
      CountAtTooShort(s, p);
    } else if StartsWith(s, p) {
      CountOccIsCountAt(s[|p|..], p);
      CountAtSkipInside(s, p, 1);
    } else {
      CountOccIsCountAt(s[1..], p);
    }
  }

  lemma {:induction false} CountOccPositive(s: string, p: string)
    requires |p| > 0
    ensures CountOcc(s, p) > 0 <==> Contains(s, p)
    decreases |s|
  {
    if |s| < |p| {
      if Contains(s, p) {
        ContainsLength(s, p);
      }
    } else if !StartsWith(s, p) {
      CountOccPositive(s[1..], p);
    }
  }

  lemma {:induction false} NatToStringRoundTrip(n: nat)
    ensures DigitsValue(NatToString(n)) == n
  {
    if n >= 10 {
      NatToStringRoundTrip(n / 10);
      var r := NatToString(n);
      assert r[..|r| - 1] == NatToString(n / 10);
    }
  }

  lemma NatToStringInjective(m: nat, n: nat)
    requires NatToString(m) == NatToString(n)
    ensures m == n
  {
    NatToStringRoundTrip(m);
    NatToStringRoundTrip(n);
  }

  /** Splitting at the first separator: two strings `a + [sep] + c` with
      separator-free heads split the same way. */
  lemma SplitAtSeparator(a1: string, c1: string, a2: string, c2: string, sep: char)
    requires sep !in a1 && sep !in a2
    requires a1 + [sep] + c1 == a2 + [sep] + c2
    ensures a1 == a2 && c1 == c2
  {
    var s1, s2 := a1 + [sep] + c1, a2 + [sep] + c2;
    IndexOfSeparator(a1, c1, sep);
    IndexOfSeparator(a2, c2, sep);
    assert a1 == s1[..|a1|] && a2 == s2[..|a2|];
    assert c1 == s1[|a1| + 1..] && c2 == s2[|a2| + 1..];
  }

  lemma {:induction false} IndexOfSeparator(a: string, c: string, sep: char)
    requires sep !in a
    ensures IndexOfChar(a + [sep] + c, sep) == |a|
    decreases |a|
  {
    if a != [] {
      assert (a + [sep] + c)[1..] == a[1..] + [sep] + c;
      IndexOfSeparator(a[1..], c, sep);
    }
  }
}
