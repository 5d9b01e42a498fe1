/** The staleness heuristic `Entry.stale` (diffengine/__init__.py:115-148 and
    diffengine/model/Entry.py:26-55): an entry is worth fetching again when
    the time since it was last checked is at least a fifth of its age. The
    clock is a parameter (`now`). */
module Staleness {
  import opened Common

  const MicrosPerSecond: int := 1_000_000
  const SecondsPerDay: int := 86400
  /** The "older than 1 month" threshold, in seconds. */
  const MonthSeconds: int := 2628000

  /** `timedelta.seconds` of a difference of `d` microseconds: the seconds
      part of the normalised delta, always within one day. For a positive
      divisor Dafny's division is Python's floor division. */
  function Seconds(d: int): (s: int)
    ensures 0 <= s < SecondsPerDay
  {
    (d / MicrosPerSecond) % SecondsPerDay
  }

  /** `int(timedelta.total_seconds())` rounded down: the whole delta in seconds. */
  function TotalSeconds(d: int): int {
    d / MicrosPerSecond
  }

  /** `r >= 0.2` for `r = staleness / float(hotness)`. With both operands
      whole numbers below 86400 the quotient is never rounded across 0.2,
      so the float test is this integer one. */
  predicate RatioAtLeastFifth(staleness: int, hotness: int)
    requires hotness != 0
  {
    if hotness > 0 then 5 * staleness >= hotness else 5 * staleness <= hotness
  }

  /** `Entry.stale` as written in diffengine/__init__.py. */
  predicate Stale(created: Time, checked: Option<Time>, now: Time) {
    if checked.None? then true
    else
      var hotness := Seconds(now - created);
      if hotness == 0 then true
      else if hotness - MonthSeconds > 0 then false
      else
        var staleness := Seconds(now - checked.value);
        RatioAtLeastFifth(staleness, hotness)
  }

  /** `Entry.stale` as written in diffengine/model/Entry.py: no cutoff. */
  predicate StaleSplit(created: Time, checked: Option<Time>, now: Time) {
    if checked.None? then true
    else
      var hotness := Seconds(now - created);
      if hotness == 0 then true
      else
        var staleness := Seconds(now - checked.value);
        RatioAtLeastFifth(staleness, hotness)
  }

  /** The heuristic as its comments describe it: ages measured in whole
      seconds rather than within-day remainders, so that the one-month
      cutoff takes effect. */
  predicate StaleIntended(created: Time, checked: Option<Time>, now: Time) {
    if checked.None? then true
    else
      var hotness := TotalSeconds(now - created);
      if hotness == 0 then true
      else if hotness - MonthSeconds > 0 then false
      else
        var staleness := TotalSeconds(now - checked.value);
        RatioAtLeastFifth(staleness, hotness)
  }

  // ---------------------------------------------------------------------
  // Lemmas

  /** `Stale`, case by case: never-checked or zero-age entries are stale, and
      otherwise the ratio decides, because the month cutoff cannot fire on a
      within-day value. */
  lemma StaleCases(created: Time, checked: Option<Time>, now: Time)
    ensures checked.None? ==> Stale(created, checked, now)
    ensures Seconds(now - created) == 0 ==> Stale(created, checked, now)
    ensures checked.Some? && Seconds(now - created) != 0 ==>
      (Stale(created, checked, now) <==>
        5 * Seconds(now - checked.value) >= Seconds(now - created))
  {
  }

  /** The one-month cutoff at diffengine/__init__.py:133 never fires. */
  lemma CutoffNeverFires(created: Time, now: Time)
    ensures !(Seconds(now - created) - MonthSeconds > 0)
  {
  }

  /** The two copies of `stale` decide alike on every input. */
  lemma StaleCopiesAgree(created: Time, checked: Option<Time>, now: Time)
    ensures StaleSplit(created, checked, now) == Stale(created, checked, now)
  {
    CutoffNeverFires(created, now);
  }

  /** `.seconds` forgets whole days: ages a day apart look the same. */
  lemma SecondsForgetsDays(d: int, days: int)
    ensures Seconds(d + days * SecondsPerDay * MicrosPerSecond) == Seconds(d)
  {
    var k := days * SecondsPerDay;
    assert (d + k * MicrosPerSecond) / MicrosPerSecond == d / MicrosPerSecond + k;
    assert (d / MicrosPerSecond + k) % SecondsPerDay == (d / MicrosPerSecond) % SecondsPerDay;
  }

  /** An entry created 31 days and 100 seconds ago, checked 50 seconds ago:
      as written it is stale, as intended it is too old to check. */
  lemma StaleCutoffCounterexample()
    ensures var now := (31 * SecondsPerDay + 100) * MicrosPerSecond;
      Stale(0, Some(now - 50 * MicrosPerSecond), now)
      && !StaleIntended(0, Some(now - 50 * MicrosPerSecond), now)
  {
    var now := (31 * SecondsPerDay + 100) * MicrosPerSecond;
    assert Seconds(now) == 100;
    assert Seconds(50 * MicrosPerSecond) == 50;
    assert TotalSeconds(now) == 31 * SecondsPerDay + 100;
  }

  /** The intended heuristic never checks an entry older than a month again. */
  lemma StaleIntendedCutoff(created: Time, checked: Time, now: Time)
    requires now - created >= (MonthSeconds + 1) * MicrosPerSecond
    ensures !StaleIntended(created, Some(checked), now)
  {
    assert TotalSeconds(now - created) >= MonthSeconds + 1;
  }

  /** The intended heuristic: checking earlier never makes an entry less stale. */
  lemma StaleIntendedMonotone(created: Time, c1: Time, c2: Time, now: Time)
    requires c1 <= c2
    requires StaleIntended(created, Some(c2), now)
    requires now - created > 0
    ensures StaleIntended(created, Some(c1), now)
  {
    assert TotalSeconds(now - c1) >= TotalSeconds(now - c2) by {
      DivMonotone(now - c2, now - c1);
    }
  }

  lemma DivMonotone(a: int, b: int)
    requires a <= b
    ensures a / MicrosPerSecond <= b / MicrosPerSecond
  {
  }

  /** When the entry is less than a day old and was checked since, the
      within-day value is the whole value and the two agree. */
  lemma StaleIntendedAgreesWithinDay(created: Time, checked: Time, now: Time)
    requires 0 <= now - created < SecondsPerDay * MicrosPerSecond
    requires 0 <= now - checked < SecondsPerDay * MicrosPerSecond
    ensures Stale(created, Some(checked), now) == StaleIntended(created, Some(checked), now)
  {
    assert Seconds(now - created) == TotalSeconds(now - created);
    assert Seconds(now - checked) == TotalSeconds(now - checked);
  }

  /** An entry created at `t` and checked 500 s later is stale at `t` + 2500 s
      (staleness 2000, age 2500). At age 4000 s it is stale when last checked
      900 s ago (5 * 900 >= 4000) and not when last checked 700 s ago
      (5 * 700 < 4000). */
  lemma StaleExamples(t: Time)
    ensures Stale(t, Some(t + 500 * MicrosPerSecond), t + 2500 * MicrosPerSecond)
    ensures Stale(t, Some(t + 3100 * MicrosPerSecond), t + 4000 * MicrosPerSecond)
    ensures !Stale(t, Some(t + 3300 * MicrosPerSecond), t + 4000 * MicrosPerSecond)
  {
    assert Seconds(2500 * MicrosPerSecond) == 2500;
    assert Seconds(2000 * MicrosPerSecond) == 2000;
    assert Seconds(4000 * MicrosPerSecond) == 4000;
    assert Seconds(900 * MicrosPerSecond) == 900;
    assert Seconds(700 * MicrosPerSecond) == 700;
    assert (t + 2500 * MicrosPerSecond) - t == 2500 * MicrosPerSecond;
    assert (t + 2500 * MicrosPerSecond) - (t + 500 * MicrosPerSecond) == 2000 * MicrosPerSecond;
    assert (t + 4000 * MicrosPerSecond) - t == 4000 * MicrosPerSecond;
    assert (t + 4000 * MicrosPerSecond) - (t + 3100 * MicrosPerSecond) == 900 * MicrosPerSecond;
    assert (t + 4000 * MicrosPerSecond) - (t + 3300 * MicrosPerSecond) == 700 * MicrosPerSecond;
  }
}
