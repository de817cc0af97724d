/**
 * The reset timer's decision: the UTC instant of today's reset from the
 * `HH:MM` setting, and whether a call resets. Time is whole seconds since
 * the epoch. The reset itself is `Store.ChargingStore.RunResetTimer`.
 */
module ResetRule {
  import opened Wrappers
  import opened Numerals
  import opened ResetTimeSetting

  const SecondsPerDay: int := 86400

  /** The hour of a stored `HH:MM` value. */
  function Hour(t: string): nat
    requires IsHHMM(t)
  {
    DigitValue(t[0]) * 10 + DigitValue(t[1])
  }

  /** The minute of a stored `HH:MM` value. */
  function Minute(t: string): nat
    requires IsHHMM(t)
  {
    DigitValue(t[3]) * 10 + DigitValue(t[4])
  }

  /**
   * `t.split(':').map(x => parseInt(x, 10))` gives the hour and the minute:
   * `t` is two digits, a colon and two digits, and `parseInt` reads the two
   * parts as `Hour(t)` and `Minute(t)`.
   */
  lemma HourMinuteRead(t: string)
    requires IsHHMM(t)
    ensures t == [t[0], t[1]] + ":" + [t[3], t[4]]
    ensures JsParseInt([t[0], t[1]]) == Some(Hour(t)) && JsParseInt([t[3], t[4]]) == Some(Minute(t))
  {
    assert t == [t[0], t[1]] + ":" + [t[3], t[4]];
    HourRead(t);
    MinuteRead(t);
  }

  /** `parseInt` of the two characters before the colon is `Hour(t)`. */
  lemma HourRead(t: string)
    requires IsHHMM(t)
    ensures JsParseInt([t[0], t[1]]) == Some(Hour(t))
  {
    var hh := [t[0], t[1]];
    TwoDigitsValue(hh);
    assert DigitsValue(hh) == Hour(t);
    JsParseIntOfDigitText(hh);
  }

  /** `parseInt` of the two characters after the colon is `Minute(t)`. */
  lemma MinuteRead(t: string)
    requires IsHHMM(t)
    ensures JsParseInt([t[3], t[4]]) == Some(Minute(t))
  {
    var mm := [t[3], t[4]];
    TwoDigitsValue(mm);
    assert DigitsValue(mm) == Minute(t);
    JsParseIntOfDigitText(mm);
  }

  /** Midnight UTC that starts the day containing `now`. */
  function DayStart(now: int): (d: int)
    ensures d <= now < d + SecondsPerDay && d % SecondsPerDay == 0
  {
    now - now % SecondsPerDay
  }

  /**
   * `Date.UTC(year, month, date, hh, mm, 0, 0)` for the UTC date of `now`:
   * today at the configured time, with hours and minutes past their range
   * rolling forward into later days.
   */
  function ResetTarget(now: int, t: string): (target: int)
    requires IsHHMM(t)
    ensures DayStart(now) <= target <= DayStart(now) + 99 * 3600 + 99 * 60
    ensures Hour(t) < 24 && Minute(t) < 60 ==>
      target < DayStart(now) + SecondsPerDay && target % SecondsPerDay == Hour(t) * 3600 + Minute(t) * 60
  {
    DayStart(now) + Hour(t) * 3600 + Minute(t) * 60
  }

  /** `now >= target && !(last && last >= target)`. */
  predicate ResetDue(t: string, last: Option<int>, now: int)
    requires IsHHMM(t)
    ensures ResetDue(t, last, now) ==>
      && Hour(t) * 3600 + Minute(t) * 60 < SecondsPerDay
      && now % SecondsPerDay >= Hour(t) * 3600 + Minute(t) * 60
      && (last.None? || last.value < now)
    ensures (&& Hour(t) < 24 && Minute(t) < 60
             && now % SecondsPerDay >= Hour(t) * 3600 + Minute(t) * 60
             && (last.None? || last.value < DayStart(now))) ==> ResetDue(t, last, now)
  {
    var target := ResetTarget(now, t);
    now >= target && (last.None? || last.value < target)
  }

  /** `25:00` is one o'clock on the next UTC day, as `Date.UTC` rolls it. */
  lemma TargetRollsOver(now: int)
    ensures IsHHMM("25:00") && ResetTarget(now, "25:00") == DayStart(now) + SecondsPerDay + 3600
  {
    assert IsHHMM("25:00");
  }

  /** The default `06:00` setting resets at 06:00 UTC. */
  lemma DefaultTarget(now: int)
    ensures IsHHMM(DefaultResetTime) && ResetTarget(now, DefaultResetTime) == DayStart(now) + 6 * 3600
  {
    assert IsHHMM(DefaultResetTime);
  }

  /**
   * A setting whose time of day falls at or past midnight (`24:00`, `23:60`,
   * `99:99`) never resets: its target lies on a later day than every call.
   */
  lemma NoResetWhenTimeOutsideDay(t: string, last: Option<int>, now: int)
    requires IsHHMM(t) && Hour(t) * 3600 + Minute(t) * 60 >= SecondsPerDay
    ensures !ResetDue(t, last, now)
  {
  }

  /** Calls on the same UTC day share one target. */
  lemma SameDaySameTarget(t: string, a: int, b: int)
    requires IsHHMM(t) && DayStart(a) == DayStart(b)
    ensures ResetTarget(a, t) == ResetTarget(b, t)
  {
  }

  // ---------------------------------------------------------------------
  // Consecutive calls

  /** How many of a run of calls reset, and the `last_reset` they leave. */
  datatype ResetLog = ResetLog(resets: nat, lastReset: Option<int>)

  /** `last_reset` after one call at `now`: the call's own time when it resets. */
  function LastResetAfter(t: string, last: Option<int>, now: int): (r: Option<int>)
    requires IsHHMM(t)
    ensures ResetDue(t, last, now) ==> r == Some(now) && !ResetDue(t, r, now)
    ensures !ResetDue(t, last, now) ==> r == last
  {
    if ResetDue(t, last, now) then Some(now) else last
  }

  /** Calls at the instants `nows`, one after another. */
  function ResetCalls(t: string, last: Option<int>, nows: seq<int>): ResetLog
    requires IsHHMM(t)
  {
    if nows == [] then ResetLog(0, last)
    else
      var before := ResetCalls(t, last, nows[..|nows| - 1]);
      var now := nows[|nows| - 1];
      var resets := if ResetDue(t, before.lastReset, now) then before.resets + 1 else before.resets;
      ResetLog(resets, LastResetAfter(t, before.lastReset, now))
  }

  /** After a reset, no later call on the same UTC day resets again. */
  lemma ResetIdempotent(t: string, last: Option<int>, now: int, later: int)
    requires IsHHMM(t) && ResetDue(t, last, now) && DayStart(later) == DayStart(now)
    ensures !ResetDue(t, LastResetAfter(t, last, now), later)
  {
  }

  /** Calls made before the day's target never reset: nothing changes. */
  lemma {:induction false} NoResetBeforeTarget(t: string, last: Option<int>, nows: seq<int>)
    requires IsHHMM(t)
    requires forall i :: 0 <= i < |nows| ==> nows[i] < ResetTarget(nows[i], t)
    ensures ResetCalls(t, last, nows) == ResetLog(0, last)
  {
    if nows != [] {
      NoResetBeforeTarget(t, last, nows[..|nows| - 1]);
    }
  }

  /**
   * Any number of calls within one UTC day reset at most once, and exactly
   * once when one of them is due on the `last_reset` they started from.
   */
  lemma {:induction false} SameDayResetsOnce(t: string, last: Option<int>, nows: seq<int>)
    requires IsHHMM(t)
    requires forall i, j :: 0 <= i < |nows| && 0 <= j < |nows| ==> DayStart(nows[i]) == DayStart(nows[j])
    ensures var log := ResetCalls(t, last, nows);
      && log.resets <= 1
      && (log.resets == 1 <==> exists i :: 0 <= i < |nows| && ResetDue(t, last, nows[i]))
      && (log.resets == 0 ==> log.lastReset == last)
      && (log.resets == 1 ==> log.lastReset.Some? && ResetTarget(log.lastReset.value, t) <= log.lastReset.value)
  {
    if nows != [] {
      var n := |nows|;
      var pre := nows[..n - 1];
      var now := nows[n - 1];
      assert forall i :: 0 <= i < n - 1 ==> pre[i] == nows[i];
      SameDayResetsOnce(t, last, pre);
      var before := ResetCalls(t, last, pre);
      if before.resets == 1 {
        var i :| 0 <= i < n - 1 && ResetDue(t, last, pre[i]);
        assert DayStart(before.lastReset.value) == DayStart(now) by {
          var k :| 0 <= k < n - 1 && ResetDue(t, last, pre[k]);
          SameDayLastReset(t, last, pre, nows);
        }
        assert !ResetDue(t, before.lastReset, now);
      }
    }
  }

  /** The `last_reset` a run of same-day calls leaves is one of their instants. */
  lemma {:induction false} SameDayLastReset(t: string, last: Option<int>, pre: seq<int>, nows: seq<int>)
    requires IsHHMM(t) && |pre| < |nows| && pre == nows[..|pre|]
    requires forall i, j :: 0 <= i < |nows| && 0 <= j < |nows| ==> DayStart(nows[i]) == DayStart(nows[j])
    requires ResetCalls(t, last, pre).resets > 0
    ensures var l := ResetCalls(t, last, pre).lastReset;
      l.Some? && DayStart(l.value) == DayStart(nows[|nows| - 1])
  {
    var n := |pre|;
    var before := ResetCalls(t, last, pre[..n - 1]);
    assert pre[n - 1] == nows[n - 1];
    if !ResetDue(t, before.lastReset, pre[n - 1]) {
      assert pre[..n - 1] == nows[..n - 1];
      SameDayLastReset(t, last, pre[..n - 1], nows);
    }
  }

  // ---------------------------------------------------------------------
  // The time stamp the handler actually stores

  /**
   * `last_reset` after one call as the handler writes it: the decision uses
   * the host clock `now`, but the stamp is the database's `NOW()`, the start
   * of the transaction, taken before `now` and on another clock.
   */
  function LastResetAsWritten(t: string, last: Option<int>, now: int, transactionStart: int): (r: Option<int>)
    requires IsHHMM(t)
    ensures ResetDue(t, last, now) ==> r == Some(transactionStart)
    ensures !ResetDue(t, last, now) ==> r == last
    ensures r != LastResetAfter(t, last, now) ==> ResetDue(t, last, now) && transactionStart != now
  {
    if ResetDue(t, last, now) then Some(transactionStart) else last
  }

  /**
   * With the stamp one second before the 06:00 boundary and the decision
   * just past it, a call five minutes later resets the same day again.
   */
  lemma StampBeforeTargetResetsTwice()
    ensures IsHHMM(DefaultResetTime)
    ensures ResetDue(DefaultResetTime, None, 21600)
    ensures var stamped := LastResetAsWritten(DefaultResetTime, None, 21600, 21599);
      ResetDue(DefaultResetTime, stamped, 21900) && DayStart(21900) == DayStart(21600)
  {
    assert IsHHMM(DefaultResetTime);
    DefaultTarget(21600);
    DefaultTarget(21900);
  }
}
