/** The day-streak state machine behind the two unlock tiers.

    Calendar days: a time `t` (milliseconds since the epoch) falls on local
    day `(t + zone) / MsPerDay`, where `zone` is the fixed offset of local
    time from UTC in milliseconds. */
module Progression {
  import opened ThinkTypes

  const MsPerDay: int := 1000 * 60 * 60 * 24
  /** Streak length that unlocks the first tier. */
  const PleaseThreshold: int := 14
  /** Streak length that unlocks the second tier. */
  const ReallyThreshold: int := 42

  /** The local calendar day number of time `t`. */
  function DayOf(t: int, zone: int): int {
    (t + zone) / MsPerDay
  }

  /** The instant of local midnight starting the day of `t`, as
      `new Date(year, month, date)` builds it. */
  function LocalMidnight(t: int, zone: int): (m: int)
    ensures m <= t < m + MsPerDay
    ensures DayOf(m, zone) == DayOf(t, zone)
    ensures (m + zone) % MsPerDay == 0
  {
    DayOf(t, zone) * MsPerDay - zone
  }

  /** `Math.floor((today - lastActive) / 86400000)` on the two local midnights:
      exactly the difference of the day numbers. */
  function DaysBetween(later: int, earlier: int, zone: int): (d: int)
    ensures d == DayOf(later, zone) - DayOf(earlier, zone)
  {
    var a, b := DayOf(later, zone), DayOf(earlier, zone);
    assert LocalMidnight(later, zone) - LocalMidnight(earlier, zone) == (a - b) * MsPerDay;
    (LocalMidnight(later, zone) - LocalMidnight(earlier, zone)) / MsPerDay
  }

  /** The unlock flags agree with the streak length. */
  predicate FlagsConsistent(p: ProgressionState) {
    && p.pleaseUnlocked == (p.consecutiveDays >= PleaseThreshold)
    && p.reallyUnlocked == (p.consecutiveDays >= ReallyThreshold)
  }

  /** The activity at `t` falls on the same local day as the last recorded one. */
  predicate SameDay(p: ProgressionState, t: int, zone: int) {
    p.lastActiveDate.Some? && DayOf(t, zone) == DayOf(p.lastActiveDate.value, zone)
  }

  /** The state a new installation starts with. */
  function Initial(now: int): (p: ProgressionState)
    ensures FlagsConsistent(p)
    ensures p.consecutiveDays == 0 && p.lastActiveDate == None && p.startDate == now
  {
    ProgressionState(now, 0, None, false, false)
  }

  /** `loadProgression`: a stored record is taken as it is, flags included;
      without one the initial state is used. */
  function LoadProgression(stored: Option<ProgressionState>, now: int): (p: ProgressionState)
    ensures stored.None? ==> p == Initial(now)
    ensures stored.Some? ==> p == stored.value
  {
    match stored
    case None => Initial(now)
    case Some(s) => s
  }

  /** `updateProgression` for an activity at time `activity`. */
  function UpdateProgression(p: ProgressionState, activity: int, zone: int): (r: ProgressionState)
    ensures SameDay(p, activity, zone) ==> r == p
    ensures !SameDay(p, activity, zone) ==>
      && FlagsConsistent(r)
      && r.lastActiveDate == Some(activity)
      && r.startDate == p.startDate
    ensures p.lastActiveDate.None? ==> r.consecutiveDays == 1
    ensures p.lastActiveDate.Some? && DayOf(activity, zone) == DayOf(p.lastActiveDate.value, zone) + 1 ==>
      r.consecutiveDays == p.consecutiveDays + 1
    ensures (&& p.lastActiveDate.Some?
             && !SameDay(p, activity, zone)
             && DayOf(activity, zone) != DayOf(p.lastActiveDate.value, zone) + 1) ==>
      r.consecutiveDays == 1
  {
    if p.lastActiveDate.None? then Advance(p, 1, activity)
    else
      var diff := DaysBetween(activity, p.lastActiveDate.value, zone);
      if diff == 0 then p
      else if diff == 1 then Advance(p, p.consecutiveDays + 1, activity)
      else Advance(p, 1, activity)
  }

  /** The record after a state-changing activity: new streak length, flags
      recomputed from it, activity time recorded, start date kept. */
  function Advance(p: ProgressionState, days: int, activity: int): (r: ProgressionState)
    ensures FlagsConsistent(r)
    ensures r.consecutiveDays == days && r.lastActiveDate == Some(activity) && r.startDate == p.startDate
  {
    p.(
      consecutiveDays := days,
      lastActiveDate := Some(activity),
      pleaseUnlocked := days >= PleaseThreshold,
      reallyUnlocked := days >= ReallyThreshold)
  }

  /** Any state-changing update repairs the flags, and a same-day update keeps
      them, so consistent flags stay consistent. */
  lemma UpdateKeepsFlagsConsistent(p: ProgressionState, activity: int, zone: int)
    requires FlagsConsistent(p)
    ensures FlagsConsistent(UpdateProgression(p, activity, zone))
  {
  }

  /** A second activity on the same day as the first changes nothing. */
  lemma SameDayIdempotent(p: ProgressionState, t: int, u: int, zone: int)
    requires DayOf(t, zone) == DayOf(u, zone)
    ensures UpdateProgression(UpdateProgression(p, t, zone), u, zone) == UpdateProgression(p, t, zone)
  {
    var q := UpdateProgression(p, t, zone);
    assert SameDay(q, u, zone);
  }

  /** The activities at the times in `ts`, applied in order. */
  function Replay(p: ProgressionState, ts: seq<int>, zone: int): ProgressionState
    decreases |ts|
  {
    if |ts| == 0 then p
    else UpdateProgression(Replay(p, ts[..|ts| - 1], zone), ts[|ts| - 1], zone)
  }

  /** Each activity falls on the local day after the previous one. */
  predicate DailyRun(ts: seq<int>, zone: int) {
    forall i :: 0 < i < |ts| ==> DayOf(ts[i], zone) == DayOf(ts[i - 1], zone) + 1
  }

  /** Starting from a new installation, activity on `n` consecutive days gives
      a streak of `n`, and the tiers unlock exactly at 14 and 42 days. */
  lemma {:induction false} DailyRunStreak(start: int, ts: seq<int>, zone: int)
    requires |ts| > 0
    requires DailyRun(ts, zone)
    ensures Replay(Initial(start), ts, zone).consecutiveDays == |ts|
    ensures Replay(Initial(start), ts, zone).lastActiveDate == Some(ts[|ts| - 1])
    ensures Replay(Initial(start), ts, zone).pleaseUnlocked <==> |ts| >= 14
    ensures Replay(Initial(start), ts, zone).reallyUnlocked <==> |ts| >= 42
  {
    var front := ts[..|ts| - 1];
    if |front| > 0 {
      assert DailyRun(front, zone) by {
        forall i | 0 < i < |front| ensures DayOf(front[i], zone) == DayOf(front[i - 1], zone) + 1 {
          assert front[i] == ts[i] && front[i - 1] == ts[i - 1];
        }
      }
      DailyRunStreak(start, front, zone);
      assert front[|front| - 1] == ts[|ts| - 2];
    }
  }

  /** However the activity times fall, the streak of a new installation never
      exceeds the number of activities. */
  lemma {:induction false} StreakAtMostActivities(start: int, ts: seq<int>, zone: int)
    ensures 0 <= Replay(Initial(start), ts, zone).consecutiveDays <= |ts|
    ensures FlagsConsistent(Replay(Initial(start), ts, zone))
    ensures Replay(Initial(start), ts, zone).startDate == start
    decreases |ts|
  {
    if |ts| > 0 {
      StreakAtMostActivities(start, ts[..|ts| - 1], zone);
    }
  }

  /** The streak example: activity on days 1 and 2 gives 1 then 2; skipping
      day 3 and returning on day 4 resets to 1; a later-day clock going back a
      day also resets to 1. */
  lemma StreakScenario(start: int, zone: int)
    ensures var d1 := UpdateProgression(Initial(start), 0, zone);
            var d2 := UpdateProgression(d1, MsPerDay, zone);
            var d4 := UpdateProgression(d2, 3 * MsPerDay, zone);
            var back := UpdateProgression(d4, 2 * MsPerDay, zone);
            && d1.consecutiveDays == 1
            && d2.consecutiveDays == 2
            && d4.consecutiveDays == 1
            && back.consecutiveDays == 1
  {
    assert DayOf(MsPerDay, zone) == DayOf(0, zone) + 1;
    assert DayOf(3 * MsPerDay, zone) == DayOf(MsPerDay, zone) + 2;
    assert DayOf(2 * MsPerDay, zone) == DayOf(3 * MsPerDay, zone) - 1;
  }

  /** A reset re-locks a tier: a 14-day streak interrupted by a missed day
      drops back to one day with both tiers locked. */
  lemma ResetRelocks(p: ProgressionState, activity: int, zone: int)
    requires p.lastActiveDate.Some?
    requires DayOf(activity, zone) >= DayOf(p.lastActiveDate.value, zone) + 2
    ensures !UpdateProgression(p, activity, zone).pleaseUnlocked
    ensures !UpdateProgression(p, activity, zone).reallyUnlocked
  {
  }

  /** A stored record is trusted: a loaded state need not have consistent flags. */
  lemma LoadedFlagsNotGuaranteed(now: int)
    ensures !FlagsConsistent(LoadProgression(Some(ProgressionState(now, 0, None, true, false)), now))
  {
  }
}
