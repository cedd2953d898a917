/** The playback clock, which can be paused now or at a later time. */
module Clock {
  import opened Bytes

  // --- the clock as code computes it ------------------------------------------------------

  /** `pauseAfterTime` is 0 when no pause is set. */
  datatype Clock = Clock(pauseAfterTime: u64, pauseCumulativeTime: u64)

  const RUNNING := Clock(0, 0)

  /** 64-bit subtraction wraps around. */
  function Minus(a: u64, b: u64): (r: u64)
    ensures r == if b <= a then a - b else a - b + TWO_64
  {
    (a - b) % TWO_64
  }

  /** So does 64-bit addition. */
  function Plus(a: u64, b: u64): (r: u64)
    ensures r == if a + b < TWO_64 then a + b else a + b - TWO_64
  {
    (a + b) % TWO_64
  }

  function Patch(c: Clock, time: u64): u64 {
    if time == 0 then 0
    else if time >= c.pauseAfterTime && c.pauseAfterTime > 0 then Minus(c.pauseAfterTime, c.pauseCumulativeTime)
    else Minus(time, c.pauseCumulativeTime)
  }

  /** Zero stands for no time and stays so, whatever the clock. */
  lemma ZeroStays(c: Clock)
    ensures Patch(c, 0) == 0
  {
  }

  /** What both calls do first: time spent behind the pause is accounted for. */
  function Settle(c: Clock, now: u64): u64 {
    if c.pauseAfterTime > 0 && now > c.pauseAfterTime
    then Plus(c.pauseCumulativeTime, Minus(now, c.pauseAfterTime))
    else c.pauseCumulativeTime
  }

  function PauseAt(c: Clock, now: u64, target: u64): Clock {
    Clock(target, Settle(c, now))
  }

  function Resume(c: Clock, now: u64): Clock {
    Clock(0, Settle(c, now))
  }

  // --- runs ------------------------------------------------------------------------------------

  datatype Event = PauseEvent(now: u64, target: u64) | ResumeEvent(now: u64)

  function Step(c: Clock, e: Event): Clock {
    match e
    case PauseEvent(now, target) => PauseAt(c, now, target)
    case ResumeEvent(now) => Resume(c, now)
  }

  function Run(events: seq<Event>): Clock {
    if events == [] then RUNNING else Step(Run(events[..|events| - 1]), events[|events| - 1])
  }

  function Last(events: seq<Event>): nat {
    if events == [] then 0 else events[|events| - 1].now
  }

  /** The raw clock has started and does not run backwards; no pause lies in the past. */
  ghost predicate Proper(events: seq<Event>) {
    && (forall i :: 0 <= i < |events| ==> 0 < events[i].now && (events[i].PauseEvent? ==> events[i].now <= events[i].target))
    && (forall i, j :: 0 <= i < j < |events| ==> events[i].now <= events[j].now)
  }

  // --- what the clock is meant to do, tick by tick -------------------------------------------------

  /** At raw tick `x` playback stands still: the latest call by then asked for a pause that has
      begun. */
  predicate Frozen(events: seq<Event>, x: nat) {
    if events == [] then false
    else
      var e := events[|events| - 1];
      if e.now <= x then e.PauseEvent? && e.target <= x else Frozen(events[..|events| - 1], x)
  }

  /** The number of ticks before `t` at which playback stood still. */
  function FrozenTicks(events: seq<Event>, t: nat): (n: nat)
    ensures n <= t
  {
    if t == 0 then 0 else FrozenTicks(events, t - 1) + if Frozen(events, t - 1) then 1 else 0
  }

  lemma {:induction false} EarlierTicks(events: seq<Event>, more: seq<Event>, t: nat)
    requires forall i :: 0 <= i < |more| ==> t <= more[i].now
    ensures FrozenTicks(events + more, t) == FrozenTicks(events, t)
    decreases |more|, t
  {
    if more == [] {
      assert events + more == events;
    } else {
      var front := more[..|more| - 1];
      EarlierTicks(events, front, t);
      TicksBefore(events + front, more[|more| - 1], t);
      assert events + more == events + front + [more[|more| - 1]];
    }
  }

  lemma {:induction false} TicksBefore(events: seq<Event>, e: Event, t: nat)
    requires t <= e.now
    ensures FrozenTicks(events + [e], t) == FrozenTicks(events, t)
    decreases t
  {
    if t > 0 {
      TicksBefore(events, e, t - 1);
      assert (events + [e])[..|events|] == events;
    }
  }

  /** Behind the last call the ticks are those up to it and those since the pause began. */
  lemma {:induction false} TicksBehind(events: seq<Event>, t: nat)
    requires events != [] && Last(events) <= t
    ensures var e := events[|events| - 1];
      var begin := if e.PauseEvent? && e.target > e.now then e.target else e.now;
      FrozenTicks(events, t) == FrozenTicks(events, e.now) + if e.PauseEvent? && t > begin then t - begin else 0
    decreases t
  {
    if t > Last(events) {
      TicksBehind(events, t - 1);
    }
  }

  /** One call, seen from a state that has counted `f` frozen ticks by its instant. */
  lemma StepPlayed(c: Clock, e: Event, f: nat, t: u64)
    requires 0 < e.now <= t && f <= e.now && Patch(c, e.now) == e.now - f
    requires e.PauseEvent? ==> e.now <= e.target
    ensures Step(c, e).pauseCumulativeTime == f
    ensures Patch(Step(c, e), t) == t - f - if e.PauseEvent? && t > e.target then t - e.target else 0
  {
    hide Minus, Plus;
  }

  /** After any proper run, patched time is raw time less the ticks spent frozen; in particular
      no subtraction wraps around. */
  lemma {:induction false} ClockCountsPlayedTime(events: seq<Event>, t: u64)
    requires Proper(events) && Last(events) <= t && 0 < t
    ensures Patch(Run(events), t) == t - FrozenTicks(events, t)
    ensures Run(events).pauseCumulativeTime == FrozenTicks(events, Last(events))
  {
    hide Frozen, FrozenTicks, Step, Patch;
    if events == [] {
      NeverFrozen(t);
      NeverFrozen(0);
      NeverPaused(t);
    } else {
      var front, e := events[..|events| - 1], events[|events| - 1];
      assert events == front + [e];
      assert Last(front) <= e.now;
      ClockCountsPlayedTime(front, e.now);
      TicksBefore(front, e, e.now);
      TicksBehind(events, t);
      StepPlayed(Run(front), e, FrozenTicks(front, e.now), t);
    }
  }

  lemma NeverPaused(t: u64)
    ensures Patch(RUNNING, t) == t
  {
  }

  lemma {:induction false} NeverFrozen(t: nat)
    ensures FrozenTicks([], t) == 0
  {
    if t > 0 {
      NeverFrozen(t - 1);
    }
  }

  // --- consequences -----------------------------------------------------------------------------------

  /** What is read while the first `i` calls of a run have happened depends on the whole run only
      through the frozen ticks before that moment. */
  lemma PlayedWithin(events: seq<Event>, i: nat, t: u64)
    requires Proper(events) && i <= |events| && 0 < t
    requires Last(events[..i]) <= t && (i < |events| ==> t <= events[i].now)
    ensures Patch(Run(events[..i]), t) == t - FrozenTicks(events, t)
  {
    hide Patch, Run, FrozenTicks;
    ClockCountsPlayedTime(events[..i], t);
    EarlierTicks(events[..i], events[i..], t);
    assert events[..i] + events[i..] == events;
  }

  /** Over a run, read while the first `i` calls and later while the first `j` calls have happened,
      patched time never decreases and never runs faster than raw time. */
  lemma PatchedTimeMonotone(events: seq<Event>, i: nat, j: nat, t: u64, u: u64)
    requires Proper(events) && i <= j <= |events| && 0 < t <= u
    requires Last(events[..i]) <= t && (i < |events| ==> t <= events[i].now)
    requires Last(events[..j]) <= u && (j < |events| ==> u <= events[j].now)
    ensures Patch(Run(events[..i]), t) <= Patch(Run(events[..j]), u) <= Patch(Run(events[..i]), t) + (u - t)
  {
    hide Patch, Run, FrozenTicks, Proper;
    PlayedWithin(events, i, t);
    PlayedWithin(events, j, u);
    TicksGrow(events, t, u);
  }

  lemma {:induction false} TicksGrow(events: seq<Event>, t: nat, u: nat)
    requires t <= u
    ensures FrozenTicks(events, t) <= FrozenTicks(events, u) <= FrozenTicks(events, t) + (u - t)
    decreases u
  {
    if t < u {
      TicksGrow(events, t, u - 1);
    }
  }

  /** A call changes nothing at its own instant exactly when its target is not in the past. This
      holds in every state, reachable or not. */
  lemma PauseIsSmooth(c: Clock, now: u64, target: u64)
    requires 0 < now
    ensures Patch(PauseAt(c, now, target), now) == Patch(c, now) <==> target == 0 || now <= target
    ensures Patch(Resume(c, now), now) == Patch(c, now)
  {
    hide Minus, Plus;
    SettledTime(c, now);
    var p := PauseAt(c, now, target);
    if target > 0 && target < now {
      MinusDiffers(target, now, p.pauseCumulativeTime);
    }
  }

  /** Before and after settling, the time at this instant is raw time less the settled pause. */
  lemma SettledTime(c: Clock, now: u64)
    requires 0 < now
    ensures Patch(c, now) == Minus(now, Settle(c, now))
  {
    hide Minus, Plus;
  }

  lemma MinusDiffers(a: u64, b: u64, c: u64)
    requires a != b
    ensures Minus(a, c) != Minus(b, c)
  {
    hide Minus;
  }

  /** Clearing the pause jumps unless nothing had been accounted for. */
  lemma ClearIsSmooth(c: Clock, now: u64)
    requires 0 < now
    ensures Patch(RUNNING, now) == Patch(c, now) <==> Settle(c, now) == 0
  {
    hide Minus, Plus, Settle;
    SettledTime(c, now);
  }

  /** Pausing `d` ahead plays exactly `d` more and then stands still, also when playback stands
      still already. */
  lemma PauseAheadFreezes(events: seq<Event>, now: u64, d: nat, t: u64)
    requires Proper(events) && Last(events) <= now <= t && 0 < now && now + d < TWO_64
    ensures var p := Patch(Run(events), now);
      Patch(PauseAt(Run(events), now, now + d), t) == if t - now < d then p + (t - now) else p + d
  {
    hide Minus, Plus, Patch, Frozen, FrozenTicks;
    ClockCountsPlayedTime(events, now);
    var e := PauseEvent(now, now + d);
    var all := events + [e];
    assert all[..|events|] == events && Run(all) == PauseAt(Run(events), now, now + d);
    ClockCountsPlayedTime(all, t);
    TicksBefore(events, e, now);
    TicksBehind(all, t);
  }

  // --- the calls ------------------------------------------------------------------------------------------

  datatype Mode = NONE | READ | WRITE | READ_EMUL | WRITE_EMUL

  class PlaybackClock {
    var mode: Mode
    var pauseAfterTime: u64
    var pauseCumulativeTime: u64

    constructor ()
      ensures mode == NONE && Value() == RUNNING
    {
      mode, pauseAfterTime, pauseCumulativeTime := NONE, 0, 0;
    }

    function Value(): Clock
      reads this
    {
      Clock(pauseAfterTime, pauseCumulativeTime)
    }

    /** Time is patched only while playing. */
    method PatchTime(enabled: bool, time: u64) returns (patched: u64)
      ensures patched == if enabled && (mode == READ || mode == READ_EMUL) then Patch(Value(), time) else time
    {
      if !enabled {
        return time;
      }
      if mode != READ && mode != READ_EMUL {
        return time;
      }
      if time == 0 {
        return 0;
      }
      if time >= pauseAfterTime && pauseAfterTime > 0 {
        return Minus(pauseAfterTime, pauseCumulativeTime);
      }
      return Minus(time, pauseCumulativeTime);
    }

    method TimePauseAt(curTime: u64, newPauseAfterTime: u64)
      modifies this
      ensures mode == old(mode) && Value() == PauseAt(old(Value()), curTime, newPauseAfterTime)
    {
      if pauseAfterTime > 0 {
        if curTime > pauseAfterTime {
          pauseCumulativeTime := Plus(pauseCumulativeTime, Minus(curTime, pauseAfterTime));
        }
      }
      pauseAfterTime := newPauseAfterTime;
    }

    method TimePauseResume(curTime: u64)
      modifies this
      ensures mode == old(mode) && Value() == Resume(old(Value()), curTime)
    {
      if pauseAfterTime > 0 {
        if curTime > pauseAfterTime {
          pauseCumulativeTime := Plus(pauseCumulativeTime, Minus(curTime, pauseAfterTime));
        }
      }
      pauseAfterTime := 0;
    }

    method TimePauseClear()
      modifies this
      ensures mode == old(mode) && Value() == RUNNING
    {
      pauseCumulativeTime := 0;
      pauseAfterTime := 0;
    }

    method SetMode(newMode: Mode)
      modifies this
      ensures mode == newMode && Value() == if newMode == NONE then RUNNING else old(Value())
    {
      mode := newMode;
      if mode == NONE {
        pauseAfterTime := 0;
        pauseCumulativeTime := 0;
      }
    }

    /** `PlaybackPauseAt` while playing, with play positions already in nanoseconds: positions that
        have passed are ignored. */
    method PlaybackPauseAt(currentTime: u64, recordPlayTime: nat, pauseTime: nat)
      requires currentTime + pauseTime < TWO_64
      modifies this
      ensures mode == old(mode)
      ensures Value() == if recordPlayTime > pauseTime then old(Value())
        else PauseAt(old(Value()), currentTime, currentTime + (pauseTime - recordPlayTime))
    {
      if recordPlayTime > pauseTime {
        return;
      }
      TimePauseAt(currentTime, currentTime + (pauseTime - recordPlayTime));
    }
  }
}
