/** The latency bench's lock-uptime tracker, and the stretch its last step leaves out. */
module Stability {
  import opened Arithmetic
  import opened Wrappers

  datatype Confidence = Hunting | Probation | Locked

  datatype Tracker = Tracker(cwEnd: nat, state: Confidence, started: nat, firstLocked: Option<nat>,
                             lockedMs: nat, unlockedMs: nat, longestUnlocked: nat)

  function Fresh(cwEnd: nat): Tracker { Tracker(cwEnd, Hunting, 0, None, 0, 0, 0) }

  /** The interval since the state began, after the first lock and within the CW segment, credited to its owner. */
  function Credit(t: Tracker, now: nat): Tracker {
    if t.firstLocked.None? then t
    else
      var start, end := Max(t.started, t.firstLocked.value), Min(now, t.cwEnd);
      if end <= start then t
      else if t.state.Locked? then t.(lockedMs := t.lockedMs + (end - start))
      else t.(unlockedMs := t.unlockedMs + (end - start), longestUnlocked := Max(t.longestUnlocked, end - start))
  }

  function Moved(t: Tracker, next: Confidence, now: nat): Tracker {
    if t.state == next then t
    else
      var c := Credit(t, now);
      c.(state := next, started := now,
         firstLocked := if next.Locked? && c.firstLocked.None? then Some(now) else c.firstLocked)
  }

  class StabilityTracker {
    const cwEndMs: nat
    var state: Confidence
    var stateStartedMs: nat
    var firstLockedMs: Option<nat>
    var lockedMs: nat
    var unlockedMs: nat
    var longestUnlocked: nat

    constructor (cwEndMs0: nat)
      ensures Value() == Fresh(cwEndMs0)
    {
      cwEndMs, state, stateStartedMs, firstLockedMs := cwEndMs0, Hunting, 0, None;
      lockedMs, unlockedMs, longestUnlocked := 0, 0, 0;
    }

    ghost function Value(): Tracker
      reads this
    {
      Tracker(cwEndMs, state, stateStartedMs, firstLockedMs, lockedMs, unlockedMs, longestUnlocked)
    }

    method TransitionTo(newState: Confidence, nowMs: nat)
      modifies this
      ensures Value() == Moved(old(Value()), newState, nowMs)
    {
      if state == newState {
        return;
      }
      if firstLockedMs.Some? {
        var intervalStart := Max(stateStartedMs, firstLockedMs.value);
        var intervalEnd := Min(nowMs, cwEndMs);
        if intervalEnd > intervalStart {
          var dur := intervalEnd - intervalStart;
          if state.Locked? {
            lockedMs := lockedMs + dur;
          } else {
            unlockedMs := unlockedMs + dur;
            longestUnlocked := Max(longestUnlocked, dur);
          }
        }
      }
      state, stateStartedMs := newState, nowMs;
      if newState.Locked? && firstLockedMs.None? {
        firstLockedMs := Some(nowMs);
      }
    }

    /** Totals for the result; the uptime is reported when some CW follows the first lock. */
    method Finish(endMs: nat) returns (totalUnlocked: nat, longest: nat, uptime: Option<real>)
      modifies this
      ensures Value() == Moved(old(Value()), Hunting, endMs)
      ensures totalUnlocked == unlockedMs && longest == longestUnlocked
      ensures uptime.Some? <==> firstLockedMs.Some? && cwEndMs > firstLockedMs.value
      ensures uptime.Some? ==> uptime.value == lockedMs as real / Max(lockedMs + unlockedMs, 1) as real
    {
      TransitionTo(Hunting, endMs);
      totalUnlocked, longest, uptime := unlockedMs, longestUnlocked, None;
      if firstLockedMs.Some? && cwEndMs > firstLockedMs.value {
        uptime := Some(lockedMs as real / Max(lockedMs + unlockedMs, 1) as real);
      }
    }
  }

  // ---------------------------------------------------------------------
  // Whole runs
  // ---------------------------------------------------------------------

  /** A confidence event and the time of the chunk that carried it. */
  datatype Event = Event(state: Confidence, at: nat)

  function Track(cwEnd: nat, events: seq<Event>): Tracker {
    if events == [] then Fresh(cwEnd)
    else Moved(Track(cwEnd, events[..|events| - 1]), events[|events| - 1].state, events[|events| - 1].at)
  }

  ghost predicate InOrder(events: seq<Event>, end: nat) {
    && (forall i, j :: 0 <= i < j < |events| ==> events[i].at <= events[j].at)
    && (forall i :: 0 <= i < |events| ==> events[i].at <= end)
  }

  /** Up to the start of the current state all time since the first lock, within the segment, is credited. */
  ghost predicate Credited(t: Tracker, now: nat) {
    && t.started <= now
    && (t.firstLocked.None? ==> t.lockedMs == t.unlockedMs == t.longestUnlocked == 0 && !t.state.Locked?)
    && (t.firstLocked.Some? ==>
          && t.firstLocked.value <= t.started
          && t.lockedMs + t.unlockedMs == Min(t.started, t.cwEnd) - Min(t.firstLocked.value, t.cwEnd))
    && t.longestUnlocked <= t.unlockedMs
    && (t.unlockedMs > 0 ==> t.longestUnlocked > 0)
  }

  lemma {:induction false} RunIsCredited(cwEnd: nat, events: seq<Event>, end: nat)
    requires InOrder(events, end)
    ensures Credited(Track(cwEnd, events), if events == [] then 0 else events[|events| - 1].at)
    ensures Track(cwEnd, events).cwEnd == cwEnd
    ensures Track(cwEnd, events).state == if events == [] then Hunting else events[|events| - 1].state
  {
    if events != [] {
      RunIsCredited(cwEnd, events[..|events| - 1], end);
      assert |events| > 1 ==> events[|events| - 2].at <= events[|events| - 1].at;
    }
  }

  /**
    Conservation: after the last step every millisecond of the CW segment since the first
    lock is locked or unlocked, except that a run ending in the hunting state loses exactly
    the stretch since hunting began, because the closing transition returns at once.
  */
  lemma UptimeIsConserved(cwEnd: nat, events: seq<Event>, end: nat)
    requires InOrder(events, end)
    ensures var t, done := Track(cwEnd, events), Moved(Track(cwEnd, events), Hunting, end);
            done.firstLocked.Some? ==>
              var whole := Min(end, cwEnd) - Min(done.firstLocked.value, cwEnd);
              var lost := if t.state.Hunting? then Min(end, cwEnd) - Min(t.started, cwEnd) else 0;
              done.lockedMs + done.unlockedMs == whole - lost && 0 <= lost <= whole
    ensures var done := Moved(Track(cwEnd, events), Hunting, end); done.longestUnlocked <= done.unlockedMs
  {
    RunIsCredited(cwEnd, events, end);
  }

  ghost predicate EverLocked(events: seq<Event>) { exists i :: 0 <= i < |events| && events[i].state.Locked? }

  /** The time within the segment from each event to the next, over the events from the first lock on that lock, or do not. */
  ghost function StateTime(cwEnd: nat, events: seq<Event>, locked: bool): int {
    if |events| < 2 then 0
    else
      var init, last := events[..|events| - 1], events[|events| - 1];
      var prev := init[|init| - 1];
      StateTime(cwEnd, init, locked)
        + if prev.state.Locked? == locked && EverLocked(init) then Min(last.at, cwEnd) - Min(prev.at, cwEnd) else 0
  }

  /** The totals are the given times, less the time since the current state began, which is not credited yet. */
  ghost predicate Credits(t: Tracker, locked: int, unlocked: int, ever: bool, now: nat) {
    var open := Min(now, t.cwEnd) - Min(t.started, t.cwEnd);
    && t.started <= now && (t.firstLocked.Some? <==> ever)
    && (ever ==> t.firstLocked.value <= t.started) && (t.state.Locked? ==> ever) && (!ever ==> unlocked == 0)
    && t.lockedMs == locked - (if t.state.Locked? then open else 0)
    && t.unlockedMs == unlocked - (if ever && !t.state.Locked? then open else 0)
  }

  lemma MovedCredits(t: Tracker, locked: int, unlocked: int, ever: bool, now: nat, e: Event)
    requires Credits(t, locked, unlocked, ever, now) && now <= e.at
    ensures var more := if ever then Min(e.at, t.cwEnd) - Min(now, t.cwEnd) else 0;
            Credits(Moved(t, e.state, e.at), locked + (if t.state.Locked? then more else 0),
                    unlocked + (if t.state.Locked? then 0 else more), ever || e.state.Locked?, e.at)
  {
  }

  lemma {:induction false} RunCredits(cwEnd: nat, events: seq<Event>, end: nat)
    requires InOrder(events, end)
    ensures Credits(Track(cwEnd, events), StateTime(cwEnd, events, true), StateTime(cwEnd, events, false),
                    EverLocked(events), if events == [] then 0 else events[|events| - 1].at)
    ensures Track(cwEnd, events).cwEnd == cwEnd
    ensures Track(cwEnd, events).state == if events == [] then Hunting else events[|events| - 1].state
  {
    if events != [] {
      var init, last := events[..|events| - 1], events[|events| - 1];
      RunCredits(cwEnd, init, end);
      EverOneMore(events);
      var now := if init == [] then 0 else init[|init| - 1].at;
      MovedCredits(Track(cwEnd, init), StateTime(cwEnd, init, true), StateTime(cwEnd, init, false), EverLocked(init), now, last);
    }
  }

  lemma EverOneMore(events: seq<Event>)
    requires events != []
    ensures EverLocked(events) <==> EverLocked(events[..|events| - 1]) || events[|events| - 1].state.Locked?
  {
    var init := events[..|events| - 1];
    if EverLocked(init) {
      var i :| 0 <= i < |init| && init[i].state.Locked?;
      assert events[i].state.Locked?;
    }
    if EverLocked(events) {
      var i :| 0 <= i < |events| && events[i].state.Locked?;
      assert i < |init| ==> init[i].state.Locked?;
    }
  }

  /**
    What the tracker reports in the end: as locked the time from each locking event to the
    next event or the end, as unlocked that of the other events since the first lock, but
    of a run that ends in the hunting state without the stretch since hunting began.
  */
  lemma ReportedExactly(cwEnd: nat, events: seq<Event>, end: nat)
    requires InOrder(events, end)
    ensures var t, done := Track(cwEnd, events), Moved(Track(cwEnd, events), Hunting, end);
            var all := events + [Event(Hunting, end)];
            && done.lockedMs == StateTime(cwEnd, all, true)
            && (done.firstLocked.Some? ==>
                  done.unlockedMs == StateTime(cwEnd, all, false)
                                     - if t.state.Hunting? then Min(end, cwEnd) - Min(t.started, cwEnd) else 0)
            && (done.firstLocked.Some? <==> EverLocked(events))
  {
    var all := events + [Event(Hunting, end)];
    assert all[..|events|] == events;
    assert InOrder(all, end) by {
      assert forall i :: 0 <= i < |all| ==> all[i].at <= end;
    }
    RunCredits(cwEnd, all, end);
    RunCredits(cwEnd, events, end);
    EverOneMore(all);
  }

  /** From event i to event j, after the first lock, the state is the same and does not lock; then it changes. */
  ghost predicate IsStay(events: seq<Event>, i: int, j: int) {
    && 0 < i < j < |events| && EverLocked(events[..i]) && !events[i].state.Locked?
    && events[i - 1].state != events[i].state && events[j].state != events[i].state
    && forall k :: i <= k < j ==> events[k].state == events[i].state
  }

  /** Some such stay lasts d within the segment. */
  ghost predicate HasStay(cwEnd: nat, events: seq<Event>, d: int) {
    exists i, j :: IsStay(events, i, j) && Min(events[j].at, cwEnd) - Min(events[i].at, cwEnd) == d
  }

  /** No stay in one unlocked state is longer, and one is as long, unless there is none. */
  ghost predicate IsLongestStay(cwEnd: nat, events: seq<Event>, longest: int) {
    && (forall d :: HasStay(cwEnd, events, d) ==> d <= longest)
    && (HasStay(cwEnd, events, longest) || (longest == 0 && forall d :: !HasStay(cwEnd, events, d)))
  }

  /** The longest unlocked stretch reported is the longest stay in one unlocked state that ends in another state. */
  lemma LongestExactly(cwEnd: nat, events: seq<Event>, end: nat)
    requires InOrder(events, end)
    ensures IsLongestStay(cwEnd, events + [Event(Hunting, end)], Moved(Track(cwEnd, events), Hunting, end).longestUnlocked)
  {
    var all := events + [Event(Hunting, end)];
    assert all[..|events|] == events;
    assert InOrder(all, end) by {
      assert forall i :: 0 <= i < |all| ==> all[i].at <= end;
    }
    RunLongest(cwEnd, all, end);
  }

  /** The current state, since event i. */
  ghost predicate StaysSince(t: Tracker, events: seq<Event>, i: int) {
    && (t.firstLocked.Some? <==> EverLocked(events))
    && (t.firstLocked.Some? ==>
          && 0 <= i < |events| && t.started == events[i].at && t.firstLocked.value <= t.started
          && (forall k :: i <= k < |events| ==> events[k].state == t.state)
          && (t.state.Locked? || (i > 0 && events[i - 1].state != t.state && EverLocked(events[..i]))))
    && (t.firstLocked.None? ==> !t.state.Locked?)
  }

  lemma {:induction false} CurrentStay(cwEnd: nat, events: seq<Event>) returns (i: int)
    ensures StaysSince(Track(cwEnd, events), events, i)
    ensures Track(cwEnd, events).cwEnd == cwEnd
    requires forall i, j :: 0 <= i < j < |events| ==> events[i].at <= events[j].at
  {
    i := 0;
    if events != [] {
      var init, last := events[..|events| - 1], events[|events| - 1];
      i := CurrentStay(cwEnd, init);
      EverOneMore(events);
      var t := Track(cwEnd, init);
      if t.state != last.state {
        assert t.firstLocked.Some? ==> events[..|init|] == init && init[|init| - 1].state == t.state;
        i := |init|;
      } else if t.firstLocked.Some? {
        assert init[..i] == events[..i];
      }
    }
  }

  lemma {:induction false} RunLongest(cwEnd: nat, events: seq<Event>, end: nat)
    requires InOrder(events, end)
    ensures IsLongestStay(cwEnd, events, Track(cwEnd, events).longestUnlocked)
  {
    if events != [] {
      var init := events[..|events| - 1];
      RunLongest(cwEnd, init, end);
      var i := CurrentStay(cwEnd, init);
      MovedLongest(Track(cwEnd, init), events, i);
    }
  }

  lemma MovedLongest(t: Tracker, events: seq<Event>, i: int)
    requires events != [] && StaysSince(t, events[..|events| - 1], i)
    requires forall i, j :: 0 <= i < j < |events| ==> events[i].at <= events[j].at
    requires IsLongestStay(t.cwEnd, events[..|events| - 1], t.longestUnlocked)
    ensures IsLongestStay(t.cwEnd, events, Moved(t, events[|events| - 1].state, events[|events| - 1].at).longestUnlocked)
  {
    var init, last := events[..|events| - 1], events[|events| - 1];
    if t.firstLocked.Some? && !t.state.Locked? && last.state != t.state {
      StayEnds(t, events, i);
      LongestOfMore(t.cwEnd, init, events, t.longestUnlocked, Min(last.at, t.cwEnd) - Min(events[i].at, t.cwEnd));
    } else {
      SameStays(t, events, i);
    }
  }

  lemma StayEnds(t: Tracker, events: seq<Event>, i: int)
    requires events != [] && StaysSince(t, events[..|events| - 1], i)
    requires t.firstLocked.Some? && !t.state.Locked? && events[|events| - 1].state != t.state
    ensures forall d :: HasStay(t.cwEnd, events, d) <==>
              || HasStay(t.cwEnd, events[..|events| - 1], d)
              || d == Min(events[|events| - 1].at, t.cwEnd) - Min(events[i].at, t.cwEnd)
  {
    var init, n := events[..|events| - 1], |events| - 1;
    EarlierStays(t.cwEnd, events);
    assert init[..i] == events[..i];
    assert IsStay(events, i, n);
    forall a | IsStay(events, a, n)
      ensures a == i
    {
      OnlyOneStay(events, a, i, n);
    }
  }

  lemma SameStays(t: Tracker, events: seq<Event>, i: int)
    requires events != [] && StaysSince(t, events[..|events| - 1], i)
    requires t.firstLocked.None? || t.state.Locked? || events[|events| - 1].state == t.state
    ensures forall d :: HasStay(t.cwEnd, events, d) <==> HasStay(t.cwEnd, events[..|events| - 1], d)
  {
    var n := |events| - 1;
    EarlierStays(t.cwEnd, events);
    forall a
      ensures !IsStay(events, a, n)
    {
      NoStayEnds(t, events, i, a);
    }
  }

  lemma NoStayEnds(t: Tracker, events: seq<Event>, i: int, a: int)
    requires events != [] && StaysSince(t, events[..|events| - 1], i)
    requires t.firstLocked.None? || t.state.Locked? || events[|events| - 1].state == t.state
    ensures !IsStay(events, a, |events| - 1)
  {
    var init := events[..|events| - 1];
    if 0 < a < |init| && EverLocked(events[..a]) {
      var k :| 0 <= k < a && events[..a][k].state.Locked?;
      assert init[k].state.Locked?;
      assert init[|init| - 1].state == t.state;
    }
  }

  lemma LongestOfMore(cwEnd: nat, init: seq<Event>, events: seq<Event>, longest: int, current: int)
    requires IsLongestStay(cwEnd, init, longest) && current >= 0
    requires forall d :: HasStay(cwEnd, events, d) <==> HasStay(cwEnd, init, d) || d == current
    ensures IsLongestStay(cwEnd, events, if current > longest then current else longest)
  {
  }

  /** Only one stay ends at an event. */
  lemma OnlyOneStay(events: seq<Event>, a: int, b: int, j: int)
    requires IsStay(events, a, j) && IsStay(events, b, j)
    ensures a == b
  {
    assert a < b ==> !(a <= b - 1 < j && a <= b < j);
    assert b < a ==> !(b <= a - 1 < j && b <= a < j);
  }

  lemma EarlierStay(events: seq<Event>, i: int, j: int)
    requires events != []
    ensures IsStay(events[..|events| - 1], i, j) <==> IsStay(events, i, j) && j < |events| - 1
  {
    if 0 < i < j < |events| - 1 {
      assert events[..|events| - 1][..i] == events[..i];
      assert forall k :: i - 1 <= k <= j ==> events[..|events| - 1][k] == events[k];
    }
  }

  lemma EarlierStays(cwEnd: nat, events: seq<Event>)
    requires events != []
    ensures forall d :: HasStay(cwEnd, events[..|events| - 1], d) ==> HasStay(cwEnd, events, d)
    ensures forall d :: HasStay(cwEnd, events, d) ==> HasStay(cwEnd, events[..|events| - 1], d) || EndsAtLast(cwEnd, events, d)
  {
    var init := events[..|events| - 1];
    forall d | HasStay(cwEnd, init, d)
      ensures HasStay(cwEnd, events, d)
    {
      var i, j :| IsStay(init, i, j) && Min(init[j].at, cwEnd) - Min(init[i].at, cwEnd) == d;
      EarlierStay(events, i, j);
    }
    forall d | HasStay(cwEnd, events, d)
      ensures HasStay(cwEnd, init, d) || EndsAtLast(cwEnd, events, d)
    {
      var i, j :| IsStay(events, i, j) && Min(events[j].at, cwEnd) - Min(events[i].at, cwEnd) == d;
      EarlierStay(events, i, j);
    }
  }

  ghost predicate EndsAtLast(cwEnd: nat, events: seq<Event>, d: int) {
    exists i :: IsStay(events, i, |events| - 1)
      && Min(events[|events| - 1].at, cwEnd) - Min(events[i].at, cwEnd) == d
  }

  /** So a lock lost for good half way through is reported as held all the time. */
  lemma LostTailReadsAsFullUptime()
    ensures var done := Moved(Track(1000, [Event(Locked, 0), Event(Hunting, 500)]), Hunting, 1000);
            done.lockedMs == 500 && done.unlockedMs == 0
  {
    var events := [Event(Locked, 0), Event(Hunting, 500)];
    assert events[..1] == [Event(Locked, 0)] && events[..1][..0] == [];
    assert Track(1000, events[..1]) == Tracker(1000, Locked, 0, Some(0), 0, 0, 0);
  }
}
