/** The append bench's accounting of open and closed gate time, and of one timestamp per character. */
module GateClock {
  import opened Arithmetic
  import opened Wrappers

  /** One frame of the run: its end, whether the gate is open with a lock, and how long the text is after it. */
  datatype Frame = Frame(endMs: nat, gateOpen: bool, textLen: nat)

  datatype Clock = Clock(firstLock: Option<nat>, gateOpen: bool, prevEnd: nat, currentClosed: nat, longestClosed: nat,
                         openMs: nat, closedMs: nat, drops: nat, recoveries: nat, prevLen: nat, charTimes: seq<nat>)

  const STOPPED: Clock := Clock(None, false, 0, 0, 0, 0, 0, 0, 0, 0, [])

  function Since(end: nat, start: nat): nat { if end > start then end - start else 0 }

  function Elapse(c: Clock, dt: nat): Clock {
    if c.gateOpen then c.(openMs := c.openMs + dt)
    else c.(closedMs := c.closedMs + dt, currentClosed := c.currentClosed + dt)
  }

  function Turn(c: Clock, gateOpen: bool): Clock {
    if c.gateOpen == gateOpen then c
    else if c.gateOpen then c.(gateOpen := false, drops := c.drops + 1, currentClosed := 0)
    else c.(gateOpen := true, recoveries := c.recoveries + 1,
            longestClosed := Max(c.longestClosed, c.currentClosed), currentClosed := 0)
  }

  function Tick(c: Clock, f: Frame): Clock {
    if c.firstLock.None? then
      if f.gateOpen then c.(firstLock := Some(f.endMs), gateOpen := true, prevEnd := f.endMs) else c
    else Turn(Elapse(c, Since(f.endMs, c.prevEnd)), f.gateOpen).(prevEnd := f.endMs)
  }

  function Stamp(c: Clock, t: nat, len: nat): Clock {
    c.(charTimes := c.charTimes + Repeat(t, Since(len, c.prevLen)), prevLen := len)
  }

  function Process(c: Clock, f: Frame): Clock { Stamp(Tick(c, f), f.endMs, f.textLen) }

  function Finish(c: Clock, endMs: nat, finalLen: nat): Clock {
    var s := Stamp(c, endMs, finalLen);
    if c.firstLock.None? then s
    else
      var e := Elapse(s, Since(endMs, c.prevEnd));
      e.(longestClosed := Max(e.longestClosed, e.currentClosed))
  }

  class BenchClock {
    var firstLockMs: Option<nat>
    var prevGateOpen: bool
    var prevFrameEndMs: nat
    var currentClosedRunMs: nat
    var longestClosedRunMs: nat
    var gateOpenMs: nat
    var gateClosedMs: nat
    var drops: nat
    var recoveries: nat
    var prevTextLen: nat
    var charTimesMs: seq<nat>

    constructor ()
      ensures Value() == STOPPED
    {
      firstLockMs, prevGateOpen, prevFrameEndMs, currentClosedRunMs, longestClosedRunMs := None, false, 0, 0, 0;
      gateOpenMs, gateClosedMs, drops, recoveries, prevTextLen, charTimesMs := 0, 0, 0, 0, 0, [];
    }

    ghost function Value(): Clock
      reads this
    {
      Clock(firstLockMs, prevGateOpen, prevFrameEndMs, currentClosedRunMs, longestClosedRunMs,
            gateOpenMs, gateClosedMs, drops, recoveries, prevTextLen, charTimesMs)
    }

    method ProcessViz(f: Frame)
      modifies this
      ensures Value() == Process(old(Value()), f)
    {
      if firstLockMs.None? {
        if f.gateOpen {
          firstLockMs, prevGateOpen, prevFrameEndMs := Some(f.endMs), true, f.endMs;
        }
      } else {
        var dt := if f.endMs > prevFrameEndMs then f.endMs - prevFrameEndMs else 0;
        var wasOpen := prevGateOpen;
        AddElapsed(dt);
        if wasOpen != f.gateOpen {
          if wasOpen {
            drops := drops + 1;
          } else {
            recoveries := recoveries + 1;
            if currentClosedRunMs > longestClosedRunMs {
              longestClosedRunMs := currentClosedRunMs;
            }
          }
          currentClosedRunMs := 0;
        }
        prevGateOpen, prevFrameEndMs := f.gateOpen, f.endMs;
      }
      StampTo(f.endMs, f.textLen);
    }

    method AddElapsed(dt: nat)
      modifies this`gateOpenMs, this`gateClosedMs, this`currentClosedRunMs
      ensures Value() == Elapse(old(Value()), dt)
    {
      if prevGateOpen {
        gateOpenMs := gateOpenMs + dt;
      } else {
        gateClosedMs := gateClosedMs + dt;
        currentClosedRunMs := currentClosedRunMs + dt;
      }
    }

    method StampTo(t: nat, newLen: nat)
      modifies this`charTimesMs, this`prevTextLen
      ensures Value() == Stamp(old(Value()), t, newLen)
    {
      ghost var before := charTimesMs;
      var n := prevTextLen;
      assert before + Repeat(t, 0) == before;
      while n < newLen
        invariant prevTextLen == old(prevTextLen) <= n && (n <= newLen || n == prevTextLen)
        invariant charTimesMs == before + Repeat(t, n - prevTextLen)
        decreases newLen - n
      {
        charTimesMs := charTimesMs + [t];
        n := n + 1;
      }
      assert n - prevTextLen == Since(newLen, prevTextLen);
      prevTextLen := newLen;
    }

    method FinishAt(endOfAudioMs: nat, finalLen: nat)
      modifies this
      ensures Value() == Finish(old(Value()), endOfAudioMs, finalLen)
    {
      StampTo(endOfAudioMs, finalLen);
      if firstLockMs.Some? {
        AddElapsed(if endOfAudioMs > prevFrameEndMs then endOfAudioMs - prevFrameEndMs else 0);
        if currentClosedRunMs > longestClosedRunMs {
          longestClosedRunMs := currentClosedRunMs;
        }
      }
    }
  }

  // ---------------------------------------------------------------------
  // Conservation over whole runs
  // ---------------------------------------------------------------------

  function RunClock(frames: seq<Frame>): Clock {
    if frames == [] then STOPPED else Process(RunClock(frames[..|frames| - 1]), frames[|frames| - 1])
  }

  /** Frame ends and text lengths never go back. */
  ghost predicate Forward(frames: seq<Frame>) {
    forall i, j :: 0 <= i < j < |frames| ==> frames[i].endMs <= frames[j].endMs && frames[i].textLen <= frames[j].textLen
  }

  /** The time since the first lock is accounted for, stretch by stretch. */
  ghost predicate Balanced(c: Clock, now: nat) {
    && (c.firstLock.None? ==> !c.gateOpen && c.openMs == c.closedMs == c.drops == c.recoveries == c.longestClosed == 0)
    && (c.firstLock.Some? ==>
          && c.firstLock.value <= c.prevEnd == now
          && c.openMs + c.closedMs == now - c.firstLock.value
          && c.drops == c.recoveries + (if c.gateOpen then 0 else 1))
    && (c.gateOpen || c.firstLock.None? ==> c.currentClosed == 0)
    && c.longestClosed <= c.closedMs && c.currentClosed <= c.closedMs
    && c.closedMs <= c.recoveries * c.longestClosed + c.currentClosed
  }

  ghost predicate Stamped(c: Clock, now: nat, len: nat) {
    && c.prevLen == len == |c.charTimes| && NonDecreasing(c.charTimes)
    && forall i :: 0 <= i < |c.charTimes| ==> c.charTimes[i] <= now
  }

  lemma ElapseKeepsBalanced(c: Clock, now: nat, end: nat)
    requires Balanced(c, now) && c.firstLock.Some? && now <= end
    ensures Balanced(Elapse(c, Since(end, now)).(prevEnd := end), end)
  {
  }

  lemma TurnKeepsBalanced(c: Clock, now: nat, gateOpen: bool)
    requires Balanced(c, now) && c.firstLock.Some?
    ensures Balanced(Turn(c, gateOpen), now)
  {
    var longest := Max(c.longestClosed, c.currentClosed);
    MulGrows(c.recoveries, c.longestClosed, longest);
    assert (c.recoveries + 1) * longest == c.recoveries * longest + longest;
  }

  lemma TickKeepsBalanced(c: Clock, now: nat, f: Frame)
    requires Balanced(c, now) && (c.firstLock.Some? ==> now <= f.endMs)
    ensures Balanced(Tick(c, f), f.endMs)
  {
    if c.firstLock.Some? {
      ElapseKeepsBalanced(c, now, f.endMs);
      TurnKeepsBalanced(Elapse(c, Since(f.endMs, now)).(prevEnd := f.endMs), f.endMs, f.gateOpen);
    }
  }

  lemma StampKeeps(c: Clock, now: nat, len: nat, t: nat, newLen: nat)
    requires Stamped(c, now, len) && now <= t && len <= newLen
    ensures Stamped(Stamp(c, t, newLen), t, newLen)
  {
  }

  ghost function LastEnd(frames: seq<Frame>): nat { if frames == [] then 0 else frames[|frames| - 1].endMs }

  ghost function LastLen(frames: seq<Frame>): nat { if frames == [] then 0 else frames[|frames| - 1].textLen }

  lemma {:induction false} RunKeepsBalanced(frames: seq<Frame>)
    requires Forward(frames)
    ensures Balanced(RunClock(frames), LastEnd(frames))
    ensures Stamped(RunClock(frames), LastEnd(frames), LastLen(frames))
  {
    if frames != [] {
      var init, f := frames[..|frames| - 1], frames[|frames| - 1];
      RunKeepsBalanced(init);
      assert init != [] ==> LastEnd(init) == frames[|frames| - 2].endMs && LastLen(init) == frames[|frames| - 2].textLen;
      TickKeepsBalanced(RunClock(init), LastEnd(init), f);
      StampKeeps(Tick(RunClock(init), f), LastEnd(init), LastLen(init), f.endMs, f.textLen);
    }
  }

  /** The end of the audio closes the last stretch, open or closed. */
  lemma ClosingStretch(c: Clock, now: nat, endMs: nat)
    requires Balanced(c, now) && c.firstLock.Some? && now <= endMs
    ensures var e := Elapse(c, Since(endMs, now));
            var longest := Max(e.longestClosed, e.currentClosed);
            && e.openMs + e.closedMs == endMs - c.firstLock.value
            && longest <= e.closedMs <= e.drops * longest
            && e.drops == c.drops && e.recoveries == c.recoveries && e.gateOpen == c.gateOpen
  {
    var e := Elapse(c, Since(endMs, now));
    ElapseKeepsBalanced(c, now, endMs);
    LongestBounds(e.closedMs, e.drops, e.recoveries, e.longestClosed, e.currentClosed, e.gateOpen);
  }

  /** So many closed stretches, none longer than the longest. */
  lemma LongestBounds(closed: nat, drops: nat, recoveries: nat, longestClosed: nat, current: nat, gateOpen: bool)
    requires drops == recoveries + if gateOpen then 0 else 1
    requires gateOpen ==> current == 0
    requires closed <= recoveries * longestClosed + current
    ensures closed <= drops * Max(longestClosed, current)
  {
    var longest := Max(longestClosed, current);
    MulGrows(recoveries, longestClosed, longest);
    assert (recoveries + 1) * longest == recoveries * longest + longest;
  }

  /**
    Conservation: every millisecond between the first lock and the end of the audio is
    either open or closed; drops and recoveries alternate; the closed time is no shorter
    than its longest stretch and no longer than that many drops of it.
  */
  lemma TimeIsConserved(frames: seq<Frame>, endMs: nat, finalLen: nat)
    requires Forward(frames) && LastEnd(frames) <= endMs
    ensures var c := Finish(RunClock(frames), endMs, finalLen);
            && (c.firstLock.Some? ==> c.openMs + c.closedMs == endMs - c.firstLock.value)
            && (c.firstLock.Some? ==> c.drops - c.recoveries == if c.gateOpen then 0 else 1)
            && (c.firstLock.None? ==> c.openMs == c.closedMs == c.drops == c.recoveries == 0)
            && c.longestClosed <= c.closedMs <= c.drops * c.longestClosed
  {
    var c := RunClock(frames);
    RunKeepsBalanced(frames);
    if c.firstLock.Some? {
      ClosingStretch(Stamp(c, endMs, finalLen), LastEnd(frames), endMs);
    }
  }

  /** Every character has one timestamp, and they never go back. */
  lemma OneStampPerCharacter(frames: seq<Frame>, endMs: nat, finalLen: nat)
    requires Forward(frames) && LastEnd(frames) <= endMs && LastLen(frames) <= finalLen
    ensures var c := Finish(RunClock(frames), endMs, finalLen); |c.charTimes| == finalLen && NonDecreasing(c.charTimes)
  {
    RunKeepsBalanced(frames);
    StampKeeps(RunClock(frames), LastEnd(frames), LastLen(frames), endMs, finalLen);
  }

  ghost predicate FirstOpen(frames: seq<Frame>, i: int) {
    0 <= i < |frames| && frames[i].gateOpen && forall j :: 0 <= j < i ==> !frames[j].gateOpen
  }

  /** The clock starts at the first open frame, and shows the gate of the last frame. */
  lemma {:induction false} StartsAtFirstOpen(frames: seq<Frame>)
    ensures var c := RunClock(frames);
            && (c.firstLock.None? <==> forall i :: 0 <= i < |frames| ==> !frames[i].gateOpen)
            && (forall i :: FirstOpen(frames, i) ==> c.firstLock == Some(frames[i].endMs))
            && (c.gateOpen <==> frames != [] && frames[|frames| - 1].gateOpen)
  {
    if frames != [] {
      var init, f := frames[..|frames| - 1], frames[|frames| - 1];
      StartsAtFirstOpen(init);
      forall i | FirstOpen(frames, i) ensures RunClock(frames).firstLock == Some(frames[i].endMs) {
        assert i < |init| ==> FirstOpen(init, i);
      }
    }
  }

  // ---------------------------------------------------------------------
  // The totals in terms of the frames alone
  // ---------------------------------------------------------------------

  ghost predicate Locked(frames: seq<Frame>) { exists i :: 0 <= i < |frames| && frames[i].gateOpen }

  /** The time from each frame to the next, over the frames from the first open one on whose gate is open, or closed. */
  ghost function GateTime(frames: seq<Frame>, open: bool): int {
    if |frames| < 2 then 0
    else
      var init, last := frames[..|frames| - 1], frames[|frames| - 1];
      var prev := init[|init| - 1];
      GateTime(init, open) + if prev.gateOpen == open && Locked(init) then last.endMs - prev.endMs else 0
  }

  /** How often a frame with the gate open is followed by one with it closed. */
  ghost function Drops(frames: seq<Frame>): nat {
    if |frames| < 2 then 0
    else Drops(frames[..|frames| - 1]) + if frames[|frames| - 2].gateOpen && !frames[|frames| - 1].gateOpen then 1 else 0
  }

  /** Frames i to j - 1 are closed, with an open one before and after. */
  ghost predicate ClosedStretch(frames: seq<Frame>, i: int, j: int) {
    && 0 < i < j < |frames| && frames[i - 1].gateOpen && frames[j].gateOpen
    && forall k :: i <= k < j ==> !frames[k].gateOpen
  }

  /** Some closed stretch lasts t. */
  ghost predicate HasStretch(frames: seq<Frame>, t: int) {
    exists i, j :: ClosedStretch(frames, i, j) && frames[j].endMs - frames[i].endMs == t
  }

  /** No closed stretch is longer, and one is as long, unless there is none. */
  ghost predicate IsLongestStretch(frames: seq<Frame>, longest: int) {
    && (forall t :: HasStretch(frames, t) ==> t <= longest)
    && (HasStretch(frames, longest) || (longest == 0 && forall t :: !HasStretch(frames, t)))
  }

  /** Frame k is the first with more than n characters. */
  ghost predicate FirstWith(frames: seq<Frame>, n: nat, k: int) {
    0 <= k < |frames| && n < frames[k].textLen && forall j :: 0 <= j < k ==> frames[j].textLen <= n
  }

  /** The end of the audio, as one more frame with the gate open and the final text. */
  function WithEnd(frames: seq<Frame>, endMs: nat, finalLen: nat): seq<Frame> { frames + [Frame(endMs, true, finalLen)] }

  /**
    What the clock shows at the end: the time between the frames, and from the last to the
    end of the audio, each stretch counted as open or closed by the frame it begins with,
    from the first open frame on; the number of turns from open to closed; the longest
    time from such a turn to the next open frame or the end; and for each character the
    end of the first frame that had it, or the end of the audio.
  */
  lemma ClockExactly(frames: seq<Frame>, endMs: nat, finalLen: nat)
    requires Forward(WithEnd(frames, endMs, finalLen))
    ensures var c, all := Finish(RunClock(frames), endMs, finalLen), WithEnd(frames, endMs, finalLen);
            && c.openMs == GateTime(all, true) && c.closedMs == GateTime(all, false)
            && c.drops == Drops(all) && IsLongestStretch(all, c.longestClosed)
            && |c.charTimes| == finalLen
            && forall n: nat, k :: n < finalLen && FirstWith(all, n, k) ==> c.charTimes[n] == all[k].endMs
  {
    var all := WithEnd(frames, endMs, finalLen);
    RunTotals(all);
    RunLongest(all);
    RunStamps(all);
    EndIsFrame(frames, endMs, finalLen);
  }

  /** The end of the audio counts as one more open frame. */
  lemma EndIsFrame(frames: seq<Frame>, endMs: nat, finalLen: nat)
    requires Forward(WithEnd(frames, endMs, finalLen))
    ensures var c, d := Finish(RunClock(frames), endMs, finalLen), RunClock(WithEnd(frames, endMs, finalLen));
            && c.openMs == d.openMs && c.closedMs == d.closedMs && c.drops == d.drops
            && c.longestClosed == d.longestClosed && c.charTimes == d.charTimes
  {
    var all := WithEnd(frames, endMs, finalLen);
    assert all[..|frames|] == frames;
    assert Forward(frames) by {
      assert forall i :: 0 <= i < |frames| ==> frames[i] == all[i];
    }
    RunKeepsBalanced(frames);
  }

  lemma {:induction false} RunTotals(frames: seq<Frame>)
    requires Forward(frames)
    ensures var c := RunClock(frames);
            && c.openMs == GateTime(frames, true) && c.closedMs == GateTime(frames, false) && c.drops == Drops(frames)
    ensures RunClock(frames).firstLock.Some? <==> Locked(frames)
    ensures RunClock(frames).firstLock.Some? ==> RunClock(frames).prevEnd == LastEnd(frames)
  {
    if frames != [] {
      var init := frames[..|frames| - 1];
      RunTotals(init);
      StartsAtFirstOpen(init);
      StartsAtFirstOpen(frames);
    }
  }

  /** The gate is closed, and has been since frame i. */
  ghost predicate ClosedSince(frames: seq<Frame>, i: int) {
    0 < i < |frames| && frames[i - 1].gateOpen && forall k :: i <= k < |frames| ==> !frames[k].gateOpen
  }

  /** While the gate is closed the clock shows for how long. */
  lemma {:induction false} CurrentStretch(frames: seq<Frame>) returns (i: int)
    requires Forward(frames)
    ensures ShowsCurrent(RunClock(frames), frames, i)
  {
    i := 0;
    if frames != [] {
      var init, f := frames[..|frames| - 1], frames[|frames| - 1];
      i := CurrentStretch(init);
      RunTotals(init);
      if RunClock(init).gateOpen {
        StartsAtFirstOpen(init);
        i := |init|;
      }
      TickShowsCurrent(RunClock(init), frames, i);
    }
  }

  ghost predicate ShowsCurrent(c: Clock, frames: seq<Frame>, i: int) {
    && (c.firstLock.Some? && !c.gateOpen ==> ClosedSince(frames, i) && c.currentClosed == LastEnd(frames) - frames[i].endMs)
    && (c.firstLock.None? ==> !c.gateOpen)
    && (c.firstLock.None? || c.gateOpen ==> c.currentClosed == 0)
  }

  lemma TickShowsCurrent(c: Clock, frames: seq<Frame>, i: int)
    requires frames != [] && Forward(frames) && (c.firstLock.Some? ==> c.prevEnd == LastEnd(frames[..|frames| - 1]))
    requires if c.gateOpen then |frames| > 1 && frames[|frames| - 2].gateOpen && i == |frames| - 1 && c.currentClosed == 0
                                && c.firstLock.Some?
             else ShowsCurrent(c, frames[..|frames| - 1], i)
    ensures ShowsCurrent(Process(c, frames[|frames| - 1]), frames, i)
  {
    var init := frames[..|frames| - 1];
    if c.firstLock.Some? && !c.gateOpen {
      assert init[i].endMs == frames[i].endMs <= LastEnd(init) <= LastEnd(frames);
    }
  }

  lemma {:induction false} RunLongest(frames: seq<Frame>)
    requires Forward(frames)
    ensures IsLongestStretch(frames, RunClock(frames).longestClosed)
  {
    if frames != [] {
      var init := frames[..|frames| - 1];
      RunLongest(init);
      var i := CurrentStretch(init);
      RunShowsGate(init);
      TickLongest(RunClock(init), frames, i);
    }
  }

  lemma RunShowsGate(frames: seq<Frame>)
    requires Forward(frames)
    ensures var c := RunClock(frames);
            && (c.gateOpen <==> frames != [] && frames[|frames| - 1].gateOpen)
            && (c.firstLock.Some? <==> Locked(frames)) && (c.firstLock.Some? ==> c.prevEnd == LastEnd(frames))
  {
    StartsAtFirstOpen(frames);
    RunTotals(frames);
  }

  lemma TickLongest(c: Clock, frames: seq<Frame>, i: int)
    requires frames != [] && Forward(frames) && (c.firstLock.Some? ==> c.prevEnd == LastEnd(frames[..|frames| - 1]))
    requires IsLongestStretch(frames[..|frames| - 1], c.longestClosed) && ShowsCurrent(c, frames[..|frames| - 1], i)
    requires c.gateOpen <==> |frames| > 1 && frames[|frames| - 2].gateOpen
    requires c.firstLock.Some? <==> Locked(frames[..|frames| - 1])
    ensures IsLongestStretch(frames, Process(c, frames[|frames| - 1]).longestClosed)
  {
    var init, f := frames[..|frames| - 1], frames[|frames| - 1];
    if c.firstLock.Some? && !c.gateOpen && f.gateOpen {
      StretchEnds(frames, i);
      LongestOfMore(init, frames, c.longestClosed, f.endMs - frames[i].endMs);
      assert init[i].endMs == frames[i].endMs <= LastEnd(init) <= f.endMs;
    } else {
      NoStretchEnds(frames);
    }
  }

  lemma LongestOfMore(init: seq<Frame>, frames: seq<Frame>, longest: int, current: nat)
    requires IsLongestStretch(init, longest)
    requires forall t :: HasStretch(frames, t) <==> HasStretch(init, t) || t == current
    ensures IsLongestStretch(frames, if current > longest then current else longest)
  {
  }

  lemma StretchEnds(frames: seq<Frame>, i: nat)
    requires frames != [] && ClosedSince(frames[..|frames| - 1], i) && frames[|frames| - 1].gateOpen
    ensures forall t :: HasStretch(frames, t) <==>
              HasStretch(frames[..|frames| - 1], t) || t == frames[|frames| - 1].endMs - frames[i].endMs
  {
    var init, n := frames[..|frames| - 1], |frames| - 1;
    assert ClosedStretch(frames, i, n);
    EarlierStretches(frames);
    forall a | ClosedStretch(frames, a, n)
      ensures a == i
    {
      OnlyOneStretch(frames, a, i, n);
    }
  }

  /** Only one closed stretch ends at a frame. */
  lemma OnlyOneStretch(frames: seq<Frame>, a: int, b: int, j: int)
    requires ClosedStretch(frames, a, j) && ClosedStretch(frames, b, j)
    ensures a == b
  {
    assert a < b ==> !(a <= b - 1 < j);
    assert b < a ==> !(b <= a - 1 < j);
  }

  lemma NoStretchEnds(frames: seq<Frame>)
    requires frames != []
    requires frames[|frames| - 1].gateOpen ==>
               |frames| < 2 || frames[|frames| - 2].gateOpen || !Locked(frames[..|frames| - 1])
    ensures forall t :: HasStretch(frames, t) <==> HasStretch(frames[..|frames| - 1], t)
  {
    EarlierStretches(frames);
    var init, n := frames[..|frames| - 1], |frames| - 1;
    forall a
      ensures !ClosedStretch(frames, a, n)
    {
      if 0 < a < n {
        assert init[a - 1] == frames[a - 1];
      }
    }
  }

  lemma EarlierStretch(frames: seq<Frame>, i: int, j: int)
    requires frames != []
    ensures ClosedStretch(frames[..|frames| - 1], i, j) <==> ClosedStretch(frames, i, j) && j < |frames| - 1
  {
    if 0 < i < j < |frames| - 1 {
      assert forall k :: i - 1 <= k <= j ==> frames[..|frames| - 1][k] == frames[k];
    }
  }

  lemma EarlierStretches(frames: seq<Frame>)
    requires frames != []
    ensures forall t :: HasStretch(frames[..|frames| - 1], t) ==> HasStretch(frames, t)
    ensures forall t :: HasStretch(frames, t) ==> HasStretch(frames[..|frames| - 1], t) || EndsAtLast(frames, t)
  {
    var init := frames[..|frames| - 1];
    forall t | HasStretch(init, t)
      ensures HasStretch(frames, t)
    {
      var i, j :| ClosedStretch(init, i, j) && init[j].endMs - init[i].endMs == t;
      EarlierStretch(frames, i, j);
    }
    forall t | HasStretch(frames, t)
      ensures HasStretch(init, t) || EndsAtLast(frames, t)
    {
      var i, j :| ClosedStretch(frames, i, j) && frames[j].endMs - frames[i].endMs == t;
      EarlierStretch(frames, i, j);
    }
  }

  ghost predicate EndsAtLast(frames: seq<Frame>, t: int) {
    exists i :: ClosedStretch(frames, i, |frames| - 1) && frames[|frames| - 1].endMs - frames[i].endMs == t
  }

  lemma {:induction false} RunStamps(frames: seq<Frame>)
    requires Forward(frames)
    ensures |RunClock(frames).charTimes| == RunClock(frames).prevLen == LastLen(frames)
    ensures forall n: nat, k :: n < LastLen(frames) && FirstWith(frames, n, k) ==> RunClock(frames).charTimes[n] == frames[k].endMs
  {
    if frames != [] {
      var init, f := frames[..|frames| - 1], frames[|frames| - 1];
      RunStamps(init);
      assert init != [] ==> LastLen(init) == frames[|frames| - 2].textLen;
      forall n: nat, k | n < LastLen(frames) && FirstWith(frames, n, k)
        ensures RunClock(frames).charTimes[n] == frames[k].endMs
      {
        if k < |init| {
          assert FirstWith(init, n, k) && n < LastLen(init);
        }
      }
    }
  }
}
