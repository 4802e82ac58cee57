/** The hysteresis machine that turns an envelope into on and off events, against its closed form. */
module Hysteresis {
  const MIN_ELEMENT_S: real := 0.012

  /** A stretch of frames; its times in seconds are these frame numbers times the frame step. */
  datatype TimedEvent = TimedEvent(start: nat, end: nat, isOn: bool)

  /** The fewest frames of dt seconds each that last the minimum. */
  function MinFrames(dt: real): nat
    requires dt > 0.0
  {
    var x := MIN_ELEMENT_S / dt;
    if x <= 0.0 then 0 else if x == x.Floor as real then x.Floor else x.Floor + 1
  }

  lemma MinFramesIsExact(frames: nat, dt: real)
    requires dt > 0.0
    ensures frames as real * dt >= 0.012 <==> frames >= MinFrames(dt)
  {
    var n, x := frames as real, MIN_ELEMENT_S / dt;
    assert x * dt == MIN_ELEMENT_S;
    if n >= x {
      assert (n - x) * dt >= 0.0;
    } else {
      assert (x - n) * dt > 0.0;
    }
  }

  predicate LongEnough(frames: int, min: nat) { frames >= min }

  // ---------------------------------------------------------------------
  // The closed form
  // ---------------------------------------------------------------------

  /** The two thresholds over one envelope. */
  datatype Signal = Signal(env: seq<real>, high: real, low: real)

  /** Frame k rises above the upper threshold and no later frame up to i falls below the lower one. */
  ghost predicate HeldSince(g: Signal, k: int, i: int) {
    0 <= k <= i < |g.env| && g.env[k] > g.high && forall j :: k < j <= i ==> g.env[j] >= g.low
  }

  ghost predicate Keyed(g: Signal, i: int) {
    exists k :: HeldSince(g, k, i)
  }

  /** A maximal run of keyed frames. */
  ghost predicate IsRun(g: Signal, s: int, e: int) {
    && 0 <= s < e <= |g.env|
    && (forall i :: s <= i < e ==> Keyed(g, i))
    && !Keyed(g, s - 1) && !Keyed(g, e)
  }

  /** On and off by turns, from an on to an on, each starting where the one before ends. */
  ghost predicate Tiles(out: seq<TimedEvent>) {
    && (forall i :: 0 <= i < |out| ==> (out[i].isOn <==> i % 2 == 0) && out[i].start < out[i].end)
    && (forall i :: 0 <= i < |out| - 1 ==> out[i].end == out[i + 1].start)
    && (out != [] ==> |out| % 2 == 1)
  }

  /** The on events are maximal runs that are long enough. */
  ghost predicate OnlyRuns(g: Signal, min: nat, out: seq<TimedEvent>) {
    forall i :: 0 <= i < |out| && out[i].isOn ==>
      IsRun(g, out[i].start, out[i].end) && LongEnough(out[i].end - out[i].start, min)
  }

  /** Every maximal run that is long enough and ends before the limit is an on event. */
  ghost predicate AllRuns(g: Signal, min: nat, out: seq<TimedEvent>, limit: int) {
    forall s, e :: IsRun(g, s, e) && e < limit && LongEnough(e - s, min) ==> TimedEvent(s, e, true) in out
  }

  // ---------------------------------------------------------------------
  // The machine
  // ---------------------------------------------------------------------

  lemma KeyedNext(g: Signal, i: nat)
    requires g.low <= g.high && i < |g.env|
    ensures Keyed(g, i) <==> g.env[i] > g.high || (Keyed(g, i - 1) && g.env[i] >= g.low)
  {
    if g.env[i] > g.high {
      assert HeldSince(g, i, i);
    } else if Keyed(g, i - 1) && g.env[i] >= g.low {
      var k :| HeldSince(g, k, i - 1);
      assert HeldSince(g, k, i);
    }
    if Keyed(g, i) {
      var k :| HeldSince(g, k, i);
      assert k < i ==> HeldSince(g, k, i - 1);
    }
  }

  /** The frames from the start of the current run on are keyed, and the run did not start earlier. */
  ghost predicate RunOpen(g: Signal, s: int, i: int) {
    0 <= s < i <= |g.env| && (forall j :: s <= j < i ==> Keyed(g, j)) && !Keyed(g, s - 1)
  }

  lemma RunEndsOnce(g: Signal, s: int, e: int, s': int)
    requires RunOpen(g, s, e) && !Keyed(g, e) && IsRun(g, s', e)
    ensures s' == s
  {
    assert s' <= s - 1 < e ==> Keyed(g, s - 1);
    assert s <= s' - 1 < e ==> Keyed(g, s' - 1);
  }

  /** What the output owes after a run has ended at e: the run itself, if it is long enough. */
  lemma RunClosed(g: Signal, min: nat, out: seq<TimedEvent>, out': seq<TimedEvent>, s: nat, e: nat)
    requires RunOpen(g, s, e) && !Keyed(g, e)
    requires OnlyRuns(g, min, out) && AllRuns(g, min, out, e)
    requires if LongEnough(e - s, min)
             then |out| < |out'| <= |out| + 2 && out == out'[..|out|] && out'[|out'| - 1] == TimedEvent(s, e, true)
                  && (|out'| == |out| + 2 ==> !out'[|out|].isOn)
             else out' == out
    ensures OnlyRuns(g, min, out') && AllRuns(g, min, out', e + 1)
  {
    assert IsRun(g, s, e);
    forall s', e' | IsRun(g, s', e') && e' < e + 1 && LongEnough(e' - s', min)
      ensures TimedEvent(s', e', true) in out'
    {
      if e' == e {
        RunEndsOnce(g, s, e, s');
      } else {
        assert TimedEvent(s', e', true) in out;
      }
    }
    forall i | 0 <= i < |out'| && out'[i].isOn
      ensures IsRun(g, out'[i].start, out'[i].end) && LongEnough(out'[i].end - out'[i].start, min)
    {
      if i < |out| {
        assert out'[i] == out[i];
      }
    }
  }

  /** A run appended, after the gap before it unless it is the first. */
  function Extended(out: seq<TimedEvent>, start: nat, end: nat): seq<TimedEvent> {
    var gap := if out != [] && out[|out| - 1].end < start then [TimedEvent(out[|out| - 1].end, start, false)] else [];
    out + gap + [TimedEvent(start, end, true)]
  }

  lemma ExtendedTiles(out: seq<TimedEvent>, start: nat, end: nat)
    requires start < end && Tiles(out) && (out != [] ==> out[|out| - 1].end < start)
    ensures Tiles(Extended(out, start, end))
  {
    if out != [] {
      var gap, on := TimedEvent(out[|out| - 1].end, start, false), TimedEvent(start, end, true);
      assert Extended(out, start, end) == out + [gap, on];
      assert |out| % 2 == 1 && (|out| + 1) % 2 == 0;
    } else {
      assert Extended(out, start, end) == [TimedEvent(start, end, true)];
    }
  }

  /** A finished run is appended, or dropped as a blip. */
  method PushRun(out: seq<TimedEvent>, start: nat, end: nat, min: nat) returns (out': seq<TimedEvent>)
    requires start < end
    ensures out' == if LongEnough(end - start, min) then Extended(out, start, end) else out
  {
    out' := out;
    if LongEnough(end - start, min) {
      if out != [] {
        var offStart := out[|out| - 1].end;
        if start > offStart {
          out' := out' + [TimedEvent(offStart, start, false)];
        }
      }
      out' := out' + [TimedEvent(start, end, true)];
    }
  }

  /** What holds of the output before frame i, with a run open since runStart if keyed. */
  ghost predicate Progress(g: Signal, min: nat, out: seq<TimedEvent>, keyed: bool, runStart: int, i: int) {
    && (keyed <==> Keyed(g, i - 1))
    && (keyed ==> RunOpen(g, runStart, i))
    && Tiles(out) && OnlyRuns(g, min, out) && AllRuns(g, min, out, if keyed then i else i + 1)
    && (out != [] ==> out[|out| - 1].end <= i)
    && (keyed && out != [] ==> out[|out| - 1].end < runStart)
  }

  lemma CloseRun(g: Signal, min: nat, out: seq<TimedEvent>, runStart: nat, i: nat)
    requires Progress(g, min, out, true, runStart, i) && !Keyed(g, i)
    ensures var out' := if LongEnough(i - runStart, min) then Extended(out, runStart, i) else out;
            && Tiles(out') && OnlyRuns(g, min, out') && AllRuns(g, min, out', i + 1)
            && (out' != [] ==> out'[|out'| - 1].end <= i)
  {
    var out' := if LongEnough(i - runStart, min) then Extended(out, runStart, i) else out;
    ExtendedTiles(out, runStart, i);
    RunClosed(g, min, out, out', runStart, i);
  }

  /** No run ends at a frame with neither it nor the frame before it keyed. */
  lemma StaysSilent(g: Signal, min: nat, out: seq<TimedEvent>, i: nat)
    requires AllRuns(g, min, out, i) && !Keyed(g, i - 1)
    ensures AllRuns(g, min, out, i + 1)
  {
    forall s, e | IsRun(g, s, e) && e < i + 1 && LongEnough(e - s, min) ensures TimedEvent(s, e, true) in out {
      assert e == i ==> Keyed(g, i - 1);
    }
  }

  /** The output after a run that ends at i. */
  function Closed(out: seq<TimedEvent>, runStart: nat, i: nat, min: nat): seq<TimedEvent>
    requires runStart < i
  {
    if LongEnough(i - runStart, min) then Extended(out, runStart, i) else out
  }

  lemma RunContinues(g: Signal, min: nat, out: seq<TimedEvent>, runStart: nat, i: nat)
    requires i < |g.env| && Progress(g, min, out, true, runStart, i) && Keyed(g, i)
    ensures Progress(g, min, out, true, runStart, i + 1)
  {
    assert RunOpen(g, runStart, i + 1);
    forall s, e | IsRun(g, s, e) && e < i + 1 && LongEnough(e - s, min) ensures TimedEvent(s, e, true) in out {
      assert e != i;
    }
  }

  lemma RunCloses(g: Signal, min: nat, out: seq<TimedEvent>, runStart: nat, i: nat)
    requires i < |g.env| && Progress(g, min, out, true, runStart, i) && !Keyed(g, i)
    ensures runStart < i && Progress(g, min, Closed(out, runStart, i, min), false, runStart, i + 1)
  {
    CloseRun(g, min, out, runStart, i);
    StaysSilent(g, min, Closed(out, runStart, i, min), i + 1);
  }

  lemma StepKeyed(g: Signal, min: nat, out: seq<TimedEvent>, runStart: nat, i: nat)
    requires g.low <= g.high && i < |g.env| && Progress(g, min, out, true, runStart, i)
    ensures runStart < i
    ensures g.env[i] >= g.low ==> Progress(g, min, out, true, runStart, i + 1)
    ensures g.env[i] < g.low ==> Progress(g, min, Closed(out, runStart, i, min), false, runStart, i + 1)
  {
    KeyedNext(g, i);
    if g.env[i] < g.low {
      RunCloses(g, min, out, runStart, i);
    } else {
      RunContinues(g, min, out, runStart, i);
    }
  }

  lemma StepSilent(g: Signal, min: nat, out: seq<TimedEvent>, runStart: nat, i: nat)
    requires g.low <= g.high && i < |g.env| && Progress(g, min, out, false, runStart, i)
    ensures g.env[i] > g.high ==> Progress(g, min, out, true, i, i + 1)
    ensures g.env[i] <= g.high ==> Progress(g, min, out, false, runStart, i + 1)
  {
    KeyedNext(g, i);
    if g.env[i] <= g.high {
      StaysSilent(g, min, out, i + 1);
    }
  }

  /** Exactly the maximal runs that are long enough, with the gaps between them. */
  ghost predicate IsEventsOf(out: seq<TimedEvent>, g: Signal, min: nat) {
    Tiles(out) && OnlyRuns(g, min, out) && AllRuns(g, min, out, |g.env| + 1)
  }

  lemma Finish(g: Signal, min: nat, out: seq<TimedEvent>, keyed: bool, runStart: nat)
    requires Progress(g, min, out, keyed, runStart, |g.env|)
    ensures keyed ==> runStart < |g.env|
    ensures IsEventsOf(if keyed then Closed(out, runStart, |g.env|, min) else out, g, min)
  {
    if keyed {
      CloseRun(g, min, out, runStart, |g.env|);
    }
  }

  method EventsWithTimes(env: seq<real>, high: real, low: real, frameDt: real) returns (out: seq<TimedEvent>)
    requires low <= high && frameDt > 0.0
    ensures IsEventsOf(out, Signal(env, high, low), MinFrames(frameDt))
  {
    var min := MinFrames(frameDt);
    ghost var g := Signal(env, high, low);
    out := [];
    var keyed, runStart := false, 0;
    for i := 0 to |env|
      invariant Progress(g, min, out, keyed, runStart, i)
    {
      var v := env[i];
      if keyed {
        StepKeyed(g, min, out, runStart, i);
        if v < low {
          out := PushRun(out, runStart, i, min);
          keyed := false;
        }
      } else {
        StepSilent(g, min, out, runStart, i);
        if v > high {
          keyed := true;
          runStart := i;
        }
      }
    }
    Finish(g, min, out, keyed, runStart);
    if keyed {
      out := PushRun(out, runStart, |env|, min);
    }
  }

  // ---------------------------------------------------------------------
  // The closed form determines the output
  // ---------------------------------------------------------------------

  lemma {:induction false} TilesInOrder(out: seq<TimedEvent>, i: nat, j: nat)
    requires Tiles(out) && i < j < |out|
    ensures out[i].end <= out[j].start
    decreases j
  {
    if i < j - 1 {
      TilesInOrder(out, i, j - 1);
    }
  }

  /** An event of one output, found in another that agrees with it up to two events before, is no earlier there. */
  lemma Locate(a: seq<TimedEvent>, b: seq<TimedEvent>, g: Signal, min: nat, i: nat) returns (k: nat)
    requires IsEventsOf(a, g, min) && IsEventsOf(b, g, min) && i < |a| && i % 2 == 0
    requires i > 0 ==> i <= |b| + 1 && a[..i - 1] == b[..i - 1]
    ensures i <= k < |b| && b[k] == a[i]
  {
    assert a[i].isOn && IsRun(g, a[i].start, a[i].end);
    assert TimedEvent(a[i].start, a[i].end, true) in b;
    k :| 0 <= k < |b| && b[k] == a[i];
    if k < i {
      assert k % 2 == 0 && k < i - 1;
      InPrefix(a, b, i - 1, k);
      TilesInOrder(a, k, i);
      assert false;
    }
  }

  lemma SameAt(a: seq<TimedEvent>, b: seq<TimedEvent>, g: Signal, min: nat, n: nat)
    requires IsEventsOf(a, g, min) && IsEventsOf(b, g, min) && n < |a| && n < |b| && n % 2 == 0
    requires n > 0 ==> a[..n - 1] == b[..n - 1]
    ensures a[n] == b[n]
  {
    var k := Locate(a, b, g, min, n);
    var l := Locate(b, a, g, min, n);
    if k > n {
      TilesInOrder(b, n, k);
    }
    if l > n {
      TilesInOrder(a, n, l);
    }
  }

  /** The gap between two on events is the same in both outputs when they are. */
  lemma SameGap(a: seq<TimedEvent>, b: seq<TimedEvent>, i: nat)
    requires Tiles(a) && Tiles(b) && 0 < i < |a| - 1 && i < |b| - 1 && i % 2 == 1
    requires a[i - 1] == b[i - 1] && a[i + 1] == b[i + 1]
    ensures a[i] == b[i]
  {
    assert a[i - 1].end == a[i].start && a[i].end == a[i + 1].start;
    assert b[i - 1].end == b[i].start && b[i].end == b[i + 1].start;
  }

  lemma SameNext(a: seq<TimedEvent>, b: seq<TimedEvent>, n: nat)
    requires Tiles(a) && Tiles(b)
    requires 3 <= n <= |a| && n <= |b| && n % 2 == 1 && a[..n - 2] == b[..n - 2] && a[n - 1] == b[n - 1]
    ensures a[..n] == b[..n]
  {
    assert (n - 2) % 2 == 1;
    InPrefix(a, b, n - 2, n - 3);
    SameGap(a, b, n - 2);
    GrowPrefix(a, b, n);
  }

  lemma InPrefix(a: seq<TimedEvent>, b: seq<TimedEvent>, n: nat, i: nat)
    requires i < n <= |a| && n <= |b| && a[..n] == b[..n]
    ensures a[i] == b[i]
  {
    assert a[i] == a[..n][i] && b[i] == b[..n][i];
  }

  lemma GrowPrefix(a: seq<TimedEvent>, b: seq<TimedEvent>, n: nat)
    requires 2 <= n <= |a| && n <= |b| && a[..n - 2] == b[..n - 2] && a[n - 2] == b[n - 2] && a[n - 1] == b[n - 1]
    ensures a[..n] == b[..n]
  {
    assert a[..n] == a[..n - 2] + [a[n - 2], a[n - 1]];
    assert b[..n] == b[..n - 2] + [b[n - 2], b[n - 1]];
  }

  lemma {:induction false} SameEvents(a: seq<TimedEvent>, b: seq<TimedEvent>, g: Signal, min: nat, n: nat)
    requires IsEventsOf(a, g, min) && IsEventsOf(b, g, min) && n <= |a| && n <= |b| && (n == 0 || n % 2 == 1)
    ensures a[..n] == b[..n]
    decreases n
  {
    if n == 1 {
      SameAt(a, b, g, min, 0);
    } else if n > 1 {
      SameEvents(a, b, g, min, n - 2);
      SameAt(a, b, g, min, n - 1);
      SameNext(a, b, n);
    }
  }

  lemma NotLonger(a: seq<TimedEvent>, b: seq<TimedEvent>, g: Signal, min: nat)
    requires IsEventsOf(a, g, min) && IsEventsOf(b, g, min)
    requires |b| <= |a| ==> a[..|b|] == b
    ensures |a| <= |b|
  {
    if |b| < |a| {
      var i := |a| - 1;
      assert a[i].isOn && IsRun(g, a[i].start, a[i].end);
      assert TimedEvent(a[i].start, a[i].end, true) in b;
      var k :| 0 <= k < |b| && b[k] == a[i];
      assert a[k] == a[..|b|][k] == a[i];
      TilesInOrder(a, k, i);
      assert false;
    }
  }

  /** There is only one output of the closed form: the machine's. */
  lemma EventsAreUnique(a: seq<TimedEvent>, b: seq<TimedEvent>, g: Signal, min: nat)
    requires IsEventsOf(a, g, min) && IsEventsOf(b, g, min)
    ensures a == b
  {
    var n := if |a| <= |b| then |a| else |b|;
    SameEvents(a, b, g, min, n);
    assert (n == |a| ==> a[..n] == a) && (n == |b| ==> b[..n] == b);
    NotLonger(a, b, g, min);
    NotLonger(b, a, g, min);
  }
}
