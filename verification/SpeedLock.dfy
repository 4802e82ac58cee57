/** The speed lock of the live envelope streamer: acquired on agreement, released on sustained evidence. */
module SpeedLock {
  import opened Arithmetic
  import opened Wrappers

  const MAX_AUTO_WPM: real := 45.0
  const LOCK_WPM_TOLERANCE: real := 2.0
  const LOCK_RELOCK_AFTER_MISMATCHES: nat := 5
  const LOCK_RELOCK_DELTA_WPM: real := 5.0
  const LOCK_RELEASE_AFTER_SUPPRESSED: nat := 10
  const LOCK_AFTER_ELEMENTS: nat := 10

  /** What the visualiser frame of a cycle says about the signal. */
  datatype Viz = Viz(elements: nat, suppressed: bool, centroidDot: real)

  /** One decode cycle: the speed read, the elements found, and the visualiser frame if one was asked for. */
  datatype Cycle = Cycle(wpm: real, elements: nat, viz: Option<Viz>)

  datatype State = State(locked: Option<real>, pinned: Option<real>, prev: Option<real>, mismatches: nat, suppressed: nat)

  const INITIAL: State := State(None, None, None, 0, 0)

  predicate InRange(wpm: real) { 5.0 < wpm <= MAX_AUTO_WPM }

  // ---------------------------------------------------------------------
  // Evidence
  // ---------------------------------------------------------------------

  function Measured(v: Viz): real { if v.centroidDot > 0.0 then 1.2 / v.centroidDot else 0.0 }

  /** The frame has enough to say about the speed. */
  predicate Evidence(v: Viz) {
    v.elements >= LOCK_AFTER_ELEMENTS && !v.suppressed && Measured(v) > 5.0
  }

  predicate Mismatches(v: Viz, locked: real) { Evidence(v) && Abs(Measured(v) - locked) > LOCK_RELOCK_DELTA_WPM }

  predicate Agrees(v: Viz, locked: real) { Evidence(v) && Abs(Measured(v) - locked) <= LOCK_RELOCK_DELTA_WPM }

  // ---------------------------------------------------------------------
  // One cycle
  // ---------------------------------------------------------------------

  predicate Acquires(s: State, c: Cycle) {
    && s.pinned.None? && s.locked.None?
    && c.elements >= LOCK_AFTER_ELEMENTS && InRange(c.wpm)
    && s.prev.Some? && Abs(c.wpm - s.prev.value) <= LOCK_WPM_TOLERANCE
  }

  function Acquire(s: State, c: Cycle): State {
    if Acquires(s, c) then s.(locked := Some(c.wpm), mismatches := 0, suppressed := 0) else s
  }

  /** The counters after a frame seen under an automatic lock. */
  function CountFrame(s: State, v: Viz, locked: real): State {
    s.(suppressed := if v.suppressed then s.suppressed + 1 else 0,
       mismatches := if Mismatches(v, locked) then s.mismatches + 1
                     else if Agrees(v, locked) then 0 else s.mismatches)
  }

  predicate Exhausted(s: State) {
    s.mismatches >= LOCK_RELOCK_AFTER_MISMATCHES || s.suppressed >= LOCK_RELEASE_AFTER_SUPPRESSED
  }

  function Watch(s: State, c: Cycle): State {
    if s.locked.None? || s.pinned.Some? || c.viz.None? then s
    else
      var counted := CountFrame(s, c.viz.value, s.locked.value);
      if Exhausted(counted) then counted.(locked := None, prev := None, mismatches := 0, suppressed := 0) else counted
  }

  function Remember(s: State, c: Cycle): State {
    s.(prev := if InRange(c.wpm) then Some(c.wpm) else None)
  }

  function Decode(s: State, c: Cycle): State { Remember(Watch(Acquire(s, c), c), c) }

  function SetPin(s: State, wpm: Option<real>): State {
    var pin := if wpm.Some? && wpm.value > 0.0 then wpm else None;
    State(pin, pin, None, 0, 0)
  }

  class LiveEnvelopeStreamer {
    var lockedWpm: Option<real>
    var pinnedWpm: Option<real>
    var prevDecodeWpm: Option<real>
    var lockedMismatchCount: nat
    var lockedSuppressedCount: nat

    constructor ()
      ensures Value() == INITIAL
    {
      lockedWpm, pinnedWpm, prevDecodeWpm, lockedMismatchCount, lockedSuppressedCount := None, None, None, 0, 0;
    }

    ghost function Value(): State
      reads this
    {
      State(lockedWpm, pinnedWpm, prevDecodeWpm, lockedMismatchCount, lockedSuppressedCount)
    }

    method SetPinnedWpm(wpm: Option<real>)
      modifies this
      ensures Value() == SetPin(old(Value()), wpm)
      ensures pinnedWpm == lockedWpm == (match wpm case Some(w) => if w > 0.0 then Some(w) else None case None => None)
      ensures prevDecodeWpm == None && lockedMismatchCount == lockedSuppressedCount == 0
    {
      pinnedWpm := if wpm.Some? && wpm.value > 0.0 then wpm else None;
      lockedWpm := pinnedWpm;
      lockedMismatchCount, lockedSuppressedCount, prevDecodeWpm := 0, 0, None;
    }

    /** The lock part of one decode cycle; shown is the lock written into the cycle's frame. */
    method DecodeNow(c: Cycle) returns (shown: Option<real>)
      modifies this
      ensures Value() == Decode(old(Value()), c)
      ensures shown == if Acquire(old(Value()), c).locked.Some? && lockedWpm.None? then None
                       else if old(pinnedWpm).Some? then old(pinnedWpm) else old(lockedWpm)
    {
      shown := if pinnedWpm.Some? then pinnedWpm else lockedWpm;
      if && pinnedWpm.None? && lockedWpm.None? && c.elements >= LOCK_AFTER_ELEMENTS
         && c.wpm > 5.0 && c.wpm <= MAX_AUTO_WPM
         && prevDecodeWpm.Some? && Abs(c.wpm - prevDecodeWpm.value) <= LOCK_WPM_TOLERANCE
      {
        lockedWpm := Some(c.wpm);
        lockedMismatchCount, lockedSuppressedCount := 0, 0;
      }
      var released := WatchLock(c);
      if released {
        shown := None;
      }
      if c.wpm > 5.0 && c.wpm <= MAX_AUTO_WPM {
        prevDecodeWpm := Some(c.wpm);
      } else {
        prevDecodeWpm := None;
      }
    }

    /** The release part of DecodeNow. */
    method WatchLock(c: Cycle) returns (released: bool)
      modifies this
      ensures Value() == Watch(old(Value()), c)
      ensures released <==> old(lockedWpm).Some? && lockedWpm.None?
    {
      released := false;
      if lockedWpm.Some? && pinnedWpm.None? && c.viz.Some? {
        var locked, viz := lockedWpm.value, c.viz.value;
        if viz.suppressed {
          lockedSuppressedCount := lockedSuppressedCount + 1;
        } else {
          lockedSuppressedCount := 0;
        }
        var measured := if viz.centroidDot > 0.0 then 1.2 / viz.centroidDot else 0.0;
        var enough := viz.elements >= LOCK_AFTER_ELEMENTS && !viz.suppressed && measured > 5.0;
        if enough && Abs(measured - locked) > LOCK_RELOCK_DELTA_WPM {
          lockedMismatchCount := lockedMismatchCount + 1;
        } else if enough {
          lockedMismatchCount := 0;
        }
        if lockedMismatchCount >= LOCK_RELOCK_AFTER_MISMATCHES || lockedSuppressedCount >= LOCK_RELEASE_AFTER_SUPPRESSED {
          lockedWpm := None;
          lockedMismatchCount, lockedSuppressedCount, prevDecodeWpm := 0, 0, None;
          released := true;
        }
      }
    }
  }

  // ---------------------------------------------------------------------
  // Whole runs
  // ---------------------------------------------------------------------

  datatype Command = Run(c: Cycle) | Pin(wpm: Option<real>)

  function After(commands: seq<Command>): State {
    if commands == [] then INITIAL
    else
      var s, last := After(commands[..|commands| - 1]), commands[|commands| - 1];
      match last
      case Run(c) => Decode(s, c)
      case Pin(wpm) => SetPin(s, wpm)
  }

  /** The frames seen since the automatic lock now held was acquired, the acquiring cycle's own included. */
  ghost function SinceLock(commands: seq<Command>): seq<Viz> {
    if commands == [] || commands[|commands| - 1].Pin? then []
    else
      var s, c := After(commands[..|commands| - 1]), commands[|commands| - 1].c;
      var before := if s.locked.Some? then SinceLock(commands[..|commands| - 1]) else [];
      if c.viz.Some? then before + [c.viz.value] else before
  }

  /** How many frames at the end of the list are suppressed. */
  ghost function TrailingSuppressed(frames: seq<Viz>): nat {
    if frames == [] || !frames[|frames| - 1].suppressed then 0 else TrailingSuppressed(frames[..|frames| - 1]) + 1
  }

  /** How many frames mismatch the lock since the last one that agrees with it. */
  ghost function OpenMismatches(frames: seq<Viz>, locked: real): nat {
    if frames == [] then 0
    else
      var v := frames[|frames| - 1];
      if Agrees(v, locked) then 0
      else OpenMismatches(frames[..|frames| - 1], locked) + if Mismatches(v, locked) then 1 else 0
  }

  /** A pin is the lock; an automatic lock has its counters from the frames seen under it, all below the limits. */
  ghost predicate Consistent(s: State, frames: seq<Viz>) {
    && (s.pinned.Some? ==> s.locked == s.pinned && s.mismatches == 0 && s.suppressed == 0)
    && (s.locked.None? ==> s.mismatches == 0 && s.suppressed == 0)
    && (s.pinned.None? && s.locked.Some? ==>
          s.suppressed == TrailingSuppressed(frames) && s.mismatches == OpenMismatches(frames, s.locked.value))
    && !Exhausted(s)
  }

  lemma CycleKeepsConsistent(s: State, frames: seq<Viz>, c: Cycle)
    requires Consistent(s, frames)
    ensures var before := if s.locked.Some? then frames else [];
            Consistent(Decode(s, c), if c.viz.Some? then before + [c.viz.value] else before)
  {
    var before := if s.locked.Some? then frames else [];
    if c.viz.Some? {
      assert (before + [c.viz.value])[..|before|] == before;
    }
  }

  lemma {:induction false} RunsAreConsistent(commands: seq<Command>)
    ensures Consistent(After(commands), SinceLock(commands))
  {
    if commands != [] {
      var init := commands[..|commands| - 1];
      RunsAreConsistent(init);
      if commands[|commands| - 1].Run? {
        CycleKeepsConsistent(After(init), SinceLock(init), commands[|commands| - 1].c);
      }
    }
  }

  /** The speed remembered is that of the last cycle when it was in range, however the lock moved. */
  lemma PreviousReading(commands: seq<Command>)
    requires commands != []
    ensures After(commands).prev == match commands[|commands| - 1]
                                    case Run(c) => if InRange(c.wpm) then Some(c.wpm) else None
                                    case Pin(_) => None
  {
  }

  /**
    Exactly when a lock is acquired, over all runs: when the last command was a cycle, it and this
    cycle read speeds above 5 and up to 45 that are at most 2 apart, and this one has ten elements.
  */
  lemma LockIsAgreed(commands: seq<Command>, c: Cycle)
    requires After(commands).locked.None?
    ensures Decode(After(commands), c).locked.Some? <==>
              && commands != [] && commands[|commands| - 1].Run? && c.elements >= 10 && 5.0 < c.wpm <= 45.0
              && var last := commands[|commands| - 1].c.wpm; 5.0 < last <= 45.0 && -2.0 <= c.wpm - last <= 2.0
    ensures Decode(After(commands), c).locked.Some? ==> Decode(After(commands), c).locked == Some(c.wpm)
  {
    RunsAreConsistent(commands);
    if commands != [] {
      PreviousReading(commands);
    }
  }

  function Runs(cycles: seq<Cycle>): seq<Command> {
    if cycles == [] then [] else Runs(cycles[..|cycles| - 1]) + [Run(cycles[|cycles| - 1])]
  }

  /** A positive pin is the lock from then on, whatever is decoded; any other pin undoes it and leaves no lock. */
  lemma {:induction false} PinHolds(commands: seq<Command>, wpm: Option<real>, cycles: seq<Cycle>)
    ensures wpm.Some? && wpm.value > 0.0 ==>
              After(commands + [Pin(wpm)] + Runs(cycles)).locked == After(commands + [Pin(wpm)] + Runs(cycles)).pinned == wpm
    ensures wpm.None? || wpm.value <= 0.0 ==>
              After(commands + [Pin(wpm)]) == INITIAL && After(commands + [Pin(wpm)] + Runs(cycles)).pinned == None
  {
    var pinned := commands + [Pin(wpm)];
    assert pinned[..|commands|] == commands;
    if cycles == [] {
      assert pinned + Runs(cycles) == pinned;
    } else {
      var init := cycles[..|cycles| - 1];
      PinHolds(commands, wpm, init);
      AfterNext(pinned + Runs(init), cycles[|cycles| - 1]);
      assert pinned + Runs(cycles) == pinned + Runs(init) + [Run(cycles[|cycles| - 1])];
    }
  }

  /**
    Exactly when a lock is given up: never while pinned; otherwise in the cycle whose frame is the
    fifth mismatch since the last agreement, or the tenth suppressed frame on end, under this lock.
  */
  lemma LockIsReleased(commands: seq<Command>, c: Cycle)
    requires After(commands).locked.Some?
    ensures var s := After(commands);
            var frames := SinceLock(commands + [Run(c)]);
            Decode(s, c).locked.None? <==>
              && s.pinned.None? && c.viz.Some?
              && (OpenMismatches(frames, s.locked.value) == 5 || TrailingSuppressed(frames) == 10)
  {
    var s, frames := After(commands), SinceLock(commands);
    RunsAreConsistent(commands);
    assert (commands + [Run(c)])[..|commands|] == commands;
    if c.viz.Some? {
      assert (frames + [c.viz.value])[..|frames|] == frames;
    }
  }

  // ---------------------------------------------------------------------
  // What the counts mean
  // ---------------------------------------------------------------------

  /**
    Only a frame with ten elements, not suppressed, whose centroid reads above 5 says anything of
    the speed: that it is more than 5 away from the lock, or that it is not.
  */
  lemma EvidenceExactly(v: Viz, locked: real)
    ensures Mismatches(v, locked) || Agrees(v, locked) <==> v.elements >= 10 && !v.suppressed && 0.0 < v.centroidDot < 0.24
    ensures Mismatches(v, locked) ==>
              v.centroidDot > 0.0 && (1.2 / v.centroidDot < locked - 5.0 || 1.2 / v.centroidDot > locked + 5.0)
    ensures Agrees(v, locked) ==> v.centroidDot > 0.0 && locked - 5.0 <= 1.2 / v.centroidDot <= locked + 5.0
  {
    if v.centroidDot > 0.0 {
      Scaled(v.centroidDot, 5.0, 1.2 / v.centroidDot);
      assert v.centroidDot * (1.2 / v.centroidDot) == 1.2;
    }
  }

  ghost function CountMismatches(frames: seq<Viz>, locked: real): nat {
    if frames == [] then 0
    else CountMismatches(frames[..|frames| - 1], locked) + if Mismatches(frames[|frames| - 1], locked) then 1 else 0
  }

  /** The open mismatches are those of the longest final stretch without an agreement. */
  lemma {:induction false} OpenMismatchesMeaning(frames: seq<Viz>, locked: real) returns (from: nat)
    ensures from <= |frames|
    ensures forall k :: from <= k < |frames| ==> !Agrees(frames[k], locked)
    ensures from > 0 ==> Agrees(frames[from - 1], locked)
    ensures CountMismatches(frames[from..], locked) == OpenMismatches(frames, locked)
  {
    if frames == [] {
      from := 0;
    } else if Agrees(frames[|frames| - 1], locked) {
      from := |frames|;
      assert frames[from..] == [];
    } else {
      var init := frames[..|frames| - 1];
      from := OpenMismatchesMeaning(init, locked);
      assert frames[from..][..|frames| - 1 - from] == init[from..];
    }
  }

  lemma {:induction false} TrailingSuppressedMeaning(frames: seq<Viz>)
    ensures TrailingSuppressed(frames) <= |frames|
    ensures forall k :: |frames| - TrailingSuppressed(frames) <= k < |frames| ==> frames[k].suppressed
    ensures TrailingSuppressed(frames) < |frames| ==> !frames[|frames| - TrailingSuppressed(frames) - 1].suppressed
  {
    if frames != [] && frames[|frames| - 1].suppressed {
      TrailingSuppressedMeaning(frames[..|frames| - 1]);
    }
  }

  // ---------------------------------------------------------------------
  // Mismatches need not follow on each other
  // ---------------------------------------------------------------------

  const READ_30: Command := Run(Cycle(30.0, 10, None))
  const MISMATCH: Command := Run(Cycle(30.0, 10, Some(Viz(10, false, 0.06))))
  const NO_EVIDENCE: Command := Run(Cycle(30.0, 10, Some(Viz(0, false, 0.06))))

  /** A lock at 30, then n frames at 20, each after a frame with nothing to say. */
  function Interrupted(n: nat): seq<Command> {
    if n == 0 then [READ_30, READ_30] else Interrupted(n - 1) + [NO_EVIDENCE, MISMATCH]
  }

  lemma AfterNext(commands: seq<Command>, c: Cycle)
    ensures After(commands + [Run(c)]) == Decode(After(commands), c)
  {
    assert (commands + [Run(c)])[..|commands|] == commands;
  }

  lemma AfterTwo(commands: seq<Command>, c: Cycle, d: Cycle)
    ensures After(commands + [Run(c), Run(d)]) == Decode(Decode(After(commands), c), d)
  {
    AfterNext(commands, c);
    AfterNext(commands + [Run(c)], d);
    assert commands + [Run(c), Run(d)] == commands + [Run(c)] + [Run(d)];
  }

  lemma CountsOneMore(s: State)
    requires s.locked == Some(30.0) && s.pinned == None && s.suppressed == 0 && s.mismatches < LOCK_RELOCK_AFTER_MISMATCHES
    ensures var s' := Decode(Decode(s, NO_EVIDENCE.c), MISMATCH.c);
            s' == State(if s.mismatches == 4 then None else Some(30.0), None, Some(30.0),
                        if s.mismatches == 4 then 0 else s.mismatches + 1, 0)
  {
    assert 1.2 / 0.06 == 20.0;
  }

  ghost predicate NeverTwoMismatches(commands: seq<Command>) {
    forall k :: 0 < k < |commands| && commands[k] == MISMATCH ==> commands[k - 1] == NO_EVIDENCE
  }

  lemma StillNeverTwo(commands: seq<Command>)
    requires NeverTwoMismatches(commands)
    ensures NeverTwoMismatches(commands + [NO_EVIDENCE, MISMATCH])
  {
    assert NO_EVIDENCE.c.viz != MISMATCH.c.viz;
  }

  /** The lock goes with the fifth mismatch although no two mismatches follow on each other. */
  lemma {:induction false} InterruptedMismatchesRelease(n: nat)
    requires n <= LOCK_RELOCK_AFTER_MISMATCHES
    ensures After(Interrupted(n)).locked == if n == LOCK_RELOCK_AFTER_MISMATCHES then None else Some(30.0)
    ensures n < LOCK_RELOCK_AFTER_MISMATCHES ==> After(Interrupted(n)) == State(Some(30.0), None, Some(30.0), n, 0)
    ensures NeverTwoMismatches(Interrupted(n))
  {
    if n == 0 {
      AfterTwo([], READ_30.c, READ_30.c);
      assert [] + [READ_30, READ_30] == [READ_30, READ_30];
      assert READ_30 != MISMATCH;
    } else {
      InterruptedMismatchesRelease(n - 1);
      StillNeverTwo(Interrupted(n - 1));
      AfterTwo(Interrupted(n - 1), NO_EVIDENCE.c, MISMATCH.c);
      CountsOneMore(After(Interrupted(n - 1)));
    }
  }
}
