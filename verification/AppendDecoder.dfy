/**
  The append-only event decoder: rolling windows re-decode the same audio, and
  each event must be copied exactly once.
*/
module AppendDecoder {
  import opened Arithmetic
  import opened Text
  import opened MorseCode
  import opened Keying

  const EPSILON_SAMPLES: nat := 16
  const U64_MAX: nat := 0xFFFF_FFFF_FFFF_FFFF

  function SaturatingAdd(x: nat, y: nat): nat { if x + y > U64_MAX then U64_MAX else x + y }

  function SaturatingSub(x: nat, y: nat): nat { if x > y then x - y else 0 }

  /** An event of a frame: the end of its stretch, in samples from the start of the window, and its kind. */
  datatype VizEvent = VizEvent(endOffset: nat, kind: Kind)

  datatype VizFrame = VizFrame(sampleRate: nat, windowStart: nat, windowEnd: nat,
                               dotSeconds: real, wpm: real, events: seq<VizEvent>)

  // ---------------------------------------------------------------------
  // One frame, as absolute reports
  // ---------------------------------------------------------------------

  function DotSeconds(f: VizFrame): real {
    if f.dotSeconds > 0.0 then f.dotSeconds else if f.wpm > 0.0 then 1.2 / f.wpm else 0.04
  }

  /** Eight dots, and at least a tenth of a second, behind the window's end nothing is stable yet. */
  function GuardSamples(sampleRate: nat, dot: real): nat {
    var sr := if sampleRate > 1 then sampleRate else 1;
    var seconds := if 8.0 * dot > 0.10 then 8.0 * dot else 0.10;
    var samples := (sr as real * seconds).Floor;
    if samples < 0 then 0 else samples
  }

  function StableEnd(f: VizFrame): nat { SaturatingSub(f.windowEnd, GuardSamples(f.sampleRate, DotSeconds(f))) }

  datatype Report = Report(end: nat, kind: Kind)

  function Reports(f: VizFrame): seq<Report> {
    seq(|f.events|, i requires 0 <= i < |f.events| =>
      Report(SaturatingAdd(f.windowStart, f.events[i].endOffset), f.events[i].kind))
  }

  // ---------------------------------------------------------------------
  // The decoder's state and what one report does to it
  // ---------------------------------------------------------------------

  datatype Log = Log(last: nat, raw: string, copy: Copy)

  const FRESH: Log := Log(0, "", BLANK)

  function RawMark(k: Kind): string {
    match k
    case OnDit => "."
    case OnDah => "-"
    case OffIntra => ""
    case OffChar => "/"
    case OffWord => "//"
  }

  function RawOf(kinds: seq<Kind>): string {
    if kinds == [] then "" else RawOf(kinds[..|kinds| - 1]) + RawMark(kinds[|kinds| - 1])
  }

  /** A report is taken when it is stable and clearly past the last one taken. */
  predicate Taken(log: Log, r: Report, stable: nat) {
    r.end <= stable && r.end > SaturatingAdd(log.last, EPSILON_SAMPLES)
  }

  function Take(log: Log, r: Report, stable: nat): Log {
    if Taken(log, r, stable) then Log(r.end, log.raw + RawMark(r.kind), Step(log.copy, r.kind, AppendChar)) else log
  }

  function TakeAll(log: Log, reports: seq<Report>, stable: nat): Log {
    if reports == [] then log
    else Take(TakeAll(log, reports[..|reports| - 1], stable), reports[|reports| - 1], stable)
  }

  /** A frame whose window is empty is ignored. */
  function Ingest(log: Log, f: VizFrame): Log {
    if f.windowEnd <= f.windowStart then log else TakeAll(log, Reports(f), StableEnd(f))
  }

  /** Some report taken ends a character. */
  function EndsCharacter(log: Log, reports: seq<Report>, stable: nat): bool {
    if reports == [] then false
    else
      var init, r := reports[..|reports| - 1], reports[|reports| - 1];
      EndsCharacter(log, init, stable)
        || (Taken(TakeAll(log, init, stable), r, stable) && (r.kind.OffChar? || r.kind.OffWord?))
  }

  function FlushLog(log: Log): Log { log.(copy := Flush(log.copy, AppendChar)) }

  class AppendEventDecoder {
    var lastEmittedEndSample: nat
    var rawStream: string
    var decodedText: string
    var pendingMorse: string

    constructor ()
      ensures Value() == FRESH
    {
      lastEmittedEndSample, rawStream, decodedText, pendingMorse := 0, "", "", "";
    }

    ghost function Value(): Log
      reads this
    {
      Log(lastEmittedEndSample, rawStream, Copy(decodedText, pendingMorse))
    }

    method IngestViz(viz: VizFrame) returns (changed: bool)
      modifies this
      ensures Value() == Ingest(old(Value()), viz)
      ensures changed <==> viz.windowEnd > viz.windowStart && EndsCharacter(old(Value()), Reports(viz), StableEnd(viz))
      ensures old(rawStream) <= rawStream && (changed <==> '/' in rawStream[|old(rawStream)|..])
    {
      changed := false;
      if viz.windowEnd <= viz.windowStart {
        assert rawStream[|rawStream|..] == "";
        return;
      }
      var stableEnd := StableEnd(viz);
      var reports := Reports(viz);
      ghost var before := Value();
      for i := 0 to |viz.events|
        invariant Value() == TakeAll(before, reports[..i], stableEnd)
        invariant changed <==> EndsCharacter(before, reports[..i], stableEnd)
      {
        assert reports[..i + 1][..i] == reports[..i];
        var eventEnd := SaturatingAdd(viz.windowStart, viz.events[i].endOffset);
        if eventEnd > stableEnd {
          continue;
        }
        if eventEnd <= SaturatingAdd(lastEmittedEndSample, EPSILON_SAMPLES) {
          continue;
        }
        var c := EmitKind(viz.events[i].kind);
        changed := changed || c;
        lastEmittedEndSample := eventEnd;
      }
      assert reports[..|reports|] == reports;
      ChangedMarksRaw(before, reports, stableEnd);
    }

    method EmitKind(kind: Kind) returns (changed: bool)
      modifies this`rawStream, this`decodedText, this`pendingMorse
      ensures Copy(decodedText, pendingMorse) == Step(old(Copy(decodedText, pendingMorse)), kind, AppendChar)
      ensures rawStream == old(rawStream) + RawMark(kind)
      ensures changed <==> kind.OffChar? || kind.OffWord?
    {
      changed := false;
      match kind {
        case OnDit =>
          pendingMorse := pendingMorse + ".";
          rawStream := rawStream + ".";
        case OnDah =>
          pendingMorse := pendingMorse + "-";
          rawStream := rawStream + "-";
        case OffIntra =>
          assert rawStream + "" == rawStream;
        case OffChar =>
          var _ := FlushPendingChar();
          rawStream := rawStream + "/";
          changed := true;
        case OffWord =>
          var _ := FlushPendingChar();
          if !EndsWithSpace(decodedText) && decodedText != "" {
            decodedText := decodedText + " ";
          }
          rawStream := rawStream + "//";
          changed := true;
      }
    }

    method FlushAll() returns (changed: bool)
      modifies this
      ensures Value() == FlushLog(old(Value()))
      ensures lastEmittedEndSample == old(lastEmittedEndSample) && rawStream == old(rawStream)
      ensures IsFlushed(old(Copy(decodedText, pendingMorse)), Copy(decodedText, pendingMorse))
      ensures changed <==> old(pendingMorse) != ""
    {
      changed := FlushPendingChar();
    }

    method FlushPendingChar() returns (changed: bool)
      modifies this`decodedText, this`pendingMorse
      ensures Copy(decodedText, pendingMorse) == Flush(old(Copy(decodedText, pendingMorse)), AppendChar)
      ensures changed <==> old(pendingMorse) != ""
    {
      if pendingMorse == "" {
        return false;
      }
      decodedText := decodedText + [AppendChar(pendingMorse)];
      pendingMorse := "";
      return true;
    }
  }

  // ---------------------------------------------------------------------
  // One event of a frame, in the frame's own fields
  // ---------------------------------------------------------------------

  function FirstEvents(f: VizFrame, n: nat): VizFrame
    requires n <= |f.events|
  {
    f.(events := f.events[..n])
  }

  /** A frame without events, or with an empty window, changes nothing; a frame has all of its own events. */
  lemma NothingToTake(log: Log, f: VizFrame)
    ensures f.windowEnd <= f.windowStart || f.events == [] ==> Ingest(log, f) == log
    ensures FirstEvents(f, |f.events|) == f
  {
  }

  /**
    Event i of a frame, after the events before it: it is taken exactly when it ends
    more than 16 samples past the mark, and more than a tenth of a second and more
    than eight dots, rounded down to whole samples, before the end of the window.
    The dot is the frame's if positive, else that of its speed, else 40 ms.
  */
  lemma EventTaken(log: Log, f: VizFrame, i: nat, end: nat, rate: nat, dot: real)
    requires i < |f.events| && f.windowStart < f.windowEnd
    requires end == Min(f.windowStart + f.events[i].endOffset, 0xFFFF_FFFF_FFFF_FFFF)
    requires rate == f.sampleRate > 0 || (f.sampleRate == 0 && rate == 1)
    requires f.dotSeconds > 0.0 ==> dot == f.dotSeconds
    requires f.dotSeconds <= 0.0 && f.wpm > 0.0 ==> dot == 1.2 / f.wpm
    requires f.dotSeconds <= 0.0 && f.wpm <= 0.0 ==> dot == 0.04
    ensures var before, after := Ingest(log, FirstEvents(f, i)), Ingest(log, FirstEvents(f, i + 1));
            var behind := (f.windowEnd - end) as real;
            if end > before.last + 16 && behind > rate as real * 0.10 - 1.0 && behind > rate as real * (8.0 * dot) - 1.0
            then IsTaken(before, after, end, f.events[i].kind)
            else after == before
  {
    if end > 0 {
      GuardExactly(f, end, rate, dot);
    }
    TakeNextEvent(log, f, i);
    TakeExactly(Ingest(log, FirstEvents(f, i)), Report(end, f.events[i].kind), StableEnd(f));
  }

  lemma TakeNextEvent(log: Log, f: VizFrame, i: nat)
    requires i < |f.events| && f.windowStart < f.windowEnd
    ensures Ingest(log, FirstEvents(f, i + 1)) == Take(Ingest(log, FirstEvents(f, i)), Reports(f)[i], StableEnd(f))
  {
    var reports := Reports(FirstEvents(f, i + 1));
    assert reports[..i] == Reports(FirstEvents(f, i)) && reports[i] == Reports(f)[i];
  }

  /** What taking an event adds to the mark, the raw stream, the text and the elements of the open character. */
  ghost predicate IsTaken(before: Log, after: Log, end: nat, kind: Kind) {
    && after.last == end
    && after.raw == before.raw + (match kind
                                  case OnDit => "."
                                  case OnDah => "-"
                                  case OffIntra => ""
                                  case OffChar => "/"
                                  case OffWord => "//")
    && match kind
       case OnDit => after.copy == before.copy.(pending := before.copy.pending + ".")
       case OnDah => after.copy == before.copy.(pending := before.copy.pending + "-")
       case OffIntra => after.copy == before.copy
       case OffChar => IsFlushed(before.copy, after.copy)
       case OffWord => exists text ::
         && IsFlushed(before.copy, Copy(text, "")) && after.copy.pending == ""
         && after.copy.text == if text == "" || text[|text| - 1] == ' ' then text else text + " "
  }

  /** The open character, if it has elements, has been written: as decoded, or as a question mark. */
  ghost predicate IsFlushed(before: Copy, after: Copy) {
    && after.pending == ""
    && if before.pending == "" then after.text == before.text
       else after.text == before.text + [if MorseToChar(before.pending).Some? then MorseToChar(before.pending).value else '?']
  }

  lemma GuardExactly(f: VizFrame, end: nat, rate: nat, dot: real)
    requires rate == f.sampleRate > 0 || (f.sampleRate == 0 && rate == 1)
    requires dot == DotSeconds(f) && end > 0
    ensures var behind := (f.windowEnd - end) as real;
            end <= StableEnd(f) <==> (behind > rate as real * 0.10 - 1.0 && behind > rate as real * (8.0 * dot) - 1.0)
  {
    var x, y := rate as real * 0.10, rate as real * (8.0 * dot);
    GuardIsLarger(f.sampleRate, rate, dot, x, y);
    BehindBoth(f.windowEnd, end, x, y, GuardSamples(f.sampleRate, dot));
  }

  lemma GuardIsLarger(sampleRate: nat, rate: nat, dot: real, x: real, y: real)
    requires rate == sampleRate > 0 || (sampleRate == 0 && rate == 1)
    requires x == rate as real * 0.10 && y == rate as real * (8.0 * dot)
    ensures x > 0.0 && GuardSamples(sampleRate, dot) == MaxReal(x, y).Floor
  {
    Scaled(rate as real, 0.10, 8.0 * dot);
  }

  lemma BehindBoth(windowEnd: nat, end: nat, x: real, y: real, guard: nat)
    requires end > 0 && x > 0.0 && guard == MaxReal(x, y).Floor
    ensures var behind := (windowEnd - end) as real;
            end <= SaturatingSub(windowEnd, guard) <==> (behind > x - 1.0 && behind > y - 1.0)
  {
    FloorAtMost(MaxReal(x, y), windowEnd - end);
  }

  lemma TakeExactly(log: Log, r: Report, stable: nat)
    requires r.end <= U64_MAX
    ensures if r.end > log.last + 16 && r.end <= stable then IsTaken(log, Take(log, r, stable), r.end, r.kind)
            else Take(log, r, stable) == log
  {
    if r.end > log.last + 16 && r.end <= stable {
      assert log.raw + "" == log.raw;
      var flushed := Flush(log.copy, AppendChar);
      assert IsFlushed(log.copy, Copy(flushed.text, ""));
    }
  }

  /** A frame is reported to change the text exactly when it adds a separator to the raw stream. */
  lemma {:induction false} ChangedMarksRaw(log: Log, reports: seq<Report>, stable: nat)
    ensures log.raw <= TakeAll(log, reports, stable).raw
    ensures EndsCharacter(log, reports, stable) <==> '/' in TakeAll(log, reports, stable).raw[|log.raw|..]
  {
    if reports == [] {
      assert log.raw[|log.raw|..] == "";
    } else {
      var init, r := reports[..|reports| - 1], reports[|reports| - 1];
      ChangedMarksRaw(log, init, stable);
      var mid := TakeAll(log, init, stable);
      MarkAdded(log.raw, mid.raw, if Taken(mid, r, stable) then RawMark(r.kind) else "");
      assert mid.raw + "" == mid.raw;
    }
  }

  lemma MarkAdded(start: string, raw: string, mark: string)
    requires start <= raw
    ensures start <= raw + mark && ('/' in (raw + mark)[|start|..] <==> '/' in raw[|start|..] || '/' in mark)
  {
    assert (raw + mark)[|start|..] == raw[|start|..] + mark;
  }

  // ---------------------------------------------------------------------
  // Feeding a frame again
  // ---------------------------------------------------------------------

  lemma {:induction false} TakeAllAdvances(log: Log, reports: seq<Report>, stable: nat)
    requires forall i :: 0 <= i < |reports| ==> reports[i].end <= U64_MAX
    ensures log.last <= TakeAll(log, reports, stable).last
    ensures forall i :: 0 <= i < |reports| ==> !Taken(TakeAll(log, reports, stable), reports[i], stable)
  {
    if reports != [] {
      TakeAllAdvances(log, reports[..|reports| - 1], stable);
    }
  }

  lemma {:induction false} NothingTaken(log: Log, reports: seq<Report>, stable: nat)
    requires forall i :: 0 <= i < |reports| ==> !Taken(log, reports[i], stable)
    ensures TakeAll(log, reports, stable) == log
  {
    if reports != [] {
      NothingTaken(log, reports[..|reports| - 1], stable);
    }
  }

  function IngestRun(log: Log, frames: seq<VizFrame>): Log {
    if frames == [] then log else Ingest(IngestRun(log, frames[..|frames| - 1]), frames[|frames| - 1])
  }

  lemma {:induction false} RunAdvances(log: Log, frames: seq<VizFrame>, k: nat)
    requires k <= |frames|
    ensures IngestRun(log, frames[..k]).last <= IngestRun(log, frames).last
    decreases |frames|
  {
    if k == |frames| {
      assert frames[..k] == frames;
    } else {
      var init, f := frames[..|frames| - 1], frames[|frames| - 1];
      RunAdvances(log, init, k);
      assert init[..k] == frames[..k];
      TakeAllAdvances(IngestRun(log, init), Reports(f), StableEnd(f));
    }
  }

  /** After any run, from any state, feeding any of its frames again changes nothing at all. */
  lemma ReingestChangesNothing(log: Log, frames: seq<VizFrame>, k: nat)
    requires k < |frames|
    ensures Ingest(IngestRun(log, frames), frames[k]) == IngestRun(log, frames)
  {
    var f, end := frames[k], IngestRun(log, frames);
    RunAdvances(log, frames, k + 1);
    assert frames[..k + 1][..k] == frames[..k];
    if f.windowEnd > f.windowStart {
      TakeAllAdvances(IngestRun(log, frames[..k]), Reports(f), StableEnd(f));
      NothingTaken(end, Reports(f), StableEnd(f));
    }
  }

  // ---------------------------------------------------------------------
  // Exactly once over a whole run
  // ---------------------------------------------------------------------

  /** What really happened: events with the true sample of their ends. */
  datatype Timeline = Timeline(ends: seq<nat>, kinds: seq<Kind>)

  /** Ends lie apart by more than the tolerance and twice the jitter; the jitter is at most half the tolerance. */
  ghost predicate WellSpaced(t: Timeline, jitter: nat) {
    && |t.ends| == |t.kinds|
    && 2 * jitter <= EPSILON_SAMPLES
    && (t.ends != [] ==> t.ends[0] > EPSILON_SAMPLES + jitter)
    && (forall i :: 0 <= i < |t.ends| - 1 ==> t.ends[i + 1] > t.ends[i] + EPSILON_SAMPLES + 2 * jitter)
    && (forall i :: 0 <= i < |t.ends| ==> t.ends[i] + EPSILON_SAMPLES + jitter <= U64_MAX)
  }

  /** The frame reports events lo..hi of the timeline, in order, each end off by at most the jitter. */
  ghost predicate Observes(f: VizFrame, t: Timeline, lo: nat, hi: nat, jitter: nat) {
    && |t.ends| == |t.kinds|
    && f.windowStart < f.windowEnd
    && lo <= hi <= |t.ends|
    && |f.events| == hi - lo
    && forall i :: 0 <= i < hi - lo ==> Near(Reports(f)[i], t.ends[lo + i], t.kinds[lo + i], jitter)
  }

  ghost predicate Near(r: Report, end: nat, kind: Kind, jitter: nat) {
    r.kind == kind && r.end <= end + jitter && end <= r.end + jitter
  }

  /** The state after one left-to-right pass over the first n events. */
  ghost predicate HasCopied(log: Log, t: Timeline, n: nat, jitter: nat) {
    && n <= |t.ends| == |t.kinds|
    && log.raw == RawOf(t.kinds[..n])
    && log.copy == Play(t.kinds[..n], AppendChar)
    && (n == 0 ==> log.last == 0)
    && (n > 0 ==> log.last <= t.ends[n - 1] + jitter && t.ends[n - 1] <= log.last + jitter)
  }

  lemma {:induction false} EndsSpread(t: Timeline, jitter: nat, i: nat, k: nat)
    requires WellSpaced(t, jitter) && i < k < |t.ends|
    ensures t.ends[k] > t.ends[i] + EPSILON_SAMPLES + 2 * jitter
    decreases k
  {
    if i < k - 1 {
      EndsSpread(t, jitter, i, k - 1);
    }
  }

  lemma TakenAlready(log: Log, t: Timeline, n: nat, k: nat, r: Report, jitter: nat, stable: nat)
    requires WellSpaced(t, jitter) && HasCopied(log, t, n, jitter)
    requires k < n && Near(r, t.ends[k], t.kinds[k], jitter)
    ensures !Taken(log, r, stable)
  {
    if k < n - 1 {
      EndsSpread(t, jitter, k, n - 1);
    }
  }

  lemma TakeNext(log: Log, t: Timeline, n: nat, k: nat, r: Report, jitter: nat, stable: nat)
    requires WellSpaced(t, jitter) && HasCopied(log, t, n, jitter)
    requires k < |t.ends| && Near(r, t.ends[k], t.kinds[k], jitter)
    requires r.end <= stable && k <= n
    ensures HasCopied(Take(log, r, stable), t, Max(n, k + 1), jitter)
  {
    if k < n {
      TakenAlready(log, t, n, k, r, jitter, stable);
    } else {
      if n > 0 {
        EndsSpread(t, jitter, n - 1, n);
      }
      assert Taken(log, r, stable);
      assert t.kinds[..n + 1][..n] == t.kinds[..n];
    }
  }

  ghost predicate Reported(reports: seq<Report>, t: Timeline, lo: nat, jitter: nat) {
    && lo + |reports| <= |t.ends| == |t.kinds|
    && forall i :: 0 <= i < |reports| ==> Near(reports[i], t.ends[lo + i], t.kinds[lo + i], jitter)
  }

  /** Before a stable report every report is stable. */
  lemma EarlierIsStable(reports: seq<Report>, t: Timeline, lo: nat, jitter: nat, stable: nat, i: nat, k: nat)
    requires WellSpaced(t, jitter) && Reported(reports, t, lo, jitter)
    requires i <= k < |reports| && reports[k].end <= stable
    ensures reports[i].end <= stable
  {
    if i < k {
      EndsSpread(t, jitter, lo + i, lo + k);
      assert Near(reports[i], t.ends[lo + i], t.kinds[lo + i], jitter);
      assert Near(reports[k], t.ends[lo + k], t.kinds[lo + k], jitter);
    }
  }

  /** The stable reports come first: exactly the first s are stable. */
  ghost predicate StableFirst(reports: seq<Report>, stable: nat, s: nat) {
    s <= |reports| && forall i :: 0 <= i < |reports| ==> (reports[i].end <= stable <==> i < s)
  }

  lemma {:induction false} CountStable(reports: seq<Report>, t: Timeline, lo: nat, jitter: nat, stable: nat) returns (s: nat)
    requires WellSpaced(t, jitter) && Reported(reports, t, lo, jitter)
    ensures StableFirst(reports, stable, s)
  {
    s := 0;
    while s < |reports| && reports[s].end <= stable
      invariant s <= |reports| && forall i :: 0 <= i < s ==> reports[i].end <= stable
    {
      s := s + 1;
    }
    forall k | s <= k < |reports| ensures reports[k].end > stable {
      if reports[k].end <= stable {
        EarlierIsStable(reports, t, lo, jitter, stable, s, k);
      }
    }
  }

  lemma TakeAllNext(log: Log, reports: seq<Report>, stable: nat, i: nat)
    requires i < |reports|
    ensures TakeAll(log, reports[..i + 1], stable) == Take(TakeAll(log, reports[..i], stable), reports[i], stable)
  {
    assert reports[..i + 1][..i] == reports[..i];
  }

  /** How far the copy reaches after the first i reports of a frame, s of all of them stable. */
  ghost function Reached(n: nat, lo: nat, s: nat, i: nat): nat { Max(n, lo + Min(s, i)) }

  lemma TakeReport(log: Log, t: Timeline, n: nat, lo: nat, reports: seq<Report>, jitter: nat, stable: nat, s: nat, i: nat)
    requires WellSpaced(t, jitter) && lo <= n && Reported(reports, t, lo, jitter) && StableFirst(reports, stable, s)
    requires i < |reports| && HasCopied(log, t, Reached(n, lo, s, i), jitter)
    ensures HasCopied(Take(log, reports[i], stable), t, Reached(n, lo, s, i + 1), jitter)
  {
    assert Near(reports[i], t.ends[lo + i], t.kinds[lo + i], jitter);
    if i < s {
      TakeNext(log, t, Reached(n, lo, s, i), lo + i, reports[i], jitter, stable);
    } else {
      assert !Taken(log, reports[i], stable);
    }
  }

  /** One frame: the copy extends to the last of its stable reports. */
  lemma {:induction false} TakeFrame(log: Log, t: Timeline, n: nat, lo: nat, reports: seq<Report>, jitter: nat,
                                     stable: nat, s: nat, i: nat)
    requires WellSpaced(t, jitter) && HasCopied(log, t, n, jitter)
    requires lo <= n && Reported(reports, t, lo, jitter) && StableFirst(reports, stable, s)
    requires i <= |reports|
    ensures HasCopied(TakeAll(log, reports[..i], stable), t, Reached(n, lo, s, i), jitter)
    decreases i
  {
    if i > 0 {
      TakeFrame(log, t, n, lo, reports, jitter, stable, s, i - 1);
      TakeReport(TakeAll(log, reports[..i - 1], stable), t, n, lo, reports, jitter, stable, s, i - 1);
      TakeAllNext(log, reports, stable, i - 1);
    }
  }

  /** One frame of a run, and the slice of the timeline it reports. */
  datatype Sight = Sight(frame: VizFrame, lo: nat, hi: nat)

  ghost predicate SeenStable(s: Sight, k: int) {
    s.lo <= k < s.hi && k - s.lo < |s.frame.events| && Reports(s.frame)[k - s.lo].end <= StableEnd(s.frame)
  }

  ghost predicate EverStable(sights: seq<Sight>, k: int) {
    exists j :: 0 <= j < |sights| && SeenStable(sights[j], k)
  }

  /** No event leaves the window before some frame has shown it stable. */
  ghost predicate NoLoss(sights: seq<Sight>) {
    forall j, k :: 0 <= j < |sights| && 0 <= k < sights[j].lo ==> EverStable(sights[..j], k)
  }

  ghost predicate GoodRun(t: Timeline, jitter: nat, sights: seq<Sight>) {
    && WellSpaced(t, jitter)
    && NoLoss(sights)
    && forall j :: 0 <= j < |sights| ==> Observes(sights[j].frame, t, sights[j].lo, sights[j].hi, jitter)
  }

  ghost function Frames(sights: seq<Sight>): seq<VizFrame> {
    seq(|sights|, j requires 0 <= j < |sights| => sights[j].frame)
  }

  lemma GoodRunPrefix(t: Timeline, jitter: nat, sights: seq<Sight>)
    requires GoodRun(t, jitter, sights) && sights != []
    ensures GoodRun(t, jitter, sights[..|sights| - 1])
    ensures Frames(sights)[..|sights| - 1] == Frames(sights[..|sights| - 1])
  {
    var init := sights[..|sights| - 1];
    forall j, k | 0 <= j < |init| && 0 <= k < init[j].lo ensures EverStable(init[..j], k) {
      assert init[..j] == sights[..j] && init[j] == sights[j];
    }
  }

  /**
    Exactly once: after any good run the decoder's text, raw stream and pending
    elements are those of one pass over a prefix of the timeline, and that prefix
    holds exactly the events that were stable in some frame.
  */
  lemma {:induction false} ExactlyOnce(t: Timeline, jitter: nat, sights: seq<Sight>) returns (n: nat)
    requires GoodRun(t, jitter, sights)
    ensures HasCopied(IngestRun(FRESH, Frames(sights)), t, n, jitter)
    ensures StableUpTo(sights, n)
    decreases |sights|
  {
    if sights == [] {
      n := 0;
      NothingCopied(t, jitter);
    } else {
      var init, s := sights[..|sights| - 1], sights[|sights| - 1];
      GoodRunPrefix(t, jitter, sights);
      var m := ExactlyOnce(t, jitter, init);
      NothingLostYet(sights, m);
      n := OneMoreFrame(IngestRun(FRESH, Frames(init)), t, jitter, sights, m);
    }
  }

  lemma NothingCopied(t: Timeline, jitter: nat)
    requires |t.ends| == |t.kinds|
    ensures HasCopied(IngestRun(FRESH, Frames([])), t, 0, jitter) && StableUpTo([], 0)
  {
    assert t.kinds[..0] == [] && Frames([]) == [];
  }

  /** The events stable in some frame are exactly the first n. */
  ghost predicate StableUpTo(sights: seq<Sight>, n: nat) {
    forall k :: EverStable(sights, k) <==> 0 <= k < n
  }

  lemma OneMoreFrame(log: Log, t: Timeline, jitter: nat, sights: seq<Sight>, m: nat) returns (n: nat)
    requires WellSpaced(t, jitter) && HasCopied(log, t, m, jitter) && sights != []
    requires StableUpTo(sights[..|sights| - 1], m)
    requires var s := sights[|sights| - 1]; Observes(s.frame, t, s.lo, s.hi, jitter) && s.lo <= m
    ensures HasCopied(Ingest(log, sights[|sights| - 1].frame), t, n, jitter)
    ensures StableUpTo(sights, n)
  {
    var s := sights[|sights| - 1];
    var reports, stable := Reports(s.frame), StableEnd(s.frame);
    var p := CountStable(reports, t, s.lo, jitter, stable);
    TakeFrame(log, t, m, s.lo, reports, jitter, stable, p, |reports|);
    assert reports[..|reports|] == reports;
    n := Reached(m, s.lo, p, |reports|);
    SeenStableFirst(s, t, jitter, p);
    StableOneMore(sights, m, p);
  }

  lemma SeenStableFirst(s: Sight, t: Timeline, jitter: nat, p: nat)
    requires Observes(s.frame, t, s.lo, s.hi, jitter) && StableFirst(Reports(s.frame), StableEnd(s.frame), p)
    ensures forall k :: SeenStable(s, k) <==> s.lo <= k < s.lo + p
  {
    forall k
      ensures SeenStable(s, k) <==> s.lo <= k < s.lo + p
    {
      if s.lo <= k < s.hi {
        var i := k - s.lo;
        assert Reports(s.frame)[i].end <= StableEnd(s.frame) <==> i < p;
      }
    }
  }

  lemma StableOneMore(sights: seq<Sight>, m: nat, p: nat)
    requires sights != [] && StableUpTo(sights[..|sights| - 1], m) && sights[|sights| - 1].lo <= m
    requires var s := sights[|sights| - 1]; forall k :: SeenStable(s, k) <==> s.lo <= k < s.lo + p
    ensures StableUpTo(sights, Max(m, sights[|sights| - 1].lo + p))
  {
    forall k
      ensures EverStable(sights, k) <==> 0 <= k < Max(m, sights[|sights| - 1].lo + p)
    {
      EverStableLast(sights, k);
    }
  }

  lemma NothingLostYet(sights: seq<Sight>, m: nat)
    requires NoLoss(sights) && sights != []
    requires StableUpTo(sights[..|sights| - 1], m)
    ensures sights[|sights| - 1].lo <= m
  {
    assert !EverStable(sights[..|sights| - 1], m);
  }

  lemma EverStableLast(sights: seq<Sight>, k: int)
    requires sights != []
    ensures EverStable(sights, k) <==> EverStable(sights[..|sights| - 1], k) || SeenStable(sights[|sights| - 1], k)
  {
    var init := sights[..|sights| - 1];
    if EverStable(init, k) {
      var j :| 0 <= j < |init| && SeenStable(init[j], k);
      assert SeenStable(sights[j], k);
    }
    if EverStable(sights, k) {
      var j :| 0 <= j < |sights| && SeenStable(sights[j], k);
      if j < |init| {
        assert SeenStable(init[j], k);
      }
    }
  }

  // ---------------------------------------------------------------------
  // The jitter bound is sharp
  // ---------------------------------------------------------------------

  /** A window of audio at 1000 Hz from the start, long enough that the one dit in it is stable. */
  function OneDit(end: nat, windowEnd: nat): VizFrame {
    VizFrame(1000, 0, windowEnd, 0.04, 30.0, [VizEvent(end, OnDit)])
  }

  lemma OneDitTaken(log: Log, end: nat, windowEnd: nat)
    requires log.last + EPSILON_SAMPLES < end && end + 320 <= windowEnd <= U64_MAX
    ensures Ingest(log, OneDit(end, windowEnd)) == Log(end, log.raw + ".", Step(log.copy, OnDit, AppendChar))
  {
    var f, r := OneDit(end, windowEnd), Report(end, OnDit);
    GuardOf();
    assert Reports(f) == [r] && [r][..0] == [];
    assert TakeAll(log, [r], StableEnd(f)) == Take(log, r, StableEnd(f));
  }

  lemma GuardOf()
    ensures GuardSamples(1000, 0.04) == 320
  {
    assert 1000.0 * (8.0 * 0.04) == 320.0;
  }

  lemma RunOfTwo(f: VizFrame, g: VizFrame)
    ensures IngestRun(FRESH, [f, g]) == Ingest(Ingest(FRESH, f), g)
  {
    assert [f][..0] == [] && IngestRun(FRESH, []) == FRESH;
    assert IngestRun(FRESH, [f]) == Ingest(FRESH, f);
    assert [f, g][..1] == [f];
  }

  /** Past half the tolerance one event, seen at its two extremes by two frames, is taken twice. */
  lemma JitterBoundIsSharp(jitter: nat)
    requires 2 * jitter > EPSILON_SAMPLES && 3 * jitter + EPSILON_SAMPLES + 321 <= U64_MAX
    ensures var end := EPSILON_SAMPLES + 2 * jitter + 1;
            var t, w := Timeline([end], [OnDit]), end + jitter + 320;
            var early, late := OneDit(end - jitter, w), OneDit(end + jitter, w);
            && Observes(early, t, 0, 1, jitter) && Observes(late, t, 0, 1, jitter)
            && IngestRun(FRESH, [early, late]).raw == ".." && RawOf(t.kinds) == "."
  {
    var end := EPSILON_SAMPLES + 2 * jitter + 1;
    SharpAt(jitter, end, end - jitter, end + jitter, end + jitter + 320);
  }

  lemma SharpAt(jitter: nat, end: nat, first: nat, second: nat, windowEnd: nat)
    requires end == EPSILON_SAMPLES + 2 * jitter + 1 && first == end - jitter && second == end + jitter
    requires EPSILON_SAMPLES < first && first + EPSILON_SAMPLES < second && windowEnd == second + 320 <= U64_MAX
    ensures var t := Timeline([end], [OnDit]);
            && Observes(OneDit(first, windowEnd), t, 0, 1, jitter) && Observes(OneDit(second, windowEnd), t, 0, 1, jitter)
            && IngestRun(FRESH, [OneDit(first, windowEnd), OneDit(second, windowEnd)]).raw == ".." && RawOf(t.kinds) == "."
  {
    OneDitSeen(first, end, windowEnd, jitter);
    OneDitSeen(second, end, windowEnd, jitter);
    TakenTwice(first, second, windowEnd);
    RawOfDit();
  }

  lemma RawOfDit()
    ensures RawOf([OnDit]) == "."
  {
    assert [OnDit][..0] == [] && "" + "." == ".";
  }

  lemma OneDitSeen(seen: nat, end: nat, windowEnd: nat, jitter: nat)
    requires seen <= end + jitter && end <= seen + jitter && seen < windowEnd <= U64_MAX
    ensures Observes(OneDit(seen, windowEnd), Timeline([end], [OnDit]), 0, 1, jitter)
  {
  }

  lemma TakenTwice(early: nat, late: nat, windowEnd: nat)
    requires EPSILON_SAMPLES < early && early + EPSILON_SAMPLES < late && late + 320 <= windowEnd <= U64_MAX
    ensures IngestRun(FRESH, [OneDit(early, windowEnd), OneDit(late, windowEnd)]).raw == ".."
  {
    OneDitTaken(FRESH, early, windowEnd);
    OneDitTaken(Ingest(FRESH, OneDit(early, windowEnd)), late, windowEnd);
    RunOfTwo(OneDit(early, windowEnd), OneDit(late, windowEnd));
    assert "" + "." == "." && "." + "." == "..";
  }
}
