/**
  The live commit cursor: rolling windows are committed at character and word
  gaps only, behind a cursor of absolute samples.
*/
module CommitCursor {
  import opened Arithmetic
  import opened Wrappers
  import opened Text
  import opened MorseCode
  import opened Keying

  const EPSILON_SAMPLES: nat := 32

  /** A classified stretch, in samples from the start of its window. */
  datatype VizEvent = VizEvent(startOffset: nat, endOffset: nat, kind: Kind)

  datatype VizFrame = VizFrame(sampleRate: nat, windowStart: nat, windowEnd: nat, snrSuppressed: bool,
                               lockedWpm: Option<real>, dotSeconds: real, wpm: real, events: seq<VizEvent>)

  function DotSeconds(f: VizFrame): real {
    if f.dotSeconds > 0.0 then f.dotSeconds else if f.wpm > 0.0 then 1.2 / f.wpm else 0.06
  }

  function Samples(sampleRate: nat, seconds: real): nat {
    var n := ((if sampleRate > 1 then sampleRate else 1) as real * seconds).Floor;
    if n < 0 then 0 else n
  }

  function TrailingGuardSeconds(dot: real, decodeEvery: real): real {
    MaxReal(0.50, MaxReal(8.0 * MaxReal(dot, 0.001), 2.0 * decodeEvery))
  }

  function LeadingGuardSeconds(dot: real): real { MaxReal(0.10, 2.0 * MaxReal(dot, 0.001)) }

  function SafeStart(f: VizFrame): nat { f.windowStart + Samples(f.sampleRate, LeadingGuardSeconds(DotSeconds(f))) }

  function SafeEnd(f: VizFrame, decodeEvery: real): nat {
    var guard := Samples(f.sampleRate, TrailingGuardSeconds(DotSeconds(f), decodeEvery));
    if f.windowEnd > guard then f.windowEnd - guard else 0
  }

  datatype Report = Report(start: nat, end: nat, kind: Kind)

  function Reports(f: VizFrame): seq<Report> {
    seq(|f.events|, i requires 0 <= i < |f.events| =>
      var e := f.events[i];
      Report(f.windowStart + e.startOffset,
             f.windowStart + (if e.endOffset >= e.startOffset then e.endOffset else e.startOffset), e.kind))
  }

  /** Only a locked, unsuppressed frame with audio in it moves the cursor. */
  predicate Gated(f: VizFrame) {
    f.windowEnd <= f.windowStart || f.snrSuppressed || f.lockedWpm.None?
  }

  // ---------------------------------------------------------------------
  // The cursor as a value
  // ---------------------------------------------------------------------

  datatype Cursor = Cursor(until: nat, text: string, pending: string, initialized: bool)

  /** The longest text is kept to four fifths of the cap, from a token start on if there is one. */
  function Cap(text: string, maxChars: nat): string {
    if |text| <= maxChars then text
    else
      var cut := |text| - maxChars * 4 / 5;
      AfterWhitespace(text, cut)
  }

  function AfterWhitespace(text: string, cut: nat): string
    requires cut <= |text|
  {
    match FindWhitespace(text[cut..])
    case Some(rel) => if cut + rel + 1 <= |text| then text[cut + rel + 1..] else ""
    case None => text[cut..]
  }

  function FindWhitespace(s: string): (r: Option<nat>)
    ensures r.Some? ==> r.value < |s| && IsWhitespace(s[r.value])
    ensures forall i :: 0 <= i < (if r.Some? then r.value else |s|) ==> !IsWhitespace(s[i])
  {
    if s == "" then None
    else if IsWhitespace(s[0]) then Some(0)
    else
      var r := FindWhitespace(s[1..]);
      if r.None? then None else Some(r.value + 1)
  }

  function FlushPending(c: Cursor, maxChars: nat): Cursor {
    if c.pending == "" then c
    else
      match MorseToChar(c.pending)
      case Some(ch) => c.(text := Cap(c.text + [ch], maxChars), pending := "")
      case None => c.(pending := "")
  }

  function AddSpace(c: Cursor, maxChars: nat): Cursor {
    if EndsWithSpace(c.text) then c else c.(text := Cap(c.text + " ", maxChars))
  }

  /** The window of a frame within which its events count. */
  datatype Bounds = Bounds(cursorStart: nat, safeStart: nat, safeEnd: nat)

  predicate Counts(c: Cursor, r: Report, b: Bounds) {
    && r.end > b.cursorStart + EPSILON_SAMPLES
    && b.safeStart <= r.start && r.end <= b.safeEnd
    && r.start + EPSILON_SAMPLES >= c.until
  }

  /** What an event adds; an unknown code is dropped. */
  function Read(c: Cursor, k: Kind, maxChars: nat): Cursor {
    match k
    case OnDit => c.(pending := c.pending + ".")
    case OnDah => c.(pending := c.pending + "-")
    case OffIntra => c
    case OffChar => FlushPending(c, maxChars)
    case OffWord => AddSpace(FlushPending(c, maxChars), maxChars)
  }

  predicate EndsLetter(k: Kind) { k.OffChar? || k.OffWord? }

  function Play1(c: Cursor, r: Report, b: Bounds, maxChars: nat): Cursor {
    if !Counts(c, r, b) then c
    else
      var read := Read(c, r.kind, maxChars);
      if EndsLetter(r.kind) then read.(until := r.end) else read
  }

  function PlayAll(c: Cursor, reports: seq<Report>, b: Bounds, maxChars: nat): Cursor {
    if reports == [] then c
    else Play1(PlayAll(c, reports[..|reports| - 1], b, maxChars), reports[|reports| - 1], b, maxChars)
  }

  /** Before the events: the first frame places the cursor, and audio lost from the window is skipped. */
  function Placed(c: Cursor, f: VizFrame): Cursor {
    var s := SafeStart(f);
    var c := if c.initialized then c else c.(until := s, initialized := true);
    if c.until + EPSILON_SAMPLES < s then c.(until := s, pending := "") else c
  }

  function BoundsOf(c: Cursor, f: VizFrame, decodeEvery: real): Bounds {
    Bounds(c.until, SafeStart(f), SafeEnd(f, decodeEvery))
  }

  function Update(c: Cursor, f: VizFrame, decodeEvery: real, maxChars: nat): Cursor {
    if Gated(f) then c
    else
      var p := Placed(c, f);
      PlayAll(p, Reports(f), BoundsOf(p, f, decodeEvery), maxChars)
  }

  class LiveCommitCursor {
    var committedUntilSample: nat
    var committedText: string
    var pendingMorse: string
    var initialized: bool
    const maxChars: nat

    constructor (maxChars0: nat)
      ensures maxChars == if maxChars0 > 256 then maxChars0 else 256
      ensures Value() == Cursor(0, "", "", false)
    {
      committedUntilSample, committedText, pendingMorse, initialized := 0, "", "", false;
      maxChars := if maxChars0 > 256 then maxChars0 else 256;
    }

    ghost function Value(): Cursor
      reads this
    {
      Cursor(committedUntilSample, committedText, pendingMorse, initialized)
    }

    method ResetAll()
      modifies this
      ensures Value() == Cursor(0, "", "", false)
    {
      committedUntilSample, committedText, pendingMorse, initialized := 0, "", "", false;
    }

    method OnLockLost()
      modifies this`pendingMorse
      ensures Value() == old(Value()).(pending := "")
    {
      pendingMorse := "";
    }

    method UpdateFromViz(viz: VizFrame, decodeEvery: real) returns (gap: Option<(nat, nat)>)
      modifies this
      ensures Value() == Update(old(Value()), viz, decodeEvery, maxChars)
      ensures gap.Some? <==> !Gated(viz) && old(initialized)
                             && old(committedUntilSample) + EPSILON_SAMPLES < SafeStart(viz)
      ensures gap.Some? ==> gap.value == (old(committedUntilSample), SafeStart(viz))
    {
      gap := None;
      if viz.windowEnd <= viz.windowStart {
        return;
      }
      if viz.snrSuppressed || viz.lockedWpm.None? {
        return;
      }
      var safeStart, safeEnd := SafeStart(viz), SafeEnd(viz, decodeEvery);
      if !initialized {
        committedUntilSample := safeStart;
        initialized := true;
      }
      if committedUntilSample + EPSILON_SAMPLES < safeStart {
        gap := Some((committedUntilSample, safeStart));
        pendingMorse := "";
        committedUntilSample := safeStart;
      }
      var bounds := Bounds(committedUntilSample, safeStart, safeEnd);
      var reports := Reports(viz);
      ghost var placed := Value();
      for i := 0 to |reports|
        invariant Value() == PlayAll(placed, reports[..i], bounds, maxChars)
      {
        assert reports[..i + 1][..i] == reports[..i];
        var r := reports[i];
        if r.end <= bounds.cursorStart + EPSILON_SAMPLES {
          continue;
        }
        if r.start < safeStart || r.end > safeEnd {
          continue;
        }
        if r.start + EPSILON_SAMPLES < committedUntilSample {
          continue;
        }
        match r.kind {
          case OnDit => pendingMorse := pendingMorse + ".";
          case OnDah => pendingMorse := pendingMorse + "-";
          case OffIntra =>
          case OffChar =>
            FlushPendingChar();
            committedUntilSample := r.end;
          case OffWord =>
            FlushPendingChar();
            AppendWordSpace();
            committedUntilSample := r.end;
        }
      }
      assert reports[..|reports|] == reports;
    }

    method FlushPendingChar()
      modifies this`committedText, this`pendingMorse
      ensures Value() == FlushPending(old(Value()), maxChars)
    {
      if pendingMorse == "" {
        return;
      }
      match MorseToChar(pendingMorse) {
        case Some(c) =>
          committedText := committedText + [c];
          CapCommitted();
        case None =>
      }
      pendingMorse := "";
    }

    method AppendWordSpace()
      modifies this`committedText
      ensures Value() == AddSpace(old(Value()), maxChars)
    {
      if !EndsWithSpace(committedText) {
        committedText := committedText + " ";
        CapCommitted();
      }
    }

    method CapCommitted()
      modifies this`committedText
      ensures committedText == Cap(old(committedText), maxChars)
    {
      if |committedText| <= maxChars {
        return;
      }
      var cut := |committedText| - maxChars * 4 / 5;
      match FindWhitespace(committedText[cut..]) {
        case Some(rel) => cut := cut + rel + 1;
        case None =>
      }
      committedText := committedText[cut..];
    }
  }

  // ---------------------------------------------------------------------
  // One frame and one event of it, in the frame's own fields
  // ---------------------------------------------------------------------

  /** The cap: four fifths are kept, less what precedes and includes the first whitespace in them. */
  lemma CapExactly(text: string, maxChars: nat)
    ensures |text| <= maxChars ==> Cap(text, maxChars) == text
    ensures |text| > maxChars ==>
              var tail := text[|text| - maxChars * 4 / 5..];
              || (Cap(text, maxChars) == tail && forall i :: 0 <= i < |tail| ==> !IsWhitespace(tail[i]))
              || (exists k :: 0 <= k < |tail| && FirstWhitespace(tail, k) && Cap(text, maxChars) == tail[k + 1..])
  {
    if |text| > maxChars {
      var tail := text[|text| - maxChars * 4 / 5..];
      var r := FindWhitespace(tail);
      assert r.Some? ==> FirstWhitespace(tail, r.value);
    }
  }

  ghost predicate FirstWhitespace(s: string, k: nat) {
    k < |s| && IsWhitespace(s[k]) && forall i :: 0 <= i < k ==> !IsWhitespace(s[i])
  }

  /** A suppressed frame, one without a speed lock and one with an empty window change nothing. */
  lemma GatedFrameChangesNothing(c: Cursor, f: VizFrame, decodeEvery: real, maxChars: nat)
    requires f.snrSuppressed || f.lockedWpm.None? || f.windowEnd <= f.windowStart
    ensures Update(c, f, decodeEvery, maxChars) == c
  {
  }

  function FirstEvents(f: VizFrame, n: nat): VizFrame
    requires n <= |f.events|
  {
    f.(events := f.events[..n])
  }

  /**
    The first sample of a window past its leading guard: the window's start and the
    larger of a tenth of a second and two dots, rounded down to whole samples.
    The dot is the frame's if positive, else that of its speed, else 60 ms.
  */
  ghost predicate StartsSafe(f: VizFrame, rate: nat, dot: real, safe: nat) {
    && (rate == f.sampleRate > 0 || (f.sampleRate == 0 && rate == 1))
    && (f.dotSeconds > 0.0 ==> dot == f.dotSeconds)
    && (f.dotSeconds <= 0.0 && f.wpm > 0.0 ==> dot == 1.2 / f.wpm)
    && (f.dotSeconds <= 0.0 && f.wpm <= 0.0 ==> dot == 0.06)
    && var ahead := (safe - f.windowStart) as real;
       && ahead > rate as real * 0.10 - 1.0 && ahead > rate as real * (2.0 * dot) - 1.0
       && (ahead <= rate as real * 0.10 || ahead <= rate as real * (2.0 * dot))
  }

  /** Before its events a frame that is not gated places the cursor, and drops an open character that was left behind. */
  lemma FramePlaces(c: Cursor, f: VizFrame, decodeEvery: real, maxChars: nat, rate: nat, dot: real, safe: nat)
    requires !f.snrSuppressed && f.lockedWpm.Some? && f.windowStart < f.windowEnd
    requires StartsSafe(f, rate, dot, safe)
    ensures FirstEvents(f, |f.events|) == f
    ensures var placed := Update(c, FirstEvents(f, 0), decodeEvery, maxChars);
            && placed.initialized && placed.text == c.text
            && (!c.initialized ==> placed.until == safe && placed.pending == c.pending)
            && (c.initialized && c.until + 32 < safe ==> placed.until == safe && placed.pending == "")
            && (c.initialized && c.until + 32 >= safe ==> placed == c)
  {
    SafeStartExactly(f, rate, dot, safe);
  }

  /** So after any such frame the cursor is set, and no further behind than the tolerance. */
  lemma FrameReaches(c: Cursor, f: VizFrame, decodeEvery: real, maxChars: nat, rate: nat, dot: real, safe: nat)
    requires !f.snrSuppressed && f.lockedWpm.Some? && f.windowStart < f.windowEnd
    requires StartsSafe(f, rate, dot, safe)
    ensures var c' := Update(c, f, decodeEvery, maxChars); c'.initialized && c'.until + 32 >= safe
  {
    SafeStartExactly(f, rate, dot, safe);
    var p := Placed(c, f);
    var _ := PlayAllGrows(p, Reports(f), BoundsOf(p, f, decodeEvery), maxChars);
  }

  /**
    Event i of a frame that is not gated, after the events before it: it is read exactly
    when it ends more than 32 samples past where the frame placed the cursor, starts in
    the safe interior and no more than 32 samples before the cursor, and ends before the
    end of the window by the largest of half a second, eight dots and two decode
    intervals, each rounded down to whole samples.
  */
  lemma EventRead(c: Cursor, f: VizFrame, i: nat, decodeEvery: real, maxChars: nat, rate: nat, dot: real, safe: nat)
    requires !f.snrSuppressed && f.lockedWpm.Some? && f.windowStart < f.windowEnd && i < |f.events|
    requires StartsSafe(f, rate, dot, safe)
    ensures var before := Update(c, FirstEvents(f, i), decodeEvery, maxChars);
            var after := Update(c, FirstEvents(f, i + 1), decodeEvery, maxChars);
            var start := f.windowStart + f.events[i].startOffset;
            var end := f.windowStart + Max(f.events[i].startOffset, f.events[i].endOffset);
            var behind := (f.windowEnd - end) as real;
            if && end > Update(c, FirstEvents(f, 0), decodeEvery, maxChars).until + 32
               && start >= safe && start + 32 >= before.until
               && behind > rate as real * 0.50 - 1.0 && behind > rate as real * (8.0 * dot) - 1.0
               && behind > rate as real * (2.0 * decodeEvery) - 1.0
            then IsRead(before, after, end, f.events[i].kind, maxChars)
            else after == before
  {
    var p, r := Placed(c, f), Reports(f)[i];
    SafeStartExactly(f, rate, dot, safe);
    if r.end > 0 {
      SafeEndExactly(f, decodeEvery, rate, dot, r.end);
    }
    PlayNextEvent(c, f, i, decodeEvery, maxChars);
    PlacedFirst(c, f, decodeEvery, maxChars);
    ReadExactly(Update(c, FirstEvents(f, i), decodeEvery, maxChars), r, BoundsOf(p, f, decodeEvery), maxChars);
  }

  lemma PlacedFirst(c: Cursor, f: VizFrame, decodeEvery: real, maxChars: nat)
    requires !Gated(f)
    ensures Update(c, FirstEvents(f, 0), decodeEvery, maxChars) == Placed(c, f)
  {
  }

  /** What reading an event does to the cursor, the text and the elements of the open character. */
  ghost predicate IsRead(before: Cursor, after: Cursor, end: nat, kind: Kind, maxChars: nat) {
    match kind
    case OnDit => after == before.(pending := before.pending + ".")
    case OnDah => after == before.(pending := before.pending + "-")
    case OffIntra => after == before
    case OffChar => after == Cursor(end, after.text, "", before.initialized) && IsFlushed(before, after.text, maxChars)
    case OffWord =>
      && after == Cursor(end, after.text, "", before.initialized)
      && exists text :: IsFlushed(before, text, maxChars)
           && after.text == if text != "" && text[|text| - 1] == ' ' then text else Cap(text + " ", maxChars)
  }

  /** The open character has been written if its code is known; an unknown code is dropped. */
  ghost predicate IsFlushed(before: Cursor, text: string, maxChars: nat) {
    text == if before.pending != "" && MorseToChar(before.pending).Some?
            then Cap(before.text + [MorseToChar(before.pending).value], maxChars) else before.text
  }

  lemma SafeStartExactly(f: VizFrame, rate: nat, dot: real, safe: nat)
    requires StartsSafe(f, rate, dot, safe)
    ensures SafeStart(f) == safe
  {
    var x, y := rate as real * 0.10, rate as real * (2.0 * dot);
    LeadingIsLarger(f.sampleRate, rate, dot, x, y);
    FloorIs(x, y, safe - f.windowStart);
  }

  lemma SamplesAre(sampleRate: nat, rate: nat, seconds: real, x: real)
    requires (rate == sampleRate > 0 || (sampleRate == 0 && rate == 1)) && seconds > 0.0 && x == rate as real * seconds
    ensures x > 0.0 && Samples(sampleRate, seconds) == x.Floor
  {
    PositiveProduct(rate as real, seconds);
  }

  lemma LeadingIsLarger(sampleRate: nat, rate: nat, dot: real, x: real, y: real)
    requires (rate == sampleRate > 0 || (sampleRate == 0 && rate == 1)) && dot > 0.0
    requires x == rate as real * 0.10 && y == rate as real * (2.0 * dot)
    ensures Samples(sampleRate, LeadingGuardSeconds(dot)) == MaxReal(x, y).Floor
  {
    ScaledMax(rate as real, 0.10, 2.0 * dot);
    LeadingSeconds(dot);
    SamplesAre(sampleRate, rate, LeadingGuardSeconds(dot), MaxReal(x, y));
  }

  lemma LeadingSeconds(dot: real)
    requires dot > 0.0
    ensures LeadingGuardSeconds(dot) == MaxReal(0.10, 2.0 * dot) > 0.0
  {
  }

  lemma FloorIs(x: real, y: real, n: int)
    requires n as real > x - 1.0 && n as real > y - 1.0 && (n as real <= x || n as real <= y)
    ensures MaxReal(x, y).Floor == n
  {
  }

  lemma SafeEndExactly(f: VizFrame, decodeEvery: real, rate: nat, dot: real, end: nat)
    requires (rate == f.sampleRate > 0 || (f.sampleRate == 0 && rate == 1)) && dot == DotSeconds(f) > 0.0 && end > 0
    ensures var behind := (f.windowEnd - end) as real;
            end <= SafeEnd(f, decodeEvery) <==>
              (&& behind > rate as real * 0.50 - 1.0 && behind > rate as real * (8.0 * dot) - 1.0
               && behind > rate as real * (2.0 * decodeEvery) - 1.0)
  {
    var x, y, z := rate as real * 0.50, rate as real * (8.0 * dot), rate as real * (2.0 * decodeEvery);
    TrailingIsLargest(f.sampleRate, rate, dot, decodeEvery, x, y, z);
    FloorAtMost(MaxReal(x, MaxReal(y, z)), f.windowEnd - end);
  }

  lemma TrailingIsLargest(sampleRate: nat, rate: nat, dot: real, decodeEvery: real, x: real, y: real, z: real)
    requires (rate == sampleRate > 0 || (sampleRate == 0 && rate == 1)) && dot > 0.0
    requires x == rate as real * 0.50 && y == rate as real * (8.0 * dot) && z == rate as real * (2.0 * decodeEvery)
    ensures MaxReal(x, MaxReal(y, z)) > 0.0
    ensures Samples(sampleRate, TrailingGuardSeconds(dot, decodeEvery)) == MaxReal(x, MaxReal(y, z)).Floor
  {
    TrailingSeconds(dot, decodeEvery);
    ScaledMaxOfThree(rate as real, 0.50, 8.0 * dot, 2.0 * decodeEvery, x, y, z);
    SamplesAre(sampleRate, rate, TrailingGuardSeconds(dot, decodeEvery), MaxReal(x, MaxReal(y, z)));
  }

  lemma ScaledMaxOfThree(n: real, a: real, b: real, c: real, x: real, y: real, z: real)
    requires n > 0.0 && x == n * a && y == n * b && z == n * c
    ensures n * MaxReal(a, MaxReal(b, c)) == MaxReal(x, MaxReal(y, z))
  {
    ScaledMax(n, b, c);
    ScaledMax(n, a, MaxReal(b, c));
  }

  lemma TrailingSeconds(dot: real, decodeEvery: real)
    requires dot > 0.0
    ensures TrailingGuardSeconds(dot, decodeEvery) == MaxReal(0.50, MaxReal(8.0 * dot, 2.0 * decodeEvery)) > 0.0
  {
  }

  lemma PlayNextEvent(c: Cursor, f: VizFrame, i: nat, decodeEvery: real, maxChars: nat)
    requires !Gated(f) && i < |f.events|
    ensures var b, before := BoundsOf(Placed(c, f), f, decodeEvery), Update(c, FirstEvents(f, i), decodeEvery, maxChars);
            Update(c, FirstEvents(f, i + 1), decodeEvery, maxChars) == Play1(before, Reports(f)[i], b, maxChars)
  {
    var reports := Reports(FirstEvents(f, i + 1));
    assert reports[..i] == Reports(FirstEvents(f, i)) && reports[i] == Reports(f)[i];
  }

  lemma ReadExactly(c: Cursor, r: Report, b: Bounds, maxChars: nat)
    ensures if Counts(c, r, b) then IsRead(c, Play1(c, r, b, maxChars), r.end, r.kind, maxChars)
            else Play1(c, r, b, maxChars) == c
  {
    assert IsFlushed(c, FlushPending(c, maxChars).text, maxChars);
  }

  // ---------------------------------------------------------------------
  // Whole runs: the cursor only advances, the text only grows up to the cap
  // ---------------------------------------------------------------------

  ghost predicate SuffixOf(s: string, t: string) {
    |s| <= |t| && s == t[|t| - |s|..]
  }

  /** The cap keeps a suffix, within the limit, and drops nothing while the text fits. */
  lemma CapKeepsSuffix(text: string, maxChars: nat)
    ensures SuffixOf(Cap(text, maxChars), text) && |Cap(text, maxChars)| <= maxChars
    ensures |text| <= maxChars ==> Cap(text, maxChars) == text
  {
  }

  /** From one text to a later one: added was appended, and of the whole a suffix was kept. */
  ghost predicate Grows(text: string, text': string, added: string, maxChars: nat) {
    && SuffixOf(text', text + added)
    && (|text| <= maxChars ==> |text'| <= maxChars)
    && (|text + added| <= maxChars ==> text' == text + added)
  }

  lemma GrowsOn(t0: string, t1: string, t2: string, a: string, b: string, maxChars: nat)
    requires Grows(t0, t1, a, maxChars) && Grows(t1, t2, b, maxChars)
    ensures Grows(t0, t2, a + b, maxChars)
  {
    assert t0 + (a + b) == t0 + a + b;
    var whole, kept := t0 + a + b, t1 + b;
    assert kept == whole[|whole| - |kept|..];
    assert whole[|whole| - |kept|..][|kept| - |t2|..] == whole[|whole| - |t2|..];
  }

  lemma GrowsNot(text: string, maxChars: nat)
    ensures Grows(text, text, "", maxChars)
  {
    assert text + "" == text;
  }

  lemma FlushGrows(c: Cursor, maxChars: nat) returns (added: string)
    ensures Grows(c.text, FlushPending(c, maxChars).text, added, maxChars)
  {
    added := "";
    GrowsNot(c.text, maxChars);
    if c.pending != "" && MorseToChar(c.pending).Some? {
      added := [MorseToChar(c.pending).value];
      CapKeepsSuffix(c.text + added, maxChars);
    }
  }

  lemma PlayOneGrows(c: Cursor, r: Report, b: Bounds, maxChars: nat) returns (added: string)
    ensures Grows(c.text, Play1(c, r, b, maxChars).text, added, maxChars)
  {
    added := "";
    GrowsNot(c.text, maxChars);
    if Counts(c, r, b) && (r.kind.OffChar? || r.kind.OffWord?) {
      var flushed := FlushPending(c, maxChars);
      added := FlushGrows(c, maxChars);
      if r.kind.OffWord? && !EndsWithSpace(flushed.text) {
        CapKeepsSuffix(flushed.text + " ", maxChars);
        GrowsOn(c.text, flushed.text, AddSpace(flushed, maxChars).text, added, " ", maxChars);
        added := added + " ";
      }
    }
  }

  lemma {:induction false} PlayAllGrows(c: Cursor, reports: seq<Report>, b: Bounds, maxChars: nat) returns (added: string)
    requires c.until >= b.cursorStart
    ensures PlayAll(c, reports, b, maxChars).until >= b.cursorStart
    ensures PlayAll(c, reports, b, maxChars).initialized == c.initialized
    ensures Grows(c.text, PlayAll(c, reports, b, maxChars).text, added, maxChars)
  {
    if reports == [] {
      GrowsNot(c.text, maxChars);
      return "";
    }
    var init := PlayAll(c, reports[..|reports| - 1], b, maxChars);
    var before := PlayAllGrows(c, reports[..|reports| - 1], b, maxChars);
    var last := PlayOneGrows(init, reports[|reports| - 1], b, maxChars);
    GrowsOn(c.text, init.text, PlayAll(c, reports, b, maxChars).text, before, last, maxChars);
    added := before + last;
  }

  /** True of a new or reset cursor, and kept by every frame. */
  ghost predicate Sound(c: Cursor) { c.initialized || c.until == 0 }

  lemma UpdateGrows(c: Cursor, f: VizFrame, decodeEvery: real, maxChars: nat) returns (added: string)
    requires Sound(c)
    ensures Sound(Update(c, f, decodeEvery, maxChars))
    ensures c.until <= Update(c, f, decodeEvery, maxChars).until
    ensures Grows(c.text, Update(c, f, decodeEvery, maxChars).text, added, maxChars)
    ensures Gated(f) ==> Update(c, f, decodeEvery, maxChars) == c
  {
    if Gated(f) {
      GrowsNot(c.text, maxChars);
      added := "";
    } else {
      var p := Placed(c, f);
      added := PlayAllGrows(p, Reports(f), BoundsOf(p, f, decodeEvery), maxChars);
    }
  }

  /** What happens to a cursor short of a reset: a frame, or the loss of the lock. */
  datatype Event = Frame(f: VizFrame, decodeEvery: real) | LockLost

  function Apply(c: Cursor, e: Event, maxChars: nat): Cursor {
    match e
    case Frame(f, decodeEvery) => Update(c, f, decodeEvery, maxChars)
    case LockLost => c.(pending := "")
  }

  function Run(c: Cursor, events: seq<Event>, maxChars: nat): Cursor {
    if events == [] then c else Apply(Run(c, events[..|events| - 1], maxChars), events[|events| - 1], maxChars)
  }

  /**
    Over any run without a reset the cursor never moves back, the committed text is
    a suffix of an append-only history, all of it while it fits, and it never passes the cap.
  */
  lemma {:induction false} RunGrows(c: Cursor, events: seq<Event>, maxChars: nat, k: nat) returns (added: string)
    requires Sound(c) && k <= |events|
    ensures Sound(Run(c, events, maxChars))
    ensures Run(c, events[..k], maxChars).until <= Run(c, events, maxChars).until
    ensures Grows(Run(c, events[..k], maxChars).text, Run(c, events, maxChars).text, added, maxChars)
    decreases |events|
  {
    if k == |events| {
      assert events[..k] == events;
      GrowsNot(Run(c, events, maxChars).text, maxChars);
      RunSound(c, events, maxChars);
      return "";
    }
    var init, e := events[..|events| - 1], events[|events| - 1];
    var before := RunGrows(c, init, maxChars, k);
    assert init[..k] == events[..k];
    var mid := Run(c, init, maxChars);
    var last := "";
    match e {
      case Frame(f, decodeEvery) => last := UpdateGrows(mid, f, decodeEvery, maxChars);
      case LockLost => GrowsNot(mid.text, maxChars);
    }
    GrowsOn(Run(c, events[..k], maxChars).text, mid.text, Run(c, events, maxChars).text, before, last, maxChars);
    added := before + last;
  }

  lemma {:induction false} RunSound(c: Cursor, events: seq<Event>, maxChars: nat)
    requires Sound(c)
    ensures Sound(Run(c, events, maxChars))
  {
    if events != [] {
      RunSound(c, events[..|events| - 1], maxChars);
      match events[|events| - 1] {
        case Frame(f, decodeEvery) =>
          var _ := UpdateGrows(Run(c, events[..|events| - 1], maxChars), f, decodeEvery, maxChars);
        case LockLost =>
      }
    }
  }

  /** A frame that is suppressed, without a lock, or empty. */
  predicate IsIdle(e: Event) {
    e.Frame? && (e.f.snrSuppressed || e.f.lockedWpm.None? || e.f.windowEnd <= e.f.windowStart)
  }

  function WithoutIdle(events: seq<Event>): seq<Event> {
    if events == [] then []
    else
      var init, last := WithoutIdle(events[..|events| - 1]), events[|events| - 1];
      if IsIdle(last) then init else init + [last]
  }

  /** A run ends in the same cursor with its suppressed, unlocked and empty frames removed. */
  lemma {:induction false} IdleFramesChangeNothing(c: Cursor, events: seq<Event>, maxChars: nat)
    ensures Run(c, events, maxChars) == Run(c, WithoutIdle(events), maxChars)
    ensures forall e :: e in WithoutIdle(events) <==> e in events && !IsIdle(e)
  {
    if events != [] {
      var init, last := events[..|events| - 1], events[|events| - 1];
      IdleFramesChangeNothing(c, init, maxChars);
      assert events == init + [last];
      if IsIdle(last) {
        GatedFrameChangesNothing(Run(c, init, maxChars), last.f, last.decodeEvery, maxChars);
      } else {
        var live := WithoutIdle(init);
        assert (live + [last])[..|live|] == live;
      }
    }
  }

  // ---------------------------------------------------------------------
  // Feeding a frame again
  // ---------------------------------------------------------------------

  ghost predicate TimeOrdered(reports: seq<Report>) {
    forall i, j :: 0 <= i < j < |reports| ==> reports[i].end <= reports[j].end
  }

  lemma PlayAllNext(c: Cursor, reports: seq<Report>, b: Bounds, maxChars: nat, i: nat)
    requires i < |reports|
    ensures PlayAll(c, reports[..i + 1], b, maxChars) == Play1(PlayAll(c, reports[..i], b, maxChars), reports[i], b, maxChars)
  {
    assert reports[..i + 1][..i] == reports[..i];
  }

  lemma PlayOneMoves(c: Cursor, r: Report, b: Bounds, maxChars: nat)
    ensures Play1(c, r, b, maxChars).until == if Counts(c, r, b) && EndsLetter(r.kind) then r.end else c.until
  {
  }

  /** Within one pass over ordered events the cursor never passes the last event seen nor moves back. */
  lemma {:induction false} CursorFollows(c: Cursor, reports: seq<Report>, b: Bounds, maxChars: nat, i: nat, k: nat)
    requires TimeOrdered(reports) && i <= k <= |reports| && c.until == b.cursorStart
    ensures PlayAll(c, reports[..i], b, maxChars).until <= PlayAll(c, reports[..k], b, maxChars).until
    ensures PlayAll(c, reports[..k], b, maxChars).until == c.until
            || (k > 0 && PlayAll(c, reports[..k], b, maxChars).until <= reports[k - 1].end)
    decreases k
  {
    if k > 0 {
      PlayAllNext(c, reports, b, maxChars, k - 1);
      PlayOneMoves(PlayAll(c, reports[..k - 1], b, maxChars), reports[k - 1], b, maxChars);
      if i < k {
        CursorFollows(c, reports, b, maxChars, i, k - 1);
      } else {
        CursorFollows(c, reports, b, maxChars, k - 1, k - 1);
      }
    }
  }

  /** No gap that would be committed by the frame a second time: it was committed the first time. */
  lemma NoSecondCommit(c: Cursor, reports: seq<Report>, b: Bounds, maxChars: nat, i: nat)
    requires TimeOrdered(reports) && i < |reports| && c.until == b.cursorStart
    requires var c1 := PlayAll(c, reports, b, maxChars); Counts(c1, reports[i], b.(cursorStart := c1.until))
    ensures reports[i].kind.IsOn() || reports[i].kind.OffIntra?
  {
    assert reports[..|reports|] == reports;
    CursorFollows(c, reports, b, maxChars, i, |reports|);
    CursorFollows(c, reports, b, maxChars, 0, i);
    CursorFollows(c, reports, b, maxChars, i + 1, |reports|);
    PlayAllNext(c, reports, b, maxChars, i);
  }

  lemma {:induction false} SecondPass(c1: Cursor, reports: seq<Report>, b: Bounds, maxChars: nat)
    requires forall i :: 0 <= i < |reports| && Counts(c1, reports[i], b) ==> reports[i].kind.IsOn() || reports[i].kind.OffIntra?
    ensures var c2 := PlayAll(c1, reports, b, maxChars);
            && c2 == c1.(pending := c2.pending) && c1.pending <= c2.pending
            && (c2 == c1 <==> forall i :: 0 <= i < |reports| && Counts(c1, reports[i], b) ==> !reports[i].kind.IsOn())
  {
    if reports != [] {
      var init, last := reports[..|reports| - 1], reports[|reports| - 1];
      assert forall i :: 0 <= i < |init| ==> init[i] == reports[i];
      SecondPass(c1, init, b, maxChars);
      var c := PlayAll(c1, init, b, maxChars);
      assert Counts(c, last, b) <==> Counts(c1, last, b);
      assert forall i :: 0 <= i < |reports| ==> i < |init| || reports[i] == last;
    }
  }

  /** The events a second feeding of the frame would still play. */
  ghost predicate StillCounts(c: Cursor, f: VizFrame, decodeEvery: real, r: Report) {
    Counts(c, r, BoundsOf(c, f, decodeEvery))
  }

  /**
    Feeding a frame of time-ordered events a second time changes neither the committed
    text nor the cursor; it changes nothing at all exactly when no element is left
    between the last committed gap and the trailing guard.
  */
  lemma RefeedCommitsNothing(c: Cursor, f: VizFrame, decodeEvery: real, maxChars: nat)
    requires TimeOrdered(Reports(f)) && !Gated(f)
    ensures var c1 := Update(c, f, decodeEvery, maxChars);
            var c2 := Update(c1, f, decodeEvery, maxChars);
            && c2.text == c1.text && c2.until == c1.until
            && (c2 == c1 <==> forall r :: r in Reports(f) && StillCounts(c1, f, decodeEvery, r) ==> !r.kind.IsOn())
  {
    var p := Placed(c, f);
    var b, reports := BoundsOf(p, f, decodeEvery), Reports(f);
    var c1 := PlayAll(p, reports, b, maxChars);
    var _ := PlayAllGrows(p, reports, b, maxChars);
    assert Placed(c1, f) == c1;
    forall i | 0 <= i < |reports| && Counts(c1, reports[i], BoundsOf(c1, f, decodeEvery))
      ensures reports[i].kind.IsOn() || reports[i].kind.OffIntra?
    {
      NoSecondCommit(p, reports, b, maxChars, i);
    }
    SecondPass(c1, reports, BoundsOf(c1, f, decodeEvery), maxChars);
  }

  // ---------------------------------------------------------------------
  // Elements not yet followed by a committed gap are played again
  // ---------------------------------------------------------------------

  const FIRST_WINDOW: VizFrame :=
    VizFrame(1000, 0, 1000, false, Some(30.0), 0.04, 30.0, [VizEvent(200, 240, OnDit)])

  const NEXT_WINDOW: VizFrame :=
    VizFrame(1000, 0, 1250, false, Some(30.0), 0.04, 30.0, [VizEvent(200, 240, OnDit), VizEvent(240, 400, OffChar)])

  lemma ExampleBounds(f: VizFrame)
    requires f == FIRST_WINDOW || f == NEXT_WINDOW
    ensures !Gated(f) && SafeStart(f) == 100 && SafeEnd(f, 0.25) == f.windowEnd - 500
  {
    assert LeadingGuardSeconds(0.04) == 0.10 && TrailingGuardSeconds(0.04, 0.25) == 0.50;
    assert 1000.0 * 0.10 == 100.0 && 1000.0 * 0.50 == 500.0;
  }

  lemma PlayOne(c: Cursor, r: Report, b: Bounds, maxChars: nat)
    ensures PlayAll(c, [r], b, maxChars) == Play1(c, r, b, maxChars)
  {
    assert [r][..0] == [];
  }

  lemma PlayTwo(c: Cursor, r: Report, s: Report, b: Bounds, maxChars: nat)
    ensures PlayAll(c, [r, s], b, maxChars) == Play1(Play1(c, r, b, maxChars), s, b, maxChars)
  {
    assert [r, s][..1] == [r];
    PlayOne(c, r, b, maxChars);
  }

  /** A dit seen by two windows before its gap is committed counts twice: the letter E becomes I. */
  lemma OverlapMisreads()
    ensures var start := Cursor(0, "", "", false);
            && Update(start, NEXT_WINDOW, 0.25, 12_000).text == "E"
            && Update(Update(start, FIRST_WINDOW, 0.25, 12_000), NEXT_WINDOW, 0.25, 12_000).text == "I"
  {
    var start := Cursor(0, "", "", false);
    var placed := Cursor(100, "", "", true);
    var dit, gap := Report(200, 240, OnDit), Report(240, 400, OffChar);
    ExampleBounds(FIRST_WINDOW);
    ExampleBounds(NEXT_WINDOW);
    assert Reports(FIRST_WINDOW) == [dit] && Reports(NEXT_WINDOW) == [dit, gap];
    PlayOne(placed, dit, Bounds(100, 100, 500), 12_000);
    assert "" + "." == ".";
    assert Update(start, FIRST_WINDOW, 0.25, 12_000) == placed.(pending := ".");
    DitThenGap(placed, "");
    DitThenGap(placed.(pending := "."), ".");
  }

  lemma DitThenGap(c: Cursor, pending: string)
    requires c == Cursor(100, "", pending, true) && (pending == "" || pending == ".")
    ensures PlayAll(c, [Report(200, 240, OnDit), Report(240, 400, OffChar)], Bounds(100, 100, 750), 12_000).text
         == if pending == "" then "E" else "I"
  {
    var b, code := Bounds(100, 100, 750), pending + ".";
    PlayTwo(c, Report(200, 240, OnDit), Report(240, 400, OffChar), b, 12_000);
    assert Play1(c, Report(200, 240, OnDit), b, 12_000) == c.(pending := code);
    assert "" + "." == "." && "." + "." == "..";
    FlushLetter(c.(pending := code), if pending == "" then 'E' else 'I', 12_000);
  }

  lemma FlushLetter(c: Cursor, letter: char, maxChars: nat)
    requires c.text == "" && c.pending != "" && MorseToChar(c.pending) == Some(letter) && maxChars > 0
    ensures FlushPending(c, maxChars).text == [letter]
  {
    assert "" + [letter] == [letter];
  }
}
