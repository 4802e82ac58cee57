/**
  The commit cursor over whole runs of overlapping windows: the text it commits, the code it
  flushes at every gap, and exactly when that is the code that was keyed.
*/
module CursorRuns {
  import opened Wrappers
  import opened MorseCode
  import opened Keying
  import opened CommitCursor

  // ---------------------------------------------------------------------
  // The cursor with its reading of events as a parameter
  // ---------------------------------------------------------------------

  /** What an event makes of the text and the pending elements. */
  type Writer = (Copy, Kind) -> Copy

  function CopyOf(c: Cursor): Copy { Copy(c.text, c.pending) }

  function With(c: Cursor, x: Copy): Cursor { c.(text := x.text, pending := x.pending) }

  /** The cursor's own: unknown codes dropped, the text capped. */
  function Scribe(maxChars: nat): Writer {
    (x: Copy, k: Kind) => CopyOf(Read(Cursor(0, x.text, x.pending, true), k, maxChars))
  }

  function Mark(k: Kind): string {
    if k.OnDit? then "." else if k.OnDah? then "-" else ""
  }

  /** Elements gather, and a gap that ends a letter leaves nothing pending. */
  ghost predicate IsWriter(w: Writer) {
    forall x, k :: if EndsLetter(k) then w(x, k).pending == "" else w(x, k) == Copy(x.text, x.pending + Mark(k))
  }

  lemma ScribeIsWriter(maxChars: nat)
    ensures IsWriter(Scribe(maxChars))
  {
    forall x: Copy, k: Kind
      ensures if EndsLetter(k) then Scribe(maxChars)(x, k).pending == ""
              else Scribe(maxChars)(x, k) == Copy(x.text, x.pending + Mark(k))
    {
      assert x.pending + "" == x.pending;
    }
  }

  function PlayBy(w: Writer, c: Cursor, r: Report, b: Bounds): Cursor {
    if !Counts(c, r, b) then c
    else With(c, w(CopyOf(c), r.kind)).(until := if EndsLetter(r.kind) then r.end else c.until)
  }

  function PlayAllBy(w: Writer, c: Cursor, reports: seq<Report>, b: Bounds): Cursor {
    if reports == [] then c else PlayBy(w, PlayAllBy(w, c, reports[..|reports| - 1], b), reports[|reports| - 1], b)
  }

  function UpdateBy(w: Writer, c: Cursor, f: VizFrame, decodeEvery: real): Cursor {
    if Gated(f) then c
    else
      var p := Placed(c, f);
      PlayAllBy(w, p, Reports(f), BoundsOf(p, f, decodeEvery))
  }

  function ApplyBy(w: Writer, c: Cursor, e: Event): Cursor {
    match e
    case Frame(f, decodeEvery) => UpdateBy(w, c, f, decodeEvery)
    case LockLost => c.(pending := "")
  }

  lemma PlayOneBy(c: Cursor, r: Report, b: Bounds, maxChars: nat)
    ensures Play1(c, r, b, maxChars) == PlayBy(Scribe(maxChars), c, r, b)
  {}

  lemma {:induction false} PlayAllByScribe(c: Cursor, reports: seq<Report>, b: Bounds, maxChars: nat)
    ensures PlayAll(c, reports, b, maxChars) == PlayAllBy(Scribe(maxChars), c, reports, b)
  {
    if reports != [] {
      PlayAllByScribe(c, reports[..|reports| - 1], b, maxChars);
      PlayOneBy(PlayAll(c, reports[..|reports| - 1], b, maxChars), reports[|reports| - 1], b, maxChars);
    }
  }

  lemma ApplyByScribe(c: Cursor, e: Event, maxChars: nat)
    ensures Apply(c, e, maxChars) == ApplyBy(Scribe(maxChars), c, e)
  {
    if e.Frame? && !Gated(e.f) {
      var p := Placed(c, e.f);
      PlayAllByScribe(p, Reports(e.f), BoundsOf(p, e.f, e.decodeEvery), maxChars);
    }
  }

  // ---------------------------------------------------------------------
  // What was keyed
  // ---------------------------------------------------------------------

  /** Stretches that follow on each other, each longer than the tolerance. */
  ghost predicate Adjacent(t: seq<Report>) {
    && (forall i :: 0 <= i < |t| ==> t[i].start + EPSILON_SAMPLES < t[i].end)
    && (forall i :: 0 <= i < |t| - 1 ==> t[i].end == t[i + 1].start)
  }

  lemma {:induction false} InTime(t: seq<Report>, i: nat, j: nat)
    requires Adjacent(t) && i < j < |t|
    ensures t[i].end <= t[j].start
    decreases j
  {
    if i < j - 1 {
      InTime(t, i, j - 1);
    }
  }

  /** One pass over the events from a on, up to b. */
  function PassTo(w: Writer, x: Copy, t: seq<Report>, a: nat, b: nat): Copy
    requires b <= |t|
  {
    if b <= a then x else w(PassTo(w, x, t, a, b - 1), t[b - 1].kind)
  }

  /** The elements keyed from a on, up to b. */
  function Code(t: seq<Report>, a: nat, b: nat): string
    requires b <= |t|
  {
    if b <= a then "" else Code(t, a, b - 1) + Mark(t[b - 1].kind)
  }

  /** After the last gap that ends a letter between a and b; a if there is none. */
  function LastGap(t: seq<Report>, a: nat, b: nat): (g: nat)
    requires a <= b <= |t|
    ensures a <= g <= b && (g > a ==> EndsLetter(t[g - 1].kind))
    ensures forall k :: g <= k < b ==> !EndsLetter(t[k].kind)
  {
    if a == b then a else if EndsLetter(t[b - 1].kind) then b else LastGap(t, a, b - 1)
  }

  /** The first gap that ends a letter between a and b; b if there is none. */
  function FirstGap(t: seq<Report>, a: nat, b: nat): (g: nat)
    requires a <= b <= |t|
    ensures a <= g <= b && (g < b ==> EndsLetter(t[g].kind))
    ensures forall k :: a <= k < g ==> !EndsLetter(t[k].kind)
    decreases b - a
  {
    if a == b || EndsLetter(t[a].kind) then a else FirstGap(t, a + 1, b)
  }

  lemma {:induction false} PassSplit(w: Writer, x: Copy, t: seq<Report>, a: nat, k: nat, b: nat)
    requires a <= k <= b <= |t|
    ensures PassTo(w, x, t, a, b) == PassTo(w, PassTo(w, x, t, a, k), t, k, b)
    decreases b
  {
    if k < b {
      PassSplit(w, x, t, a, k, b - 1);
    }
  }

  /** Where no gap ends a letter the elements gather and nothing else changes. */
  lemma {:induction false} PassGathers(w: Writer, x: Copy, t: seq<Report>, a: nat, b: nat)
    requires IsWriter(w) && b <= |t| && forall k :: a <= k < b ==> !EndsLetter(t[k].kind)
    ensures PassTo(w, x, t, a, b) == Copy(x.text, x.pending + Code(t, a, b))
    decreases b
  {
    if a < b {
      PassGathers(w, x, t, a, b - 1);
      var before, mark := Code(t, a, b - 1), Mark(t[b - 1].kind);
      assert x.pending + before + mark == x.pending + (before + mark);
    } else {
      assert x.pending + "" == x.pending;
    }
  }

  /** After a pass: the elements since the last gap, behind what was pending before if there was none. */
  lemma PendingAfter(w: Writer, x: Copy, t: seq<Report>, a: nat, b: nat)
    requires IsWriter(w) && a <= b <= |t|
    ensures var g := LastGap(t, a, b);
            && PassTo(w, x, t, a, b).pending == (if g > a then "" else x.pending) + Code(t, g, b)
            && PassTo(w, x, t, a, b).text == PassTo(w, x, t, a, g).text
  {
    var g := LastGap(t, a, b);
    PassSplit(w, x, t, a, g, b);
    PassGathers(w, PassTo(w, x, t, a, g), t, g, b);
  }

  lemma {:induction false} CodeMeaning(t: seq<Report>, a: nat, b: nat)
    requires b <= |t|
    ensures Code(t, a, b) != "" <==> exists k :: a <= k < b && t[k].kind.IsOn()
    decreases b
  {
    if a < b {
      CodeMeaning(t, a, b - 1);
      if t[b - 1].kind.IsOn() {
        assert |Mark(t[b - 1].kind)| == 1;
      }
    }
  }

  // ---------------------------------------------------------------------
  // What a frame reports of it
  // ---------------------------------------------------------------------

  /** What happens to the cursor, and which slice of the timeline a frame reports. */
  datatype Look = Look(event: Event, lo: nat, hi: nat)

  predicate Moves(l: Look) { l.event.Frame? && !Gated(l.event.f) }

  function End(l: Look): nat
    requires l.event.Frame?
  {
    SafeEnd(l.event.f, l.event.decodeEvery)
  }

  /** After the last of the events from n up to hi that ends by safeEnd. */
  function StableTo(t: seq<Report>, n: nat, hi: nat, safeEnd: nat): (m: nat)
    requires n <= |t| && hi <= |t|
    ensures n <= m <= |t| && (m > n ==> m <= hi)
  {
    if hi <= n then n else if t[hi - 1].end <= safeEnd then hi else StableTo(t, n, hi - 1, safeEnd)
  }

  lemma {:induction false} StableExactly(t: seq<Report>, n: nat, hi: nat, safeEnd: nat, k: nat)
    requires Adjacent(t) && n <= k < hi <= |t|
    ensures t[k].end <= safeEnd <==> k < StableTo(t, n, hi, safeEnd)
    decreases hi
  {
    if t[hi - 1].end <= safeEnd {
      if k < hi - 1 {
        InTime(t, k, hi - 1);
      }
    } else if k < hi - 1 {
      StableExactly(t, n, hi - 1, safeEnd, k);
    }
  }

  function Reach(t: seq<Report>, n: nat, l: Look): (m: nat)
    requires n <= |t| && l.hi <= |t| && l.event.Frame?
    ensures n <= m <= |t| && (m > n ==> m <= l.hi)
  {
    StableTo(t, n, l.hi, End(l))
  }

  /**
    With the first n events committed, a slice from lo to hi begins no later than the next event, that event
    lies in the safe interior, and events before the first lie outside it.
  */
  ghost predicate Shows(t: seq<Report>, first: nat, n: nat, lo: nat, hi: nat, safeStart: nat) {
    && lo <= n && lo <= hi <= |t|
    && (n < |t| ==> safeStart <= t[n].start)
    && (n == first && 0 < first <= |t| ==> t[first - 1].start < safeStart)
  }

  /** A frame that moves the cursor reports such a slice: no event has left the safe interior uncommitted. */
  ghost predicate Sees(t: seq<Report>, first: nat, n: nat, l: Look) {
    Moves(l) ==> Shows(t, first, n, l.lo, l.hi, SafeStart(l.event.f)) && Reports(l.event.f) == t[l.lo..l.hi]
  }

  /** The events up to n are committed: the cursor stands where event n begins. */
  ghost predicate At(c: Cursor, t: seq<Report>, first: nat, n: nat) {
    && first <= n <= |t|
    && (!c.initialized ==> n == first && c.until == 0 && c.pending == "")
    && (c.initialized ==> (n < |t| ==> c.until <= t[n].start) && (n > first ==> t[n - 1].end <= c.until))
  }

  lemma PlacedAt(c: Cursor, t: seq<Report>, first: nat, n: nat, l: Look)
    requires At(c, t, first, n) && Moves(l) && Sees(t, first, n, l)
    ensures var p := Placed(c, l.event.f);
            && At(p, t, first, n) && p.initialized && p.text == c.text
            && p.pending == if Skips(c, l.event.f) then "" else c.pending
  {}

  /** The frame no longer holds the audio at the cursor, and says so. */
  predicate Skips(c: Cursor, f: VizFrame) {
    c.initialized && c.until + EPSILON_SAMPLES < SafeStart(f)
  }

  /** Exactly the events not yet committed that end in the safe interior count, as long as the cursor has not passed them. */
  lemma CountsExactly(p: Cursor, t: seq<Report>, first: nat, n: nat, lo: nat, hi: nat, b: Bounds, c: Cursor, k: nat)
    requires Adjacent(t) && At(p, t, first, n) && p.initialized && b.cursorStart == p.until
    requires Shows(t, first, n, lo, hi, b.safeStart)
    requires lo <= k < hi && (k >= n ==> c.until <= t[k].start)
    ensures Counts(c, t[k], b) <==> n <= k < StableTo(t, n, hi, b.safeEnd)
  {
    if k >= n {
      if k > n {
        InTime(t, n, k);
      }
      StableExactly(t, n, hi, b.safeEnd, k);
    } else if n > first {
      if k < n - 1 {
        InTime(t, k, n - 1);
      }
    } else if k < first - 1 {
      InTime(t, k, first - 1);
    }
  }

  /** The cursor after the events from n up to e. */
  function UntilAfter(p: Cursor, t: seq<Report>, n: nat, e: nat): nat
    requires n <= e <= |t|
  {
    if LastGap(t, n, e) > n then t[LastGap(t, n, e) - 1].end else p.until
  }

  function PlayedTo(n: nat, m: nat, i: nat): nat { if i <= n then n else if i <= m then i else m }

  lemma UntilBehind(p: Cursor, t: seq<Report>, first: nat, n: nat, e: nat, k: nat)
    requires Adjacent(t) && At(p, t, first, n) && p.initialized && n <= e <= k < |t|
    ensures UntilAfter(p, t, n, e) <= t[k].start
  {
    var g := LastGap(t, n, e);
    if g > n {
      InTime(t, g - 1, k);
    } else if n < k {
      InTime(t, n, k);
    }
  }

  /** A placed cursor after a pass over the events from n up to e. */
  function Passed(w: Writer, p: Cursor, t: seq<Report>, n: nat, e: nat): Cursor
    requires n <= e <= |t|
  {
    With(p, PassTo(w, CopyOf(p), t, n, e)).(until := UntilAfter(p, t, n, e))
  }

  lemma PassedNone(w: Writer, p: Cursor, t: seq<Report>, n: nat)
    requires n <= |t|
    ensures Passed(w, p, t, n, n) == p
  {}

  lemma PlayNext(w: Writer, p: Cursor, c: Cursor, t: seq<Report>, n: nat, k: nat, b: Bounds)
    requires n <= k < |t| && Counts(c, t[k], b) && c == Passed(w, p, t, n, k)
    ensures PlayBy(w, c, t[k], b) == Passed(w, p, t, n, k + 1)
  {}

  lemma PlayStep(w: Writer, p: Cursor, t: seq<Report>, first: nat, n: nat, lo: nat, hi: nat, b: Bounds, k: nat, c: Cursor)
    requires Adjacent(t) && At(p, t, first, n) && p.initialized && b.cursorStart == p.until
    requires Shows(t, first, n, lo, hi, b.safeStart)
    requires lo <= k < hi && c == Passed(w, p, t, n, PlayedTo(n, StableTo(t, n, hi, b.safeEnd), k))
    ensures PlayBy(w, c, t[k], b) == Passed(w, p, t, n, PlayedTo(n, StableTo(t, n, hi, b.safeEnd), k + 1))
  {
    var m := StableTo(t, n, hi, b.safeEnd);
    if k >= n {
      UntilBehind(p, t, first, n, PlayedTo(n, m, k), k);
    }
    CountsExactly(p, t, first, n, lo, hi, b, c, k);
    if n <= k < m {
      PlayNext(w, p, c, t, n, k, b);
    }
  }

  ghost predicate PlayedSoFar(w: Writer, p: Cursor, t: seq<Report>, n: nat, m: nat, lo: nat, b: Bounds, k: nat)
    requires lo <= k <= |t| && n <= m <= |t|
  {
    PlayAllBy(w, p, t[lo..k], b) == Passed(w, p, t, n, PlayedTo(n, m, k))
  }

  lemma PlayMore(w: Writer, p: Cursor, t: seq<Report>, first: nat, n: nat, lo: nat, hi: nat, b: Bounds, k: nat)
    requires Adjacent(t) && At(p, t, first, n) && p.initialized && b.cursorStart == p.until
    requires Shows(t, first, n, lo, hi, b.safeStart) && lo <= k < hi
    requires PlayedSoFar(w, p, t, n, StableTo(t, n, hi, b.safeEnd), lo, b, k)
    ensures PlayedSoFar(w, p, t, n, StableTo(t, n, hi, b.safeEnd), lo, b, k + 1)
  {
    assert t[lo..k + 1][..k - lo] == t[lo..k] && t[lo..k + 1][k - lo] == t[k];
    PlayStep(w, p, t, first, n, lo, hi, b, k, PlayAllBy(w, p, t[lo..k], b));
  }

  /** Playing a frame is a pass over the events not yet committed, as far as they are stable. */
  lemma {:induction false} PlayIsPass(
    w: Writer, p: Cursor, t: seq<Report>, first: nat, n: nat, lo: nat, hi: nat, b: Bounds, k: nat)
    requires Adjacent(t) && At(p, t, first, n) && p.initialized && b.cursorStart == p.until
    requires Shows(t, first, n, lo, hi, b.safeStart) && lo <= k <= hi
    ensures PlayedSoFar(w, p, t, n, StableTo(t, n, hi, b.safeEnd), lo, b, k)
    decreases k
  {
    if k == lo {
      PassedNone(w, p, t, n);
      assert t[lo..lo] == [];
    } else {
      PlayIsPass(w, p, t, first, n, lo, hi, b, k - 1);
      PlayMore(w, p, t, first, n, lo, hi, b, k - 1);
    }
  }

  /** A frame, whole. */
  lemma FrameIsPass(w: Writer, c: Cursor, t: seq<Report>, first: nat, n: nat, l: Look)
    requires Adjacent(t) && At(c, t, first, n) && Moves(l) && Sees(t, first, n, l)
    ensures ApplyBy(w, c, l.event) == Passed(w, Placed(c, l.event.f), t, n, Reach(t, n, l))
  {
    var p := Placed(c, l.event.f);
    PlacedAt(c, t, first, n, l);
    PlayIsPass(w, p, t, first, n, l.lo, l.hi, BoundsOf(p, l.event.f, l.event.decodeEvery), l.hi);
  }

  lemma StaysAt(p: Cursor, t: seq<Report>, first: nat, n: nat, m: nat, c: Cursor)
    requires Adjacent(t) && At(p, t, first, n) && p.initialized && n <= m <= |t|
    requires c.initialized && c.until == UntilAfter(p, t, n, m)
    ensures At(c, t, first, LastGap(t, n, m))
  {}

  // ---------------------------------------------------------------------
  // Whole runs
  // ---------------------------------------------------------------------

  const NEW_CURSOR: Cursor := Cursor(0, "", "", false)

  function After(w: Writer, looks: seq<Look>): Cursor {
    if looks == [] then NEW_CURSOR else ApplyBy(w, After(w, looks[..|looks| - 1]), looks[|looks| - 1].event)
  }

  function Events(looks: seq<Look>): seq<Event> {
    seq(|looks|, i requires 0 <= i < |looks| => looks[i].event)
  }

  /** With the cursor's own reading this is a run of the cursor. */
  lemma {:induction false} AfterIsRun(looks: seq<Look>, maxChars: nat)
    ensures After(Scribe(maxChars), looks) == Run(NEW_CURSOR, Events(looks), maxChars)
  {
    if looks != [] {
      var init := looks[..|looks| - 1];
      AfterIsRun(init, maxChars);
      assert Events(looks)[..|looks| - 1] == Events(init);
      ApplyByScribe(After(Scribe(maxChars), init), looks[|looks| - 1].event, maxChars);
    }
  }

  /** How many events are committed. */
  function Done(t: seq<Report>, first: nat, looks: seq<Look>): (n: nat)
    requires first <= |t|
    ensures first <= n <= |t|
  {
    if looks == [] then first
    else
      var n, l := Done(t, first, looks[..|looks| - 1]), looks[|looks| - 1];
      if Moves(l) && l.hi <= |t| then LastGap(t, n, Reach(t, n, l)) else n
  }

  ghost predicate Good(t: seq<Report>, first: nat, looks: seq<Look>) {
    && Adjacent(t) && first <= |t|
    && forall j :: 0 <= j < |looks| ==> Sees(t, first, Done(t, first, looks[..j]), looks[j])
  }

  lemma GoodBefore(t: seq<Report>, first: nat, looks: seq<Look>)
    requires Good(t, first, looks) && looks != []
    ensures Good(t, first, looks[..|looks| - 1])
    ensures Sees(t, first, Done(t, first, looks[..|looks| - 1]), looks[|looks| - 1])
  {
    var init := looks[..|looks| - 1];
    assert forall j :: 0 <= j < |init| ==> init[..j] == looks[..j];
  }

  ghost predicate AtDone(w: Writer, t: seq<Report>, first: nat, looks: seq<Look>)
    requires first <= |t|
  {
    At(After(w, looks), t, first, Done(t, first, looks))
  }

  lemma AfterNext(w: Writer, looks: seq<Look>)
    requires looks != []
    ensures After(w, looks) == ApplyBy(w, After(w, looks[..|looks| - 1]), looks[|looks| - 1].event)
  {}

  lemma AppliedAt(w: Writer, c: Cursor, t: seq<Report>, first: nat, n: nat, l: Look)
    requires Adjacent(t) && At(c, t, first, n) && Sees(t, first, n, l)
    ensures At(ApplyBy(w, c, l.event), t, first, if Moves(l) && l.hi <= |t| then LastGap(t, n, Reach(t, n, l)) else n)
  {
    if Moves(l) {
      MovedAt(w, c, t, first, n, l);
    }
  }

  lemma RunAtNext(w: Writer, t: seq<Report>, first: nat, looks: seq<Look>)
    requires Good(t, first, looks) && looks != [] && AtDone(w, t, first, looks[..|looks| - 1])
    ensures AtDone(w, t, first, looks)
  {
    GoodBefore(t, first, looks);
    AfterNext(w, looks);
    AppliedAt(w, After(w, looks[..|looks| - 1]), t, first, Done(t, first, looks[..|looks| - 1]), looks[|looks| - 1]);
  }

  /** After every run the cursor stands at the first event not committed. */
  lemma {:induction false} RunAt(w: Writer, t: seq<Report>, first: nat, looks: seq<Look>)
    requires Good(t, first, looks)
    ensures AtDone(w, t, first, looks)
  {
    if looks != [] {
      GoodBefore(t, first, looks);
      RunAt(w, t, first, looks[..|looks| - 1]);
      RunAtNext(w, t, first, looks);
    }
  }

  lemma MovedAt(w: Writer, c: Cursor, t: seq<Report>, first: nat, n: nat, l: Look)
    requires Adjacent(t) && At(c, t, first, n) && Moves(l) && Sees(t, first, n, l)
    ensures At(ApplyBy(w, c, l.event), t, first, LastGap(t, n, Reach(t, n, l)))
  {
    FrameIsPass(w, c, t, first, n, l);
    PlacedAt(c, t, first, n, l);
    StaysAt(Placed(c, l.event.f), t, first, n, Reach(t, n, l), ApplyBy(w, c, l.event));
  }

  // ---------------------------------------------------------------------
  // What is left pending
  // ---------------------------------------------------------------------

  /** The last look is a frame after which an element would still count. */
  ghost predicate Leaves(w: Writer, looks: seq<Look>) {
    looks != [] &&
    var l := looks[|looks| - 1];
    Moves(l) && exists r :: r in Reports(l.event.f) && r.kind.IsOn()
                            && StillCounts(After(w, looks), l.event.f, l.event.decodeEvery, r)
  }

  /** The last look is a frame that commits a gap. */
  ghost predicate Commits(t: seq<Report>, first: nat, looks: seq<Look>)
    requires first <= |t|
  {
    looks != [] && Moves(looks[|looks| - 1]) && Done(t, first, looks[..|looks| - 1]) < Done(t, first, looks)
  }

  /** The last look drops what was pending: a gap is committed, audio is skipped, or the lock is lost. */
  ghost predicate Clears(w: Writer, t: seq<Report>, first: nat, looks: seq<Look>)
    requires first <= |t|
  {
    looks != [] &&
    var l := looks[|looks| - 1];
    || l.event.LockLost?
    || (Moves(l) && (Commits(t, first, looks) || Skips(After(w, looks[..|looks| - 1]), l.event.f)))
  }

  /** The i-th look left an element, and nothing since has dropped what was pending. */
  ghost predicate Lingers(w: Writer, t: seq<Report>, first: nat, looks: seq<Look>, i: int)
    requires first <= |t|
  {
    && 0 < i <= |looks| && Leaves(w, looks[..i])
    && forall k :: i < k <= |looks| ==> !Clears(w, t, first, looks[..k])
  }

  ghost predicate SomethingLingers(w: Writer, t: seq<Report>, first: nat, looks: seq<Look>)
    requires first <= |t|
  {
    exists i :: Lingers(w, t, first, looks, i)
  }

  lemma {:induction false} StableFrom(t: seq<Report>, n: nat, n': nat, hi: nat, safeEnd: nat)
    requires n <= |t| && hi <= |t| && n <= n' <= StableTo(t, n, hi, safeEnd)
    ensures StableTo(t, n', hi, safeEnd) == StableTo(t, n, hi, safeEnd)
    decreases hi
  {
    if hi > n' && t[hi - 1].end > safeEnd {
      StableFrom(t, n, n', hi - 1, safeEnd);
    }
  }

  lemma ShowsLater(t: seq<Report>, first: nat, n: nat, n': nat, lo: nat, hi: nat, safeStart: nat)
    requires Adjacent(t) && Shows(t, first, n, lo, hi, safeStart) && first <= n <= n' <= |t|
    ensures Shows(t, first, n', lo, hi, safeStart)
  {
    if n < n' < |t| {
      InTime(t, n, n');
    }
  }

  lemma StillCountsAt(c: Cursor, t: seq<Report>, first: nat, n: nat, lo: nat, hi: nat, b: Bounds, k: nat)
    requires Adjacent(t) && At(c, t, first, n) && c.initialized && b.cursorStart == c.until
    requires Shows(t, first, n, lo, hi, b.safeStart) && lo <= k < hi
    ensures Counts(c, t[k], b) <==> n <= k < StableTo(t, n, hi, b.safeEnd)
  {
    if k > n {
      InTime(t, n, k);
    }
    CountsExactly(c, t, first, n, lo, hi, b, c, k);
  }

  lemma InSlice(t: seq<Report>, lo: nat, hi: nat, r: Report)
    requires lo <= hi <= |t|
    ensures r in t[lo..hi] <==> exists k :: lo <= k < hi && t[k] == r
  {
    if k :| lo <= k < hi && t[k] == r {
      assert t[lo..hi][k - lo] == r;
    }
  }

  lemma StillCountsExactly(c: Cursor, t: seq<Report>, first: nat, n: nat, lo: nat, hi: nat, b: Bounds)
    requires Adjacent(t) && At(c, t, first, n) && c.initialized && b.cursorStart == c.until
    requires Shows(t, first, n, lo, hi, b.safeStart)
    ensures (exists r :: r in t[lo..hi] && r.kind.IsOn() && Counts(c, r, b))
       <==> exists k :: n <= k < StableTo(t, n, hi, b.safeEnd) && t[k].kind.IsOn()
  {
    if r :| r in t[lo..hi] && r.kind.IsOn() && Counts(c, r, b) {
      InSlice(t, lo, hi, r);
      var k :| lo <= k < hi && t[k] == r;
      StillCountsAt(c, t, first, n, lo, hi, b, k);
    }
    if k: nat :| n <= k < StableTo(t, n, hi, b.safeEnd) && t[k].kind.IsOn() {
      StillCountsAt(c, t, first, n, lo, hi, b, k);
      InSlice(t, lo, hi, t[k]);
    }
  }

  lemma AfterFrame(w: Writer, t: seq<Report>, first: nat, looks: seq<Look>)
    requires Good(t, first, looks) && looks != [] && Moves(looks[|looks| - 1])
    ensures var l, n, c := looks[|looks| - 1], Done(t, first, looks[..|looks| - 1]), After(w, looks[..|looks| - 1]);
            && At(c, t, first, n) && Sees(t, first, n, l)
            && At(Placed(c, l.event.f), t, first, n) && Placed(c, l.event.f).initialized
            && Done(t, first, looks) == LastGap(t, n, Reach(t, n, l))
            && After(w, looks) == Passed(w, Placed(c, l.event.f), t, n, Reach(t, n, l))
            && At(After(w, looks), t, first, Done(t, first, looks))
  {
    var l, n, c := looks[|looks| - 1], Done(t, first, looks[..|looks| - 1]), After(w, looks[..|looks| - 1]);
    GoodBefore(t, first, looks);
    RunAt(w, t, first, looks[..|looks| - 1]);
    RunAt(w, t, first, looks);
    FrameIsPass(w, c, t, first, n, l);
    PlacedAt(c, t, first, n, l);
  }

  /** Elements still count after a frame exactly when some are keyed between its last gap and the guard. */
  lemma LeavesExactly(w: Writer, t: seq<Report>, first: nat, looks: seq<Look>)
    requires Good(t, first, looks) && looks != [] && Moves(looks[|looks| - 1])
    ensures Leaves(w, looks)
       <==> Code(t, Done(t, first, looks), Reach(t, Done(t, first, looks[..|looks| - 1]), looks[|looks| - 1])) != ""
  {
    AfterFrame(w, t, first, looks);
    var l, n, n' := looks[|looks| - 1], Done(t, first, looks[..|looks| - 1]), Done(t, first, looks);
    var c := After(w, looks);
    ShowsLater(t, first, n, n', l.lo, l.hi, SafeStart(l.event.f));
    StableFrom(t, n, n', l.hi, End(l));
    StillCountsExactly(c, t, first, n', l.lo, l.hi, BoundsOf(c, l.event.f, l.event.decodeEvery));
    CodeMeaning(t, n', Reach(t, n, l));
  }

  /** What one look makes of the pending elements. */
  lemma PendingStep(w: Writer, t: seq<Report>, first: nat, looks: seq<Look>)
    requires IsWriter(w) && Good(t, first, looks) && looks != []
    ensures After(w, looks).pending != ""
       <==> Leaves(w, looks) || (!Clears(w, t, first, looks) && After(w, looks[..|looks| - 1]).pending != "")
  {
    var l := looks[|looks| - 1];
    if Moves(l) {
      var n, c := Done(t, first, looks[..|looks| - 1]), After(w, looks[..|looks| - 1]);
      AfterFrame(w, t, first, looks);
      PlacedAt(c, t, first, n, l);
      LeavesExactly(w, t, first, looks);
      PendingAfter(w, CopyOf(Placed(c, l.event.f)), t, n, Reach(t, n, l));
    }
  }

  lemma LingersOn(w: Writer, t: seq<Report>, first: nat, looks: seq<Look>, i: int)
    requires first <= |t| && looks != []
    ensures Lingers(w, t, first, looks, i)
       <==> (i == |looks| && Leaves(w, looks))
            || (Lingers(w, t, first, looks[..|looks| - 1], i) && !Clears(w, t, first, looks))
  {
    var init := looks[..|looks| - 1];
    assert looks[..|looks|] == looks;
    assert forall k :: 0 <= k <= |init| ==> init[..k] == looks[..k];
  }

  /** Exactly when elements are pending after a run: when some frame left one and nothing has dropped it. */
  lemma {:induction false} PendingExactly(w: Writer, t: seq<Report>, first: nat, looks: seq<Look>)
    requires IsWriter(w) && Good(t, first, looks)
    ensures After(w, looks).pending != "" <==> SomethingLingers(w, t, first, looks)
  {
    if looks != [] {
      var init := looks[..|looks| - 1];
      GoodBefore(t, first, looks);
      PendingExactly(w, t, first, init);
      PendingStep(w, t, first, looks);
      forall i
        ensures Lingers(w, t, first, looks, i)
           <==> (i == |looks| && Leaves(w, looks)) || (Lingers(w, t, first, init, i) && !Clears(w, t, first, looks))
      {
        LingersOn(w, t, first, looks, i);
      }
      if Leaves(w, looks) {
        assert Lingers(w, t, first, looks, |looks|);
      }
    }
  }

  // ---------------------------------------------------------------------
  // The code flushed at a gap
  // ---------------------------------------------------------------------

  /** The cursor when a frame, played on c, comes to event g. */
  function ComesTo(w: Writer, c: Cursor, l: Look, g: nat): Cursor
    requires Moves(l) && l.lo <= g && g - l.lo <= |l.event.f.events|
  {
    var p := Placed(c, l.event.f);
    PlayAllBy(w, p, Reports(l.event.f)[..g - l.lo], BoundsOf(p, l.event.f, l.event.decodeEvery))
  }

  /** The cursor when the last frame comes to the gap at event g. */
  function AtGap(w: Writer, looks: seq<Look>, g: nat): Cursor
    requires looks != [] && Moves(looks[|looks| - 1]) && looks[|looks| - 1].lo <= g
    requires g - looks[|looks| - 1].lo <= |looks[|looks| - 1].event.f.events|
  {
    ComesTo(w, After(w, looks[..|looks| - 1]), looks[|looks| - 1], g)
  }

  /** The last frame commits event g, a gap that ends a letter. */
  ghost predicate CommitsGap(t: seq<Report>, first: nat, looks: seq<Look>, g: nat)
    requires first <= |t|
  {
    && looks != [] && Moves(looks[|looks| - 1]) && g < |t| && EndsLetter(t[g].kind)
    && Done(t, first, looks[..|looks| - 1]) <= g < Done(t, first, looks)
  }

  /** Where the letter that ends at gap g begins: after the gap before it, or with the events not yet committed. */
  function LetterFrom(t: seq<Report>, first: nat, looks: seq<Look>, g: nat): nat
    requires first <= |t| && looks != [] && Done(t, first, looks[..|looks| - 1]) <= g <= |t|
  {
    LastGap(t, Done(t, first, looks[..|looks| - 1]), g)
  }

  /** Nothing is left pending by earlier frames when the last one is played. */
  ghost predicate Unspoiled(w: Writer, t: seq<Report>, first: nat, looks: seq<Look>)
    requires first <= |t| && looks != [] && Moves(looks[|looks| - 1])
  {
    || Skips(After(w, looks[..|looks| - 1]), looks[|looks| - 1].event.f)
    || !SomethingLingers(w, t, first, looks[..|looks| - 1])
  }

  lemma UnspoiledExactly(w: Writer, t: seq<Report>, first: nat, looks: seq<Look>)
    requires IsWriter(w) && Good(t, first, looks) && looks != [] && Moves(looks[|looks| - 1])
    ensures Unspoiled(w, t, first, looks)
       <==> Placed(After(w, looks[..|looks| - 1]), looks[|looks| - 1].event.f).pending == ""
  {
    GoodBefore(t, first, looks);
    PendingExactly(w, t, first, looks[..|looks| - 1]);
    AfterFrame(w, t, first, looks);
    PlacedAt(After(w, looks[..|looks| - 1]), t, first, Done(t, first, looks[..|looks| - 1]), looks[|looks| - 1]);
  }

  lemma SliceOfSlice(t: seq<Report>, lo: nat, g: nat, hi: nat)
    requires lo <= g <= hi <= |t|
    ensures t[lo..hi][..g - lo] == t[lo..g]
  {}

  lemma GapIsPassed(
    w: Writer, p: Cursor, t: seq<Report>, first: nat, n: nat, lo: nat, hi: nat, b: Bounds, reports: seq<Report>, g: nat)
    requires Adjacent(t) && At(p, t, first, n) && p.initialized && b.cursorStart == p.until
    requires Shows(t, first, n, lo, hi, b.safeStart) && n <= g < StableTo(t, n, hi, b.safeEnd)
    requires reports == t[lo..hi]
    ensures lo <= g && g - lo < |reports| && PlayAllBy(w, p, reports[..g - lo], b) == Passed(w, p, t, n, g)
  {
    PlayIsPass(w, p, t, first, n, lo, hi, b, g);
    SliceOfSlice(t, lo, g, hi);
  }

  lemma ComesToPassed(w: Writer, c: Cursor, t: seq<Report>, first: nat, n: nat, l: Look, g: nat)
    requires Adjacent(t) && At(c, t, first, n) && Moves(l) && Sees(t, first, n, l) && n <= g < Reach(t, n, l)
    ensures l.lo <= g && g - l.lo < |l.event.f.events|
    ensures ComesTo(w, c, l, g) == Passed(w, Placed(c, l.event.f), t, n, g)
  {
    var p := Placed(c, l.event.f);
    PlacedAt(c, t, first, n, l);
    GapIsPassed(w, p, t, first, n, l.lo, l.hi, BoundsOf(p, l.event.f, l.event.decodeEvery), Reports(l.event.f), g);
  }

  lemma AtGapIsPassed(w: Writer, t: seq<Report>, first: nat, looks: seq<Look>, g: nat)
    requires Good(t, first, looks) && CommitsGap(t, first, looks, g)
    ensures var l, n := looks[|looks| - 1], Done(t, first, looks[..|looks| - 1]);
            && l.lo <= g && g - l.lo < |l.event.f.events|
            && AtGap(w, looks, g) == Passed(w, Placed(After(w, looks[..|looks| - 1]), l.event.f), t, n, g)
  {
    GoodBefore(t, first, looks);
    RunAt(w, t, first, looks[..|looks| - 1]);
    ComesToPassed(w, After(w, looks[..|looks| - 1]), t, first, Done(t, first, looks[..|looks| - 1]), looks[|looks| - 1], g);
  }

  /**
    The code flushed at a gap is what earlier frames left pending, if the gap is the first the frame
    commits, and then the code keyed. It is the code keyed if and only if the frame commits an earlier gap or
    nothing lingers from an earlier frame; otherwise it is longer.
  */
  lemma FlushedExactly(w: Writer, t: seq<Report>, first: nat, looks: seq<Look>, g: nat)
    requires IsWriter(w) && Good(t, first, looks) && CommitsGap(t, first, looks, g)
    ensures var l, n, from := looks[|looks| - 1], Done(t, first, looks[..|looks| - 1]), LetterFrom(t, first, looks, g);
            && l.lo <= g && g - l.lo < |l.event.f.events|
            && var flushed, keyed := AtGap(w, looks, g).pending, Code(t, from, g);
            && flushed == (if from > n then "" else Placed(After(w, looks[..|looks| - 1]), l.event.f).pending) + keyed
            && (flushed == keyed <==> from > n || Unspoiled(w, t, first, looks))
            && (flushed != keyed ==> |flushed| > |keyed|)
  {
    var l, n := looks[|looks| - 1], Done(t, first, looks[..|looks| - 1]);
    var p := Placed(After(w, looks[..|looks| - 1]), l.event.f);
    AtGapIsPassed(w, t, first, looks, g);
    PendingAfter(w, CopyOf(p), t, n, g);
    UnspoiledExactly(w, t, first, looks);
    LongerUnlessEmpty(p.pending, Code(t, LastGap(t, n, g), g));
  }

  lemma LongerUnlessEmpty(left: string, keyed: string)
    ensures left + keyed == keyed <==> left == ""
    ensures "" + keyed == keyed
  {
    assert |left + keyed| == |left| + |keyed|;
    if left == "" {
      assert left + keyed == keyed;
    }
  }

  // ---------------------------------------------------------------------
  // The committed text
  // ---------------------------------------------------------------------

  /** Whenever a gap was committed nothing lingered from earlier frames. */
  ghost predicate ReadsRight(w: Writer, t: seq<Report>, first: nat, looks: seq<Look>)
    requires first <= |t|
  {
    forall j :: 0 < j <= |looks| && Commits(t, first, looks[..j]) ==> Unspoiled(w, t, first, looks[..j])
  }

  lemma {:induction false} DoneAtGap(t: seq<Report>, first: nat, looks: seq<Look>)
    requires first <= |t|
    ensures LastGap(t, first, Done(t, first, looks)) == Done(t, first, looks)
  {
    if looks != [] {
      DoneAtGap(t, first, looks[..|looks| - 1]);
    }
  }

  lemma {:induction false} LastGapFrom(t: seq<Report>, a: nat, n: nat, b: nat)
    requires a <= n <= b <= |t| && LastGap(t, a, n) == n
    ensures LastGap(t, a, b) == LastGap(t, n, b)
    decreases b
  {
    if n < b {
      LastGapFrom(t, a, n, b - 1);
    }
  }

  const NOTHING: Copy := Copy("", "")

  /** One pass over the events committed so far. */
  function OnePass(w: Writer, t: seq<Report>, first: nat, looks: seq<Look>): Copy
    requires first <= |t|
  {
    PassTo(w, NOTHING, t, first, Done(t, first, looks))
  }

  lemma OnePassAtGap(w: Writer, t: seq<Report>, first: nat, n: nat)
    requires IsWriter(w) && first <= n <= |t| && LastGap(t, first, n) == n
    ensures PassTo(w, NOTHING, t, first, n).pending == ""
  {
    PendingAfter(w, NOTHING, t, first, n);
  }

  /** A frame that finds nothing pending carries the pass on. */
  lemma CarriesOn(w: Writer, x: Copy, t: seq<Report>, first: nat, n: nat, m: nat)
    requires IsWriter(w) && first <= n <= m <= |t| && LastGap(t, first, n) == n
    requires x.text == PassTo(w, NOTHING, t, first, n).text && (LastGap(t, n, m) > n ==> x.pending == "")
    ensures PassTo(w, x, t, n, m).text == PassTo(w, NOTHING, t, first, LastGap(t, n, m)).text
  {
    PendingAfter(w, x, t, n, m);
    if LastGap(t, n, m) > n {
      OnePassAtGap(w, t, first, n);
      PassSplit(w, NOTHING, t, first, n, LastGap(t, n, m));
    } else {
      PassGathers(w, x, t, n, m);
    }
  }

  lemma TextStep(w: Writer, t: seq<Report>, first: nat, looks: seq<Look>)
    requires IsWriter(w) && Good(t, first, looks) && looks != []
    requires After(w, looks[..|looks| - 1]).text == OnePass(w, t, first, looks[..|looks| - 1]).text
    requires Commits(t, first, looks) ==> Unspoiled(w, t, first, looks)
    ensures After(w, looks).text == OnePass(w, t, first, looks).text
  {
    var l := looks[|looks| - 1];
    if Moves(l) {
      var n, c := Done(t, first, looks[..|looks| - 1]), After(w, looks[..|looks| - 1]);
      AfterFrame(w, t, first, looks);
      PlacedAt(c, t, first, n, l);
      UnspoiledExactly(w, t, first, looks);
      DoneAtGap(t, first, looks[..|looks| - 1]);
      CarriesOn(w, CopyOf(Placed(c, l.event.f)), t, first, n, Reach(t, n, l));
    }
  }

  lemma {:induction false} TextByWriter(w: Writer, t: seq<Report>, first: nat, looks: seq<Look>)
    requires IsWriter(w) && Good(t, first, looks) && ReadsRight(w, t, first, looks)
    ensures After(w, looks).text == OnePass(w, t, first, looks).text
  {
    if looks != [] {
      var init := looks[..|looks| - 1];
      assert forall j :: 0 < j <= |init| ==> init[..j] == looks[..j];
      assert looks[..|looks|] == looks;
      GoodBefore(t, first, looks);
      TextByWriter(w, t, first, init);
      TextStep(w, t, first, looks);
    }
  }

  // ---------------------------------------------------------------------
  // The cursor over whole runs
  // ---------------------------------------------------------------------

  lemma {:induction false} GoodPrefix(t: seq<Report>, first: nat, looks: seq<Look>, j: nat)
    requires Good(t, first, looks) && j <= |looks|
    ensures Good(t, first, looks[..j])
    decreases |looks|
  {
    if j < |looks| {
      GoodBefore(t, first, looks);
      GoodPrefix(t, first, looks[..|looks| - 1], j);
      assert looks[..|looks| - 1][..j] == looks[..j];
    } else {
      assert looks[..j] == looks;
    }
  }

  /** The code flushed at gap g, when the last frame commits it, is the code keyed. */
  ghost predicate FlushedRight(w: Writer, t: seq<Report>, first: nat, looks: seq<Look>, g: nat)
    requires first <= |t|
  {
    CommitsGap(t, first, looks, g) ==>
      && looks[|looks| - 1].lo <= g && g - looks[|looks| - 1].lo <= |looks[|looks| - 1].event.f.events|
      && AtGap(w, looks, g).pending == Code(t, LetterFrom(t, first, looks, g), g)
  }

  /** Every code flushed in the run is the code keyed. */
  ghost predicate AllFlushedRight(w: Writer, t: seq<Report>, first: nat, looks: seq<Look>)
    requires first <= |t|
  {
    forall j, g: nat :: 0 < j <= |looks| ==> FlushedRight(w, t, first, looks[..j], g)
  }

  lemma FirstGapCommitted(t: seq<Report>, first: nat, looks: seq<Look>)
    requires first <= |t| && Commits(t, first, looks)
    ensures var n := Done(t, first, looks[..|looks| - 1]);
            var g := FirstGap(t, n, Done(t, first, looks));
            CommitsGap(t, first, looks, g) && LetterFrom(t, first, looks, g) == n
  {
    var n, n' := Done(t, first, looks[..|looks| - 1]), Done(t, first, looks);
    assert EndsLetter(t[n' - 1].kind);
    NoGapBefore(t, n, FirstGap(t, n, n'));
  }

  lemma FrameFlushesRight(w: Writer, t: seq<Report>, first: nat, looks: seq<Look>)
    requires IsWriter(w) && Good(t, first, looks) && looks != []
    ensures (forall g: nat :: FlushedRight(w, t, first, looks, g))
       <==> (Commits(t, first, looks) ==> Unspoiled(w, t, first, looks))
  {
    forall g: nat | CommitsGap(t, first, looks, g)
      ensures FlushedRight(w, t, first, looks, g)
         <==> LetterFrom(t, first, looks, g) > Done(t, first, looks[..|looks| - 1]) || Unspoiled(w, t, first, looks)
    {
      FlushedExactly(w, t, first, looks, g);
    }
    if Commits(t, first, looks) {
      var g := FirstGap(t, Done(t, first, looks[..|looks| - 1]), Done(t, first, looks));
      FirstGapCommitted(t, first, looks);
      assert FlushedRight(w, t, first, looks, g) <==> Unspoiled(w, t, first, looks);
    }
  }

  lemma {:induction false} NoGapBefore(t: seq<Report>, n: nat, g: nat)
    requires n <= g <= |t| && forall k :: n <= k < g ==> !EndsLetter(t[k].kind)
    ensures LastGap(t, n, g) == n
    decreases g
  {
    if n < g {
      NoGapBefore(t, n, g - 1);
    }
  }

  /** Exactly when every code flushed is the code keyed: when nothing lingers from an earlier frame as a gap is committed. */
  lemma ReadRightExactly(w: Writer, t: seq<Report>, first: nat, looks: seq<Look>)
    requires IsWriter(w) && Good(t, first, looks)
    ensures AllFlushedRight(w, t, first, looks) <==> ReadsRight(w, t, first, looks)
  {
    forall j: nat | 0 < j <= |looks|
      ensures (forall g: nat :: FlushedRight(w, t, first, looks[..j], g))
         <==> (Commits(t, first, looks[..j]) ==> Unspoiled(w, t, first, looks[..j]))
    {
      GoodPrefix(t, first, looks, j);
      FrameFlushesRight(w, t, first, looks[..j]);
    }
  }

  /**
    Exactly once: when nothing lingers as gaps are committed, the text the cursor has committed is one
    pass over the events up to the last gap committed, unknown codes dropped and the text capped.
  */
  lemma TextExactly(t: seq<Report>, first: nat, looks: seq<Look>, maxChars: nat)
    requires Good(t, first, looks) && ReadsRight(Scribe(maxChars), t, first, looks)
    ensures Run(NEW_CURSOR, Events(looks), maxChars).text == OnePass(Scribe(maxChars), t, first, looks).text
  {
    ScribeIsWriter(maxChars);
    TextByWriter(Scribe(maxChars), t, first, looks);
    AfterIsRun(looks, maxChars);
  }

  /** What a caller can check after each frame: no element would still count. */
  ghost predicate NothingLeft(w: Writer, looks: seq<Look>) {
    forall j :: 0 < j <= |looks| ==> !Leaves(w, looks[..j])
  }

  lemma NothingLingers(w: Writer, t: seq<Report>, first: nat, looks: seq<Look>, j: nat)
    requires first <= |t| && NothingLeft(w, looks) && j <= |looks|
    ensures !SomethingLingers(w, t, first, looks[..j])
  {
    forall i | 0 < i <= j
      ensures !Lingers(w, t, first, looks[..j], i)
    {
      assert looks[..j][..i] == looks[..i];
    }
  }

  lemma NothingLeftReadsRight(w: Writer, t: seq<Report>, first: nat, looks: seq<Look>)
    requires first <= |t| && NothingLeft(w, looks)
    ensures ReadsRight(w, t, first, looks)
  {
    forall j | 0 < j <= |looks| && Commits(t, first, looks[..j])
      ensures Unspoiled(w, t, first, looks[..j])
    {
      NothingLingers(w, t, first, looks, j - 1);
      assert looks[..j][..j - 1] == looks[..j - 1];
    }
  }

  /** When no element is left to count after any frame, every code and the text are right and nothing is pending. */
  lemma NothingLeftIsExact(t: seq<Report>, first: nat, looks: seq<Look>, maxChars: nat)
    requires Good(t, first, looks) && NothingLeft(Scribe(maxChars), looks)
    ensures var c := Run(NEW_CURSOR, Events(looks), maxChars);
            c.text == OnePass(Scribe(maxChars), t, first, looks).text && c.pending == ""
    ensures AllFlushedRight(Scribe(maxChars), t, first, looks)
  {
    var w := Scribe(maxChars);
    ScribeIsWriter(maxChars);
    NothingLeftReadsRight(w, t, first, looks);
    ReadRightExactly(w, t, first, looks);
    TextExactly(t, first, looks, maxChars);
    NothingLingers(w, t, first, looks, |looks|);
    assert looks[..|looks|] == looks;
    PendingExactly(w, t, first, looks);
    AfterIsRun(looks, maxChars);
  }

  /**
    The converse, letter by letter: when an element a frame left lingers and the next gap is committed, the code
    flushed there is longer than the code keyed, and if that code is known another character is read, or none.
  */
  lemma LingeringMisreads(t: seq<Report>, first: nat, looks: seq<Look>, i: int, maxChars: nat)
    requires Good(t, first, looks) && Commits(t, first, looks)
    requires Lingers(Scribe(maxChars), t, first, looks[..|looks| - 1], i)
    requires !Skips(After(Scribe(maxChars), looks[..|looks| - 1]), looks[|looks| - 1].event.f)
    ensures var l, n := looks[|looks| - 1], Done(t, first, looks[..|looks| - 1]);
            var g := FirstGap(t, n, Done(t, first, looks));
            && CommitsGap(t, first, looks, g) && l.lo <= g && g - l.lo < |l.event.f.events|
            && var flushed, keyed := AtGap(Scribe(maxChars), looks, g).pending, Code(t, n, g);
            && |flushed| > |keyed| && flushed[|flushed| - |keyed|..] == keyed
            && (MorseToChar(keyed).Some? ==> MorseToChar(flushed) != MorseToChar(keyed))
  {
    var w, n := Scribe(maxChars), Done(t, first, looks[..|looks| - 1]);
    var g := FirstGap(t, n, Done(t, first, looks));
    ScribeIsWriter(maxChars);
    FirstGapCommitted(t, first, looks);
    FlushedExactly(w, t, first, looks, g);
    assert SomethingLingers(w, t, first, looks[..|looks| - 1]);
    LongerCode(Placed(After(w, looks[..|looks| - 1]), looks[|looks| - 1].event.f).pending, Code(t, n, g));
  }

  lemma LongerCode(left: string, keyed: string)
    requires left + keyed != keyed
    ensures |left + keyed| > |keyed| && (left + keyed)[|left|..] == keyed
    ensures MorseToChar(keyed).Some? ==> MorseToChar(left + keyed) != MorseToChar(keyed)
  {
    LongerUnlessEmpty(left, keyed);
    if MorseToChar(keyed).Some? {
      LongerReadsOtherwise(left, keyed);
    }
  }
}
