/** Activity spans of the harvester: merging across short pauses, choosing one, and the gaps between them. */
module Spans {
  import opened Arithmetic
  import opened Wrappers

  datatype FrameSpan = FrameSpan(start: nat, end: nat)

  // ---------------------------------------------------------------------
  // What merged spans are
  // ---------------------------------------------------------------------

  /** The shortest pause that separates two spans: adjacent frames are never apart. */
  function Pause(minPauseFrames: nat): nat { if minPauseFrames > 1 then minPauseFrames else 1 }

  /** No frame of a..b is active. */
  ghost predicate Quiet(active: seq<bool>, a: int, b: int) {
    0 <= a <= b <= |active| && forall i :: a <= i < b ==> !active[i]
  }

  /** The span starts and ends on active frames, and no pause fits inside it. */
  ghost predicate Solid(s: FrameSpan, active: seq<bool>, pause: nat) {
    && s.start < s.end <= |active|
    && active[s.start] && active[s.end - 1]
    && forall a, b :: s.start <= a <= b <= s.end && Quiet(active, a, b) ==> b - a < pause
  }

  /** Where the first k spans end. */
  ghost function Reach(spans: seq<FrameSpan>, k: nat): nat {
    if 0 < k <= |spans| then spans[k - 1].end else 0
  }

  /** Span k is solid, everything since the span before it is quiet, and that is at least a pause. */
  ghost predicate Linked(spans: seq<FrameSpan>, active: seq<bool>, pause: nat, k: nat) {
    && k < |spans|
    && Solid(spans[k], active, pause)
    && Quiet(active, Reach(spans, k), spans[k].start)
    && (k > 0 ==> Reach(spans, k) + pause <= spans[k].start)
  }

  ghost predicate CanonicalBelow(spans: seq<FrameSpan>, active: seq<bool>, pause: nat, limit: nat) {
    && (forall k: nat :: k < |spans| ==> Linked(spans, active, pause, k))
    && Quiet(active, Reach(spans, |spans|), limit)
  }

  ghost predicate Canonical(spans: seq<FrameSpan>, active: seq<bool>, minPauseFrames: nat) {
    CanonicalBelow(spans, active, Pause(minPauseFrames), |active|)
  }

  lemma {:induction false} InSomeSpan(spans: seq<FrameSpan>, active: seq<bool>, pause: nat, n: nat, i: nat)
    returns (k: nat)
    requires n <= |spans| && (forall k: nat :: k < |spans| ==> Linked(spans, active, pause, k))
    requires i < Reach(spans, n) && i < |active| && active[i]
    ensures k < n && spans[k].start <= i < spans[k].end
    decreases n
  {
    assert Linked(spans, active, pause, n - 1);
    if i >= spans[n - 1].start {
      k := n - 1;
    } else {
      assert i < Reach(spans, n - 1);
      k := InSomeSpan(spans, active, pause, n - 1, i);
    }
  }

  /** Every active frame lies in a span. */
  lemma CoversActive(spans: seq<FrameSpan>, active: seq<bool>, min: nat, i: nat) returns (k: nat)
    requires Canonical(spans, active, min) && i < |active| && active[i]
    ensures k < |spans| && spans[k].start <= i < spans[k].end
  {
    assert i < Reach(spans, |spans|);
    k := InSomeSpan(spans, active, Pause(min), |spans|, i);
  }

  /** Spans lie at least the pause apart, and at least a frame; no silence inside one is as long as the pause. */
  lemma PauseExactly(spans: seq<FrameSpan>, active: seq<bool>, minPauseFrames: nat, k: nat)
    requires Canonical(spans, active, minPauseFrames) && k < |spans|
    ensures k + 1 < |spans| ==>
              spans[k].end + minPauseFrames <= spans[k + 1].start && spans[k].end < spans[k + 1].start
    ensures forall a, b :: spans[k].start <= a < b <= spans[k].end && Quiet(active, a, b) ==> b - a < minPauseFrames
  {
    assert Linked(spans, active, Pause(minPauseFrames), k);
    assert k + 1 < |spans| ==> Linked(spans, active, Pause(minPauseFrames), k + 1);
  }

  // ---------------------------------------------------------------------
  // There is only one canonical list
  // ---------------------------------------------------------------------

  /** What follows span i: quiet for at least a pause, or to the end. */
  lemma QuietAfter(a: seq<FrameSpan>, active: seq<bool>, min: nat, i: nat, f: nat)
    requires Canonical(a, active, min) && i < |a| && a[i].end <= f < |active| && active[f]
    ensures f >= a[i].end + Pause(min) && Quiet(active, a[i].end, a[i].end + Pause(min))
  {
    if i + 1 < |a| {
      assert Linked(a, active, Pause(min), i + 1);
      assert Quiet(active, a[i].end, a[i + 1].start);
    }
  }

  lemma NoLaterEnd(a: seq<FrameSpan>, b: seq<FrameSpan>, active: seq<bool>, min: nat, i: nat)
    requires Canonical(a, active, min) && Canonical(b, active, min) && i < |a| && i < |b|
    requires a[i].start == b[i].start
    ensures b[i].end <= a[i].end
  {
    assert Linked(a, active, Pause(min), i) && Linked(b, active, Pause(min), i);
    if a[i].end < b[i].end {
      QuietAfter(a, active, min, i, b[i].end - 1);
      assert false;
    }
  }

  lemma SameSpan(a: seq<FrameSpan>, b: seq<FrameSpan>, active: seq<bool>, min: nat, i: nat)
    requires Canonical(a, active, min) && Canonical(b, active, min) && i < |a| && i <= |b|
    requires Reach(a, i) == Reach(b, i)
    ensures i < |b| && a[i] == b[i]
  {
    assert Linked(a, active, Pause(min), i);
    assert i < |b|;
    assert Linked(b, active, Pause(min), i);
    NoLaterEnd(a, b, active, min, i);
    NoLaterEnd(b, a, active, min, i);
  }

  lemma {:induction false} SameSpans(a: seq<FrameSpan>, b: seq<FrameSpan>, active: seq<bool>, min: nat, n: nat)
    requires Canonical(a, active, min) && Canonical(b, active, min) && n <= |a|
    ensures n <= |b| && forall i :: 0 <= i < n ==> a[i] == b[i]
    decreases n
  {
    if n > 0 {
      SameSpans(a, b, active, min, n - 1);
      SameSpan(a, b, active, min, n - 1);
    }
  }

  /** Two canonical lists of the same activity are the same list. */
  lemma CanonicalIsUnique(a: seq<FrameSpan>, b: seq<FrameSpan>, active: seq<bool>, min: nat)
    requires Canonical(a, active, min) && Canonical(b, active, min)
    ensures a == b
  {
    SameSpans(a, b, active, min, |a|);
    SameSpans(b, a, active, min, |b|);
  }

  // ---------------------------------------------------------------------
  // Merging
  // ---------------------------------------------------------------------

  ghost predicate AllActive(active: seq<bool>, a: int, b: int) {
    0 <= a <= b <= |active| && forall i :: a <= i < b ==> active[i]
  }

  lemma ActiveBreaksQuiet(active: seq<bool>, i: nat, a: nat, b: nat)
    requires i < |active| && active[i] && a <= i < b
    ensures !Quiet(active, a, b)
  {
  }

  lemma ActiveIsSolid(active: seq<bool>, a: nat, b: nat, pause: nat)
    requires AllActive(active, a, b) && a < b && pause >= 1
    ensures Solid(FrameSpan(a, b), active, pause)
  {
    forall x, y | a <= x <= y <= b && Quiet(active, x, y) ensures y - x < pause {
      if x < y {
        ActiveBreaksQuiet(active, x, x, y);
      }
    }
  }

  /** A new span after a quiet stretch of at least the pause. */
  lemma AppendNext(spans: seq<FrameSpan>, active: seq<bool>, pause: nat, s: FrameSpan)
    requires CanonicalBelow(spans, active, pause, s.start) && Solid(s, active, pause)
    requires spans != [] ==> Reach(spans, |spans|) + pause <= s.start
    ensures CanonicalBelow(spans + [s], active, pause, s.end)
  {
    var more := spans + [s];
    forall k: nat | k < |more| ensures Linked(more, active, pause, k) {
      assert Reach(more, k) == Reach(spans, k);
      assert k < |spans| ==> Linked(spans, active, pause, k);
    }
  }

  /** The last span grown over a gap shorter than the pause. */
  lemma GrowLast(spans: seq<FrameSpan>, active: seq<bool>, pause: nat, s: FrameSpan)
    requires spans != [] && pause >= 1 && AllActive(active, s.start, s.end) && s.start < s.end
    requires CanonicalBelow(spans, active, pause, s.start) && s.start - Reach(spans, |spans|) < pause
    ensures CanonicalBelow(spans[|spans| - 1 := spans[|spans| - 1].(end := s.end)], active, pause, s.end)
  {
    var n := |spans| - 1;
    var last, grown := spans[n], spans[n].(end := s.end);
    assert Linked(spans, active, pause, n);
    forall a, b | grown.start <= a <= b <= grown.end && Quiet(active, a, b) ensures b - a < pause {
      if b > s.start && a < b {
        ActiveBreaksQuiet(active, if a > s.start then a else s.start, a, b);
      }
      if a < last.end < b {
        assert false;
      }
    }
    assert Solid(grown, active, pause);
    var more := spans[n := grown];
    forall k: nat | k < |more| ensures Linked(more, active, pause, k) {
      assert Reach(more, k) == Reach(spans, k);
      assert Linked(spans, active, pause, k);
    }
  }

  method RawSpans(active: seq<bool>) returns (raw: seq<FrameSpan>)
    ensures Canonical(raw, active, 1)
    ensures forall k :: 0 <= k < |raw| ==> AllActive(active, raw[k].start, raw[k].end)
  {
    raw := [];
    var index := 0;
    while index < |active|
      invariant index <= |active|
      invariant CanonicalBelow(raw, active, 1, index)
      invariant raw != [] && Reach(raw, |raw|) == index < |active| ==> !active[index]
      invariant forall k :: 0 <= k < |raw| ==> AllActive(active, raw[k].start, raw[k].end)
    {
      while index < |active| && !active[index]
        invariant index <= |active|
        invariant CanonicalBelow(raw, active, 1, index)
        invariant raw != [] && Reach(raw, |raw|) == index < |active| ==> !active[index]
      {
        index := index + 1;
      }
      if index >= |active| {
        break;
      }
      var start := index;
      while index < |active| && active[index]
        invariant start <= index <= |active| && AllActive(active, start, index)
        decreases |active| - index
      {
        index := index + 1;
      }
      ActiveIsSolid(active, start, index, 1);
      AppendNext(raw, active, 1, FrameSpan(start, index));
      raw := raw + [FrameSpan(start, index)];
    }
  }

  method MergeActiveSpans(active: seq<bool>, minPauseFrames: nat) returns (merged: seq<FrameSpan>)
    ensures Canonical(merged, active, minPauseFrames)
  {
    var rawSpans := RawSpans(active);
    merged := [];
    ghost var pause := Pause(minPauseFrames);
    for n := 0 to |rawSpans|
      invariant CanonicalBelow(merged, active, pause, Reach(rawSpans, n))
      invariant Reach(merged, |merged|) == Reach(rawSpans, n)
      invariant merged == [] <==> n == 0
    {
      assert Linked(rawSpans, active, 1, n);
      var span := rawSpans[n];
      assert CanonicalBelow(merged, active, pause, span.start);
      if merged != [] {
        var last := merged[|merged| - 1];
        var gap := if span.start > last.end then span.start - last.end else 0;
        if gap < minPauseFrames {
          GrowLast(merged, active, pause, span);
          merged := merged[|merged| - 1 := last.(end := span.end)];
          continue;
        }
      }
      ActiveIsSolid(active, span.start, span.end, pause);
      AppendNext(merged, active, pause, span);
      merged := merged + [span];
    }
  }

  // ---------------------------------------------------------------------
  // The gaps between
  // ---------------------------------------------------------------------

  /** The lengths of the stretches between consecutive spans. */
  ghost function Gaps(spans: seq<FrameSpan>): seq<int> {
    if |spans| < 2 then []
    else Gaps(spans[..|spans| - 1]) + [spans[|spans| - 1].start - spans[|spans| - 2].end]
  }

  method InteriorGapLengths(active: seq<bool>, ghost spans: seq<FrameSpan>) returns (gaps: seq<nat>)
    requires Canonical(spans, active, 1)
    ensures gaps == Gaps(spans)
  {
    gaps := [];
    var seenActive, inGap, gapLen := false, false, 0;
    ghost var k := 0;
    for i := 0 to |active|
      invariant k <= |spans|
      invariant Follows(spans, active, k, i, seenActive, inGap, gapLen)
      invariant gaps == Gaps(spans[..k])
    {
      FollowsNext(spans, active, k, i, seenActive, inGap, gapLen);
      if active[i] {
        if inGap && seenActive {
          assert spans[..k + 1][..k] == spans[..k];
          gaps := gaps + [gapLen];
          gapLen := 0;
          inGap := false;
          k := k + 1;
        } else if !seenActive {
          assert spans[..1][..0] == [];
          k := 1;
        }
        seenActive := true;
        continue;
      }
      if seenActive {
        inGap := true;
        gapLen := gapLen + 1;
      }
    }
    FollowsEnd(spans, active, k, seenActive, inGap, gapLen);
    assert spans[..|spans|] == spans;
  }

  /** Before frame i, k spans have started; the counters measure the stretch since the last of them ended. */
  ghost predicate Follows(spans: seq<FrameSpan>, active: seq<bool>, k: nat, i: nat, seen: bool, inGap: bool, gapLen: nat) {
    && k <= |spans| && i <= |active|
    && (seen <==> k > 0) && (inGap ==> seen)
    && (k > 0 ==> spans[k - 1].start < i && (inGap <==> i > spans[k - 1].end))
    && gapLen == (if inGap then i - spans[k - 1].end else 0)
    && (k < |spans| ==> i <= spans[k].start)
  }

  lemma FollowsNext(spans: seq<FrameSpan>, active: seq<bool>, k: nat, i: nat, seen: bool, inGap: bool, gapLen: nat)
    requires Canonical(spans, active, 1) && i < |active| && Follows(spans, active, k, i, seen, inGap, gapLen)
    ensures active[i] <==> (k > 0 && i < spans[k - 1].end) || (k < |spans| && i == spans[k].start)
    ensures k < |spans| && i == spans[k].start ==> spans[k].start < spans[k].end && (seen ==> inGap)
    ensures k + 1 < |spans| ==> spans[k].end < spans[k + 1].start
  {
    if k > 0 {
      assert Linked(spans, active, 1, k - 1);
      if i < spans[k - 1].end {
        assert !active[i] ==> Quiet(active, i, i + 1);
      }
    }
    if k < |spans| {
      assert Linked(spans, active, 1, k);
    }
    if k + 1 < |spans| {
      assert Linked(spans, active, 1, k + 1);
    }
  }

  lemma FollowsEnd(spans: seq<FrameSpan>, active: seq<bool>, k: nat, seen: bool, inGap: bool, gapLen: nat)
    requires Canonical(spans, active, 1) && Follows(spans, active, k, |active|, seen, inGap, gapLen)
    ensures k == |spans|
  {
    forall j: nat | j < |spans| ensures spans[j].start < |active| {
      assert Linked(spans, active, 1, j);
    }
  }

  // ---------------------------------------------------------------------
  // Choosing a span
  // ---------------------------------------------------------------------

  function OverlapLen(l: FrameSpan, r: FrameSpan): nat {
    var end, start := Min(l.end, r.end), Max(l.start, r.start);
    if end > start then end - start else 0
  }

  function SpanLen(s: FrameSpan): nat { if s.end > s.start then s.end - s.start else 0 }

  /** Twice the distance of the centres. */
  function CenterDistance(l: FrameSpan, r: FrameSpan): nat {
    var d := l.start + l.end - (r.start + r.end);
    if d < 0 then -d else d
  }

  /** Overlap first, then nearness of the centre, then length. */
  predicate Better(l: FrameSpan, r: FrameSpan, target: FrameSpan) {
    var lo, ro := OverlapLen(l, target), OverlapLen(r, target);
    var ld, rd := CenterDistance(l, target), CenterDistance(r, target);
    lo > ro || (lo == ro && (ld < rd || (ld == rd && SpanLen(l) > SpanLen(r))))
  }

  /** None of the spans is better, and of the equally good ones it is the last. */
  ghost predicate IsBest(spans: seq<FrameSpan>, k: nat, target: FrameSpan) {
    && k < |spans|
    && (forall j :: 0 <= j < |spans| ==> !Better(spans[j], spans[k], target))
    && (forall j :: k < j < |spans| ==> Better(spans[k], spans[j], target))
  }

  /** The next span takes over unless the best so far is better. */
  lemma BestOfOneMore(spans: seq<FrameSpan>, k: nat, n: nat, target: FrameSpan)
    requires n < |spans| && IsBest(spans[..n], k, target)
    ensures IsBest(spans[..n + 1], if Better(spans[k], spans[n], target) then k else n, target)
  {
    var seen := spans[..n];
    assert spans[..n + 1] == seen + [spans[n]];
    assert forall j :: 0 <= j < n ==> spans[j] == seen[j];
  }

  method BestPauseBoundedSpan(active: seq<bool>, candidateStart: nat, candidateEnd: nat, minPauseFrames: nat)
    returns (best: Option<FrameSpan>, ghost spans: seq<FrameSpan>, ghost k: nat)
    ensures Canonical(spans, active, minPauseFrames)
    ensures best.None? <==> forall i :: 0 <= i < |active| ==> !active[i]
    ensures best.Some? ==>
      var target := FrameSpan(Min(candidateStart, |active|), Min(candidateEnd, |active|));
      IsBest(spans, k, target) && best.value == spans[k]
    ensures best.Some? ==> forall s :: s in spans ==>
      OverlapLen(s, FrameSpan(Min(candidateStart, |active|), Min(candidateEnd, |active|)))
        <= OverlapLen(best.value, FrameSpan(Min(candidateStart, |active|), Min(candidateEnd, |active|)))
  {
    var merged := MergeActiveSpans(active, minPauseFrames);
    spans, k := merged, 0;
    if merged == [] {
      return None, spans, k;
    }
    assert Linked(merged, active, Pause(minPauseFrames), 0);
    var target := FrameSpan(Min(candidateStart, |active|), Min(candidateEnd, |active|));
    var chosen := merged[0];
    for n := 1 to |merged|
      invariant IsBest(merged[..n], k, target) && chosen == merged[k]
    {
      BestOfOneMore(merged, k, n, target);
      if !Better(chosen, merged[n], target) {
        chosen, k := merged[n], n;
      }
    }
    assert merged[..|merged|] == merged;
    best := Some(chosen);
  }

  // ---------------------------------------------------------------------
  // The choice in terms of frames
  // ---------------------------------------------------------------------

  /** The frames from start up to end. */
  ghost function Frames(start: nat, end: nat): (fs: set<nat>)
    ensures forall i: nat :: i in fs <==> start <= i < end
    ensures |fs| == if start < end then end - start else 0
    decreases end
  {
    if start >= end then {} else Frames(start, end - 1) + {end - 1}
  }

  /** The frames in both spans. */
  ghost function SharedFrames(l: FrameSpan, r: FrameSpan): set<nat> { Frames(l.start, l.end) * Frames(r.start, r.end) }

  lemma OverlapIsShared(l: FrameSpan, r: FrameSpan)
    ensures OverlapLen(l, r) == |SharedFrames(l, r)|
  {
    assert SharedFrames(l, r) == Frames(Max(l.start, r.start), Min(l.end, r.end));
  }

  /**
    Against every other span the chosen one shares more frames with the target, or as many
    and its middle is nearer, or as near and it is longer, or as long and it comes later.
  */
  lemma BestExactly(spans: seq<FrameSpan>, k: nat, target: FrameSpan, j: nat)
    requires IsBest(spans, k, target) && j < |spans|
    requires spans[j].start <= spans[j].end && spans[k].start <= spans[k].end
    ensures var here, there := |SharedFrames(spans[k], target)|, |SharedFrames(spans[j], target)|;
            var off := spans[k].start + spans[k].end - target.start - target.end;
            var away := spans[j].start + spans[j].end - target.start - target.end;
            var far, farther := if off < 0 then -off else off, if away < 0 then -away else away;
            var len, other := spans[k].end - spans[k].start, spans[j].end - spans[j].start;
            || here > there
            || (here == there && far < farther)
            || (here == there && far == farther && len > other)
            || (here == there && far == farther && len == other && k >= j)
  {
    OverlapIsShared(spans[k], target);
    OverlapIsShared(spans[j], target);
    assert !Better(spans[j], spans[k], target);
    assert k < j ==> Better(spans[k], spans[j], target);
  }
}
