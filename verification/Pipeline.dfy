/**
  The decoders against each other and against the encoder: the live append
  decoder prints what the batch decoder prints, and so the text that was keyed.
*/
module Pipeline {
  import opened Text
  import opened MorseCode
  import opened Keying
  import opened Encoding
  import opened AppendDecoder
  import RoughFist

  /** Elements and the gaps between them, with or without a gap after the last. */
  ghost predicate Alternating(ons: seq<real>, offs: seq<real>) {
    |offs| <= |ons| <= |offs| + 1
  }

  /** The classified events the visualiser draws for them. */
  ghost function VizKinds(ons: seq<real>, offs: seq<real>, dot: real): seq<Kind> {
    Interleave(ons, offs, dot, |ons|)
  }

  lemma {:induction false} InterleaveAt(ons: seq<real>, offs: seq<real>, dot: real, m: nat)
    requires m <= |ons| && m <= |offs| + 1
    ensures var k := Interleave(ons, offs, dot, m);
            && |k| == m + (if m <= |offs| then m else |offs|)
            && (forall i :: 0 <= i < |k| && i % 2 == 0 ==> i / 2 < |ons| && k[i] == Classify(true, ons[i / 2], dot))
            && (forall i :: 0 <= i < |k| && i % 2 == 1 ==> i / 2 < |offs| && k[i] == Classify(false, offs[i / 2], dot))
    decreases m
  {
    if m > 0 {
      InterleaveAt(ons, offs, dot, m - 1);
    }
  }

  /** The first n events are the events of the first elements and gaps. */
  lemma VizKindsPrefix(ons: seq<real>, offs: seq<real>, dot: real, n: nat)
    requires Alternating(ons, offs) && n <= |ons| + |offs|
    ensures |VizKinds(ons, offs, dot)| == |ons| + |offs|
    ensures VizKinds(ons[..(n + 1) / 2], offs[..n / 2], dot) == VizKinds(ons, offs, dot)[..n]
  {
    InterleaveAt(ons, offs, dot, |ons|);
    InterleaveAt(ons[..(n + 1) / 2], offs[..n / 2], dot, (n + 1) / 2);
  }

  /** What the append decoder has printed, once flushed, up to a trailing space. */
  ghost function Printed(frames: seq<VizFrame>): string {
    TrimEnd(FlushLog(IngestRun(FRESH, frames)).copy.text)
  }

  /** What the batch decoder prints. */
  ghost function BatchText(ons: seq<real>, offs: seq<real>, dot: real): string {
    Copied(VizKinds(ons, offs, dot), BatchChar)
  }

  /**
    The two decoders agree: after any good run over classified events, the append
    decoder has printed the batch decoder's text for the n events that were ever
    stable, with '?' where the batch decoder puts '*'.
  */
  lemma DecodersAgree(t: Timeline, jitter: nat, sights: seq<Sight>, ons: seq<real>, offs: seq<real>, dot: real)
    returns (n: nat)
    requires GoodRun(t, jitter, sights) && Alternating(ons, offs) && t.kinds == VizKinds(ons, offs, dot)
    ensures n <= |ons| + |offs| && StableUpTo(sights, n)
    ensures Printed(Frames(sights)) == Remark(BatchText(ons[..(n + 1) / 2], offs[..n / 2], dot))
  {
    n := ExactlyOnce(t, jitter, sights);
    VizKindsPrefix(ons, offs, dot, |ons| + |offs|);
    VizKindsPrefix(ons, offs, dot, n);
    CopiedRemarked(t.kinds[..n]);
  }

  /**
    End to end: a text keyed within the rough-fist bounds, heard, classified at the
    nominal dot and shown in overlapping windows until every event was stable, is
    printed by the live decoder as its words joined by single spaces.
  */
  lemma KeyedTextIsPrinted(words: seq<string>, fist: RoughFist.Fist, top: real, t: Timeline, jitter: nat, sights: seq<Sight>)
    requires RoughFist.ValidFist(fist, top) && RoughFist.Survives(top, fist.jitter, fist.dahRatio, fist.ditWeight)
    requires var h := Listen(Timed(RoughFist.FistKinds(words), RoughFist.Lengths(fist)));
             t.kinds == VizKinds(h.ons, h.offs, fist.dot)
    requires GoodRun(t, jitter, sights)
    requires forall k :: 0 <= k < |t.kinds| ==> EverStable(sights, k)
    ensures Printed(Frames(sights)) == Joined(words, MorseForChar)
  {
    var h := Listen(Timed(RoughFist.FistKinds(words), RoughFist.Lengths(fist)));
    var n := DecodersAgree(t, jitter, sights, h.ons, h.offs, fist.dot);
    VizKindsPrefix(h.ons, h.offs, fist.dot, n);
    assert !EverStable(sights, n);
    assert h.ons[..(n + 1) / 2] == h.ons && h.offs[..n / 2] == h.offs;
    RoughFist.DecodedIsJoined(words, fist, top);
    TablesSend();
    JoinedHasNoMark(words, MorseForChar);
  }
}
