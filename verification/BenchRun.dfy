/** The bench's timestamps for the characters that its decoder really appends. */
module BenchRun {
  import opened Arithmetic
  import opened Keying
  import A = AppendDecoder
  import G = GateClock

  // ---------------------------------------------------------------------
  // The decoder only appends text
  // ---------------------------------------------------------------------

  lemma StepAppends(c: Copy, k: Kind)
    ensures c.text <= Step(c, k, AppendChar).text
  {}

  lemma FlushAppends(c: Copy)
    ensures c.text <= Flush(c, AppendChar).text
  {}

  lemma {:induction false} TakeAllAppends(log: A.Log, reports: seq<A.Report>, stable: nat)
    ensures log.copy.text <= A.TakeAll(log, reports, stable).copy.text
  {
    if reports != [] {
      var init, r := reports[..|reports| - 1], reports[|reports| - 1];
      TakeAllAppends(log, init, stable);
      StepAppends(A.TakeAll(log, init, stable).copy, r.kind);
      var a, b, c := log.copy.text, A.TakeAll(log, init, stable).copy.text, A.TakeAll(log, reports, stable).copy.text;
      PrefixOfPrefix(a, b, c);
    }
  }

  lemma PrefixOfPrefix(a: string, b: string, c: string)
    requires a <= b <= c
    ensures a <= c
  {
    assert forall i :: 0 <= i < |a| ==> a[i] == b[i] == c[i];
  }

  lemma {:induction false} RunAppends(frames: seq<A.VizFrame>, k: nat)
    requires k <= |frames|
    ensures A.IngestRun(A.FRESH, frames[..k]).copy.text <= A.IngestRun(A.FRESH, frames).copy.text
    decreases |frames|
  {
    if k == |frames| {
      assert frames[..k] == frames;
    } else {
      var init, f := frames[..|frames| - 1], frames[|frames| - 1];
      RunAppends(init, k);
      assert init[..k] == frames[..k];
      var log := A.IngestRun(A.FRESH, init);
      TakeAllAppends(log, A.Reports(f), A.StableEnd(f));
      PrefixOfPrefix(A.IngestRun(A.FRESH, frames[..k]).copy.text, log.copy.text, A.Ingest(log, f).copy.text);
    }
  }

  // ---------------------------------------------------------------------
  // The bench
  // ---------------------------------------------------------------------

  /** A frame of the run, its end in milliseconds, and whether the gate is open with a lock. */
  datatype Shot = Shot(viz: A.VizFrame, endMs: nat, gateOpen: bool)

  function VizOf(shots: seq<Shot>): seq<A.VizFrame> {
    seq(|shots|, i requires 0 <= i < |shots| => shots[i].viz)
  }

  function TextAfter(shots: seq<Shot>, k: nat): string
    requires k <= |shots|
  {
    A.IngestRun(A.FRESH, VizOf(shots)[..k]).copy.text
  }

  /** The frames as the clock sees them: with the length of the text decoded so far. */
  function FramesOf(shots: seq<Shot>): seq<G.Frame> {
    seq(|shots|, i requires 0 <= i < |shots| => G.Frame(shots[i].endMs, shots[i].gateOpen, |TextAfter(shots, i + 1)|))
  }

  ghost predicate InOrder(shots: seq<Shot>, endMs: nat) {
    && (forall i, j :: 0 <= i < j < |shots| ==> shots[i].endMs <= shots[j].endMs)
    && (forall i :: 0 <= i < |shots| ==> shots[i].endMs <= endMs)
  }

  lemma TextGrows(shots: seq<Shot>, i: nat, j: nat)
    requires i <= j <= |shots|
    ensures |TextAfter(shots, i)| <= |TextAfter(shots, j)|
  {
    RunAppends(VizOf(shots)[..j], i);
    assert VizOf(shots)[..j][..i] == VizOf(shots)[..i];
  }

  lemma FramesForward(shots: seq<Shot>, endMs: nat)
    requires InOrder(shots, endMs)
    ensures G.Forward(FramesOf(shots))
  {
    forall i, j | 0 <= i < j < |shots|
      ensures FramesOf(shots)[i].endMs <= FramesOf(shots)[j].endMs
      ensures FramesOf(shots)[i].textLen <= FramesOf(shots)[j].textLen
    {
      TextGrows(shots, i + 1, j + 1);
    }
  }

  /** After the run and the final flush there is one timestamp for every character decoded, and they never go back. */
  lemma EveryCharacterIsStamped(shots: seq<Shot>, endMs: nat)
    requires InOrder(shots, endMs)
    ensures var text := A.FlushLog(A.IngestRun(A.FRESH, VizOf(shots))).copy.text;
            var c := G.Finish(G.RunClock(FramesOf(shots)), endMs, |text|);
            |c.charTimes| == |text| && NonDecreasing(c.charTimes)
  {
    var log := A.IngestRun(A.FRESH, VizOf(shots));
    FramesForward(shots, endMs);
    FlushAppends(log.copy);
    assert VizOf(shots)[..|shots|] == VizOf(shots);
    G.OneStampPerCharacter(FramesOf(shots), endMs, |A.FlushLog(log).copy.text|);
  }
}
