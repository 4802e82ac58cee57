/** The capture ring buffer and the live loop that drains it, as interleaved steps. */
module RingDrain {
  // ---------------------------------------------------------------------
  // The ring
  // ---------------------------------------------------------------------

  /** The last n samples of a stream, or all of them. */
  function LastOf<T>(s: seq<T>, n: nat): seq<T> {
    if |s| <= n then s else s[|s| - n..]
  }

  class RingBuffer<T> {
    const capacity: nat
    var data: seq<T>
    var written: nat
    /** Everything ever pushed. */
    ghost var stream: seq<T>

    /** The buffer holds the last min(written, capacity) samples of the stream. */
    ghost predicate Valid()
      reads this
    {
      written == |stream| && data == LastOf(stream, capacity)
    }

    constructor (capacity0: nat)
      ensures Valid() && capacity == capacity0 && stream == []
    {
      capacity, data, written, stream := capacity0, [], 0, [];
    }

    method PushSlice(samples: seq<T>)
      requires Valid()
      modifies this
      ensures Valid() && stream == old(stream) + samples
    {
      written := written + |samples|;
      stream := stream + samples;
      if |samples| >= capacity {
        var start := |samples| - capacity;
        data := samples[start..];
        return;
      }
      var total := |data| + |samples|;
      if total > capacity {
        data := data[total - capacity..];
      }
      data := data + samples;
    }

    /** One pass of the live loop: the samples written since the last drain, as far as the ring still holds them. */
    method Drain(lastDrainAt: nat) returns (chunk: seq<T>, drainAt: nat)
      requires Valid() && lastDrainAt <= written
      ensures chunk == LastOf(stream[lastDrainAt..], capacity)
      ensures drainAt == if chunk == [] then lastDrainAt else |stream|
    {
      var total := written;
      var avail := |data|;
      var want := if total - lastDrainAt < avail then total - lastDrainAt else avail;
      if want == 0 {
        return [], lastDrainAt;
      }
      var start := |data| - want;
      return data[start..], total;
    }
  }

  // ---------------------------------------------------------------------
  // Whole runs
  // ---------------------------------------------------------------------

  /** A step of either side: the callback pushes, or the loop drains. */
  datatype Action<T> = Push(samples: seq<T>) | Read

  /** What has been pushed, up to where it was drained, and the chunks handed on with the place each starts. */
  datatype World<T> = World(stream: seq<T>, drainAt: nat, chunks: seq<(nat, seq<T>)>)

  function Step<T(==)>(w: World<T>, a: Action<T>, capacity: nat): World<T>
    requires w.drainAt <= |w.stream|
  {
    match a
    case Push(samples) => w.(stream := w.stream + samples)
    case Read =>
      var chunk := LastOf(w.stream[w.drainAt..], capacity);
      if chunk == [] then w
      else World(w.stream, |w.stream|, w.chunks + [(|w.stream| - |chunk|, chunk)])
  }

  ghost predicate Sane<T>(w: World<T>) {
    && w.drainAt <= |w.stream|
    && (forall i :: 0 <= i < |w.chunks| ==> Placed(w, i))
    && (forall i :: 0 <= i < |w.chunks| - 1 ==> ChunkEnd(w.chunks[i]) <= w.chunks[i + 1].0)
    && (w.chunks != [] ==> ChunkEnd(w.chunks[|w.chunks| - 1]) == w.drainAt)
    && (w.chunks == [] ==> w.drainAt == 0)
  }

  function ChunkEnd<T>(c: (nat, seq<T>)): nat { c.0 + |c.1| }

  /** Chunk i is the stretch of the stream starting where it says. */
  ghost predicate Placed<T>(w: World<T>, i: nat)
    requires i < |w.chunks|
  {
    ChunkEnd(w.chunks[i]) <= |w.stream| && w.chunks[i].1 == w.stream[w.chunks[i].0..ChunkEnd(w.chunks[i])]
  }

  function Run<T(==)>(actions: seq<Action<T>>, capacity: nat): (w: World<T>)
    ensures w.drainAt <= |w.stream|
  {
    if actions == [] then World([], 0, [])
    else Step(Run(actions[..|actions| - 1], capacity), actions[|actions| - 1], capacity)
  }

  lemma PushStep<T>(w: World<T>, samples: seq<T>, capacity: nat)
    requires Sane(w)
    ensures Sane(Step(w, Push(samples), capacity))
  {
    PushKeepsSane(w, w.(stream := w.stream + samples));
  }

  lemma ReadStep<T>(w: World<T>, capacity: nat)
    requires Sane(w)
    ensures Sane(Step(w, Read, capacity))
  {
    LastOfEnds(w.stream, w.drainAt, capacity);
    ReadKeepsSane(w, LastOf(w.stream[w.drainAt..], capacity), Step(w, Read, capacity));
  }

  lemma LastOfEnds<T>(s: seq<T>, from: nat, n: nat)
    requires from <= |s|
    ensures var chunk := LastOf(s[from..], n); |chunk| <= |s| - from && chunk == s[|s| - |chunk|..]
  {}

  lemma PushKeepsSane<T>(w: World<T>, w': World<T>)
    requires Sane(w) && w.stream <= w'.stream && w' == w.(stream := w'.stream)
    ensures Sane(w')
  {
    forall i | 0 <= i < |w'.chunks| ensures Placed(w', i) {
      StaysPlaced(w, w', i);
    }
  }

  /** A chunk that ends with the stream, from no earlier than the last drain, follows the chunks before it. */
  lemma ReadKeepsSane<T>(w: World<T>, chunk: seq<T>, w': World<T>)
    requires Sane(w) && |chunk| <= |w.stream| - w.drainAt && chunk == w.stream[|w.stream| - |chunk|..]
    requires w' == if chunk == [] then w else World(w.stream, |w.stream|, w.chunks + [(|w.stream| - |chunk|, chunk)])
    ensures Sane(w')
  {
    if chunk != [] {
      forall i | 0 <= i < |w'.chunks| ensures Placed(w', i) {
        if i < |w.chunks| {
          StaysPlaced(w, w', i);
        }
      }
    }
  }

  lemma StaysPlaced<T>(w: World<T>, w': World<T>, i: nat)
    requires i < |w.chunks| && Placed(w, i)
    requires w.stream <= w'.stream && w.chunks <= w'.chunks
    ensures Placed(w', i)
  {
    assert w'.chunks[i] == w.chunks[i];
  }

  lemma StepKeepsSane<T>(w: World<T>, a: Action<T>, capacity: nat)
    requires Sane(w)
    ensures Sane(Step(w, a, capacity))
  {
    match a
    case Push(samples) => PushStep(w, samples, capacity);
    case Read => ReadStep(w, capacity);
  }

  /** Chunks come in order and never overlap, and each is a stretch of the stream: no sample is delivered twice. */
  lemma {:induction false} DeliveredInOrder<T>(actions: seq<Action<T>>, capacity: nat)
    ensures Sane(Run(actions, capacity))
  {
    if actions != [] {
      DeliveredInOrder(actions[..|actions| - 1], capacity);
      StepKeepsSane(Run(actions[..|actions| - 1], capacity), actions[|actions| - 1], capacity);
    }
  }

  function Concat<T>(chunks: seq<(nat, seq<T>)>): seq<T> {
    if chunks == [] then [] else Concat(chunks[..|chunks| - 1]) + chunks[|chunks| - 1].1
  }

  /** At every drain at most a ring's worth of samples is waiting. */
  ghost predicate NeverLags<T>(actions: seq<Action<T>>, capacity: nat) {
    forall k :: 0 <= k < |actions| && actions[k].Read? ==> Lag(actions[..k], capacity) <= capacity
  }

  ghost function Lag<T>(actions: seq<Action<T>>, capacity: nat): nat {
    var w := Run(actions, capacity);
    |w.stream| - w.drainAt
  }

  /** One drain: it delivers everything waiting exactly when that fits the ring. */
  lemma ReadDelivers<T>(w: World<T>, capacity: nat)
    requires w.drainAt <= |w.stream| && capacity > 0 && |Concat(w.chunks)| <= w.drainAt
    ensures var w' := Step(w, Read, capacity);
            && |Concat(w'.chunks)| <= w'.drainAt
            && (|Concat(w'.chunks)| == w'.drainAt <==> |Concat(w.chunks)| == w.drainAt && |w.stream| - w.drainAt <= capacity)
            && (|w.stream| - w.drainAt <= capacity && Concat(w.chunks) == w.stream[..w.drainAt]
                ==> Concat(w'.chunks) == w'.stream[..w'.drainAt])
  {
    var waiting := w.stream[w.drainAt..];
    var chunk := LastOf(waiting, capacity);
    if chunk != [] {
      var w' := Step(w, Read, capacity);
      assert w'.chunks[..|w.chunks|] == w.chunks;
      assert Concat(w'.chunks) == Concat(w.chunks) + chunk;
      assert w.stream == w.stream[..w.drainAt] + waiting;
      assert w'.stream[..w'.drainAt] == w.stream;
    }
  }

  /** What is delivered is the stream itself, up to the last drain, exactly when no drain finds more waiting than the ring holds. */
  lemma {:induction false} DeliversExactly<T>(actions: seq<Action<T>>, capacity: nat)
    requires capacity > 0
    ensures var w := Run(actions, capacity);
            && |Concat(w.chunks)| <= w.drainAt
            && (Concat(w.chunks) == w.stream[..w.drainAt] <==> NeverLags(actions, capacity))
            && (NeverLags(actions, capacity) <==> |Concat(w.chunks)| == w.drainAt)
  {
    if actions != [] {
      var init, a := actions[..|actions| - 1], actions[|actions| - 1];
      var w, w' := Run(init, capacity), Run(actions, capacity);
      DeliversExactly(init, capacity);
      LagSplit(actions, capacity);
      match a {
        case Push(samples) =>
          assert w'.stream[..w.drainAt] == w.stream[..w.drainAt];
        case Read =>
          ReadDelivers(w, capacity);
      }
    }
  }

  lemma LagSplit<T>(actions: seq<Action<T>>, capacity: nat)
    requires actions != []
    ensures var init := actions[..|actions| - 1];
            NeverLags(actions, capacity) <==>
              NeverLags(init, capacity) && (actions[|actions| - 1].Read? ==> Lag(init, capacity) <= capacity)
  {
    var init := actions[..|actions| - 1];
    forall k | 0 <= k < |init| ensures init[..k] == actions[..k] && init[k] == actions[k] {
    }
  }
}
