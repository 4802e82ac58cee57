/**
  The multi-pitch streamer's persistent track ids: one decode cycle in place,
  and what a whole run of cycles keeps.
*/
module TrackIdentity {
  import opened Arithmetic
  import opened Wrappers
  import opened Assignment

  const U32: nat := 0x1_0000_0000

  datatype TrackState = TrackState(id: nat, pitch: real, transcript: string, unmatched: nat)

  /** One decoded spectral peak; its envelope decode is an arbitrary input. */
  datatype Peak = Peak(pitch: real, transcript: string)

  datatype Snapshot = Snapshot(id: nat, pitch: real, transcript: string, appended: string)

  function Pitches(tracks: seq<TrackState>): seq<real> {
    seq(|tracks|, i requires 0 <= i < |tracks| => tracks[i].pitch)
  }

  function PeakPitches(peaks: seq<Peak>): seq<real> {
    seq(|peaks|, i requires 0 <= i < |peaks| => peaks[i].pitch)
  }

  function WrappingAdd1(n: nat): nat { (n + 1) % U32 }

  // ---------------------------------------------------------------------
  // One cycle as a relation
  // ---------------------------------------------------------------------

  datatype State = State(tracks: seq<TrackState>, nextId: nat)

  ghost predicate IsMatch(m: Matching, tracks: seq<TrackState>, peaks: seq<Peak>, tol: real) {
    Legal(m, Pitches(tracks), PeakPitches(peaks), tol)
  }

  /** The id given to peak i, minted one by one for the unmatched peaks, and the counter after it. */
  function MintedBefore(m: Matching, nextId: nat, i: nat): nat
    requires i <= |m|
  {
    if i == 0 then nextId
    else
      var n := MintedBefore(m, nextId, i - 1);
      if m[i - 1].None? then WrappingAdd1(n) else n
  }

  ghost function PeakId(m: Matching, tracks: seq<TrackState>, nextId: nat, i: nat): nat
    requires i < |m|
  {
    if m[i].Some? && m[i].value < |tracks| then tracks[m[i].value].id else MintedBefore(m, nextId, i)
  }

  ghost function Refreshed(m: Matching, tracks: seq<TrackState>, nextId: nat, peaks: seq<Peak>): seq<TrackState>
    requires |m| == |peaks|
  {
    seq(|peaks|, i requires 0 <= i < |peaks| =>
      TrackState(PeakId(m, tracks, nextId, i), peaks[i].pitch, peaks[i].transcript, 0))
  }

  /** The first n tracks without the matched and the expired ones, each a cycle older. */
  ghost function Carried(m: Matching, tracks: seq<TrackState>, expiry: nat, n: nat): seq<TrackState>
    requires n <= |tracks|
  {
    if n == 0 then []
    else
      var t := tracks[n - 1];
      Carried(m, tracks, expiry, n - 1)
        + if Some(n - 1) !in m && t.unmatched + 1 < expiry then [t.(unmatched := t.unmatched + 1)] else []
  }

  ghost predicate Step(s: State, s': State, m: Matching, peaks: seq<Peak>, tol: real, expiry: nat) {
    && IsMatch(m, s.tracks, peaks, tol)
    && s' == State(Refreshed(m, s.tracks, s.nextId, peaks) + Carried(m, s.tracks, expiry, |s.tracks|),
                   MintedBefore(m, s.nextId, |m|))
  }

  // ---------------------------------------------------------------------
  // The streamer
  // ---------------------------------------------------------------------

  class LiveMultiPitchStreamer {
    var matchToleranceHz: real
    var expiryCycles: nat
    var nextTrackId: nat
    var tracks: seq<TrackState>

    constructor ()
      ensures matchToleranceHz == 40.0 && expiryCycles == 3 && nextTrackId == 0 && tracks == []
    {
      matchToleranceHz, expiryCycles, nextTrackId, tracks := 40.0, 3, 0, [];
    }

    ghost function Now(): State
      reads this
    {
      State(tracks, nextTrackId)
    }

    /** One decode cycle over the peaks found in the buffer. */
    method DecodeNow(peaks: seq<Peak>) returns (snapshots: seq<Snapshot>, ghost m: Matching)
      modifies this`tracks, this`nextTrackId
      ensures Step(old(Now()), Now(), m, peaks, matchToleranceHz, expiryCycles)
      ensures matchToleranceHz > 0.0 && Searchable(|old(tracks)|, |peaks|)
              ==> Optimal(m, Pitches(old(tracks)), PeakPitches(peaks), matchToleranceHz)
      ensures |snapshots| == |peaks|
      ensures forall i :: 0 <= i < |peaks| ==> IsSnapshot(snapshots[i], m, old(Now()), peaks, i)
    {
      var assignment := AssignTracks(Pitches(tracks), PeakPitches(peaks), matchToleranceHz);
      m := assignment;
      var newStates;
      newStates, snapshots := ServePeaks(assignment, peaks);
      var carried := CarryForward(assignment);
      tracks := newStates + carried;
    }

    /** A state and a snapshot for every peak; unmatched peaks mint new ids. */
    method ServePeaks(m: Matching, peaks: seq<Peak>) returns (states: seq<TrackState>, snapshots: seq<Snapshot>)
      requires IsMatch(m, tracks, peaks, matchToleranceHz)
      modifies this`nextTrackId
      ensures states == Refreshed(m, tracks, old(nextTrackId), peaks)
      ensures nextTrackId == MintedBefore(m, old(nextTrackId), |m|)
      ensures |snapshots| == |peaks|
      ensures forall i :: 0 <= i < |peaks| ==> IsSnapshot(snapshots[i], m, old(Now()), peaks, i)
    {
      ghost var before := Now();
      ghost var all := Refreshed(m, tracks, before.nextId, peaks);
      states, snapshots := [], [];
      for i := 0 to |peaks|
        invariant nextTrackId == MintedBefore(m, before.nextId, i)
        invariant |states| == i && |snapshots| == i
        invariant forall k :: 0 <= k < i ==> states[k] == all[k]
        invariant forall k :: 0 <= k < i ==> IsSnapshot(snapshots[k], m, before, peaks, k)
      {
        var id, prior := PeakTrack(m[i]);
        assert id == PeakId(m, tracks, before.nextId, i);
        var text := peaks[i].transcript;
        var appended := if prior <= text then text[|prior|..] else text;
        var sn := Snapshot(id, peaks[i].pitch, text, appended);
        assert IsSnapshot(sn, m, before, peaks, i);
        snapshots := snapshots + [sn];
        states := states + [TrackState(id, peaks[i].pitch, text, 0)];
      }
    }

    /** The id a peak goes by, and the transcript last shown under it. */
    method PeakTrack(choice: Option<nat>) returns (id: nat, prior: string)
      requires choice.Some? ==> choice.value < |tracks|
      modifies this`nextTrackId
      ensures choice.Some? ==> id == tracks[choice.value].id && prior == tracks[choice.value].transcript
      ensures choice.Some? ==> nextTrackId == old(nextTrackId)
      ensures choice.None? ==> id == old(nextTrackId) && prior == "" && nextTrackId == WrappingAdd1(old(nextTrackId))
    {
      match choice {
        case Some(j) =>
          id, prior := tracks[j].id, tracks[j].transcript;
        case None =>
          id, prior := nextTrackId, "";
          nextTrackId := WrappingAdd1(nextTrackId);
      }
    }

    /** The unmatched tracks that have not expired, each one cycle older. */
    method CarryForward(m: Matching) returns (states: seq<TrackState>)
      ensures states == Carried(m, tracks, expiryCycles, |tracks|)
    {
      states := [];
      for i := 0 to |tracks|
        invariant states == Carried(m, tracks, expiryCycles, i)
      {
        if Some(i) !in m {
          var aged := tracks[i].unmatched + 1;
          if aged < expiryCycles {
            states := states + [TrackState(tracks[i].id, tracks[i].pitch, tracks[i].transcript, aged)];
          }
        }
      }
    }
  }

  /** What is reported for peak i: its id, and the text beyond the track's previous transcript. */
  ghost predicate IsSnapshot(sn: Snapshot, m: Matching, s: State, peaks: seq<Peak>, i: nat)
    requires |m| == |peaks| && i < |m|
  {
    var prior := if m[i].Some? && m[i].value < |s.tracks| then s.tracks[m[i].value].transcript else "";
    && sn.id == PeakId(m, s.tracks, s.nextId, i)
    && sn.pitch == peaks[i].pitch && sn.transcript == peaks[i].transcript
    && sn.transcript == (if prior <= sn.transcript then prior else "") + sn.appended
  }

  // ---------------------------------------------------------------------
  // One cycle keeps the ids apart
  // ---------------------------------------------------------------------

  ghost predicate Distinct(tracks: seq<TrackState>) {
    forall i, j :: 0 <= i < j < |tracks| ==> tracks[i].id != tracks[j].id
  }

  /** Live ids are pairwise distinct and all below the counter. */
  ghost predicate WellFormed(s: State) {
    && Distinct(s.tracks)
    && forall i :: 0 <= i < |s.tracks| ==> s.tracks[i].id < s.nextId
  }

  ghost function Minted(m: Matching): nat {
    if m == [] then 0 else Minted(m[..|m| - 1]) + if m[|m| - 1].None? then 1 else 0
  }

  /** The 32-bit counter does not wrap in this cycle. */
  ghost predicate NoWrap(s: State, m: Matching) {
    s.nextId + Minted(m) < U32
  }

  lemma {:induction false} MintedPrefix(m: Matching, i: nat)
    requires i <= |m|
    ensures Minted(m[..i]) <= Minted(m)
    decreases |m|
  {
    if i == |m| {
      assert m[..i] == m;
    } else {
      MintedPrefix(m[..|m| - 1], i);
      assert m[..|m| - 1][..i] == m[..i];
    }
  }

  lemma {:induction false} MintedGrows(m: Matching, nextId: nat, i: nat)
    requires i <= |m| && nextId + Minted(m) < U32
    ensures MintedBefore(m, nextId, i) == nextId + Minted(m[..i]) <= nextId + Minted(m)
    decreases i
  {
    MintedPrefix(m, i);
    if i > 0 {
      MintedGrows(m, nextId, i - 1);
      assert m[..i][..i - 1] == m[..i - 1];
    }
  }

  lemma {:induction false} MintedStrict(m: Matching, i: nat, j: nat)
    requires i < j <= |m| && m[i].None?
    ensures Minted(m[..i]) < Minted(m[..j])
    decreases j
  {
    assert m[..j][..j - 1] == m[..j - 1];
    if i < j - 1 {
      MintedStrict(m, i, j - 1);
    }
  }

  lemma {:induction false} CarriedMembers(m: Matching, tracks: seq<TrackState>, expiry: nat, n: nat)
    requires n <= |tracks|
    ensures forall t :: t in Carried(m, tracks, expiry, n) <==>
      exists k :: 0 <= k < n && Some(k) !in m && tracks[k].unmatched + 1 < expiry
                  && t == tracks[k].(unmatched := tracks[k].unmatched + 1)
  {
    if n > 0 {
      CarriedMembers(m, tracks, expiry, n - 1);
    }
  }

  lemma {:induction false} CarriedDistinct(m: Matching, tracks: seq<TrackState>, expiry: nat, n: nat)
    requires n <= |tracks| && Distinct(tracks)
    ensures Distinct(Carried(m, tracks, expiry, n))
  {
    if n > 0 {
      CarriedDistinct(m, tracks, expiry, n - 1);
      CarriedMembers(m, tracks, expiry, n - 1);
      var c := Carried(m, tracks, expiry, n - 1);
      forall i | 0 <= i < |c| ensures c[i].id != tracks[n - 1].id {
        assert c[i] in c;
      }
    }
  }

  lemma RefreshedDistinct(s: State, m: Matching, peaks: seq<Peak>, tol: real)
    requires WellFormed(s) && NoWrap(s, m) && IsMatch(m, s.tracks, peaks, tol)
    ensures Distinct(Refreshed(m, s.tracks, s.nextId, peaks))
  {
    forall i, j | 0 <= i < j < |m| ensures PeakId(m, s.tracks, s.nextId, i) != PeakId(m, s.tracks, s.nextId, j) {
      MintedGrows(m, s.nextId, i);
      MintedGrows(m, s.nextId, j);
      assert m[i].Some? ==> m[i].value < |s.tracks|;
      assert m[j].Some? ==> m[j].value < |s.tracks|;
      if m[i].None? && m[j].None? {
        MintedStrict(m, i, j);
      } else if m[i].Some? && m[j].Some? {
        assert m[i] != m[j];
      }
    }
  }

  /** Matched peaks carry ids in use, the others ids between the old counter and the new. */
  lemma RefreshedIds(s: State, m: Matching, peaks: seq<Peak>, tol: real)
    requires NoWrap(s, m) && IsMatch(m, s.tracks, peaks, tol) && forall t :: t in s.tracks ==> t.id < s.nextId
    ensures forall t' :: t' in Refreshed(m, s.tracks, s.nextId, peaks) ==>
      t'.id < s.nextId + Minted(m) && (t'.id >= s.nextId || HasId(s.tracks, t'.id))
  {
    var refreshed := Refreshed(m, s.tracks, s.nextId, peaks);
    forall i | 0 <= i < |refreshed|
      ensures refreshed[i].id < s.nextId + Minted(m)
      ensures refreshed[i].id >= s.nextId || HasId(s.tracks, refreshed[i].id)
    {
      MintedGrows(m, s.nextId, i);
      if m[i].Some? {
        assert s.tracks[m[i].value] in s.tracks;
      } else {
        MintedStrict(m, i, |m|);
        assert m[..|m|] == m;
      }
    }
  }

  ghost predicate HasId(tracks: seq<TrackState>, id: nat) {
    exists t :: t in tracks && t.id == id
  }

  lemma CarriedIds(s: State, m: Matching, expiry: nat)
    ensures forall t' :: t' in Carried(m, s.tracks, expiry, |s.tracks|) ==> HasId(s.tracks, t'.id)
  {
    CarriedMembers(m, s.tracks, expiry, |s.tracks|);
    forall t' | t' in Carried(m, s.tracks, expiry, |s.tracks|)
      ensures HasId(s.tracks, t'.id)
    {
      var k :| 0 <= k < |s.tracks| && t' == s.tracks[k].(unmatched := s.tracks[k].unmatched + 1);
      assert s.tracks[k] in s.tracks;
    }
  }

  /** No carried track shares its id with a refreshed one. */
  lemma RefreshedNotCarried(s: State, m: Matching, peaks: seq<Peak>, tol: real, expiry: nat, i: nat, t: TrackState)
    requires WellFormed(s) && NoWrap(s, m) && IsMatch(m, s.tracks, peaks, tol) && i < |m|
    requires t in Carried(m, s.tracks, expiry, |s.tracks|)
    ensures PeakId(m, s.tracks, s.nextId, i) != t.id
  {
    CarriedMembers(m, s.tracks, expiry, |s.tracks|);
    var k :| 0 <= k < |s.tracks| && Some(k) !in m && t.id == s.tracks[k].id;
    MintedGrows(m, s.nextId, i);
    if m[i].Some? {
      assert m[i] != Some(k);
      assert m[i].value < |s.tracks|;
    }
  }

  lemma AppendDistinct(a: seq<TrackState>, b: seq<TrackState>)
    requires Distinct(a) && Distinct(b)
    requires forall i, t :: 0 <= i < |a| && t in b ==> a[i].id != t.id
    ensures Distinct(a + b)
  {
    forall i, j | 0 <= i < j < |a + b|
      ensures (a + b)[i].id != (a + b)[j].id
    {
      if i < |a| <= j {
        assert b[j - |a|] in b;
      }
    }
  }

  lemma StepKeepsWellFormed(s: State, s': State, m: Matching, peaks: seq<Peak>, tol: real, expiry: nat)
    requires WellFormed(s) && NoWrap(s, m) && Step(s, s', m, peaks, tol, expiry)
    ensures WellFormed(s')
    ensures s.nextId <= s'.nextId == s.nextId + Minted(m)
    ensures forall t' :: t' in s'.tracks ==> t'.id >= s.nextId || HasId(s.tracks, t'.id)
  {
    var refreshed, carried := Refreshed(m, s.tracks, s.nextId, peaks), Carried(m, s.tracks, expiry, |s.tracks|);
    RefreshedDistinct(s, m, peaks, tol);
    CarriedDistinct(m, s.tracks, expiry, |s.tracks|);
    RefreshedIds(s, m, peaks, tol);
    CarriedIds(s, m, expiry);
    forall i, t | 0 <= i < |refreshed| && t in carried
      ensures refreshed[i].id != t.id
    {
      RefreshedNotCarried(s, m, peaks, tol, expiry, i, t);
    }
    AppendDistinct(refreshed, carried);
    MintedGrows(m, s.nextId, |m|);
    assert m[..|m|] == m;
    assert forall t' :: t' in s'.tracks ==> t' in refreshed || t' in carried;
  }

  // ---------------------------------------------------------------------
  // What a cycle stores
  // ---------------------------------------------------------------------

  /** Peak i has a track with its pitch and transcript, under the id of its match or the next free one modulo 32 bits. */
  ghost predicate StoresPeak(s: State, s': State, m: Matching, peaks: seq<Peak>, i: nat) {
    && i < |m| == |peaks| <= |s'.tracks|
    && var t := s'.tracks[i];
       && t.pitch == peaks[i].pitch && t.transcript == peaks[i].transcript && t.unmatched == 0
       && match m[i]
          case Some(j) => j < |s.tracks| && t.id == s.tracks[j].id
          case None => t.id == (s.nextId + Minted(m[..i])) % 0x1_0000_0000
  }

  /** The other tracks are exactly the unmatched ones short of the expiry, with all they stored and one more cycle. */
  ghost predicate CarriesOthers(s: State, s': State, m: Matching, expiry: nat) {
    && |m| <= |s'.tracks|
    && forall t :: t in s'.tracks[|m|..] <==>
         exists k :: 0 <= k < |s.tracks| && Some(k) !in m && s.tracks[k].unmatched + 1 < expiry
                     && t == s.tracks[k].(unmatched := s.tracks[k].unmatched + 1)
  }

  /** What a cycle leaves behind, track by track, and the next free id. */
  lemma CycleStores(s: State, s': State, m: Matching, peaks: seq<Peak>, tol: real, expiry: nat)
    requires Step(s, s', m, peaks, tol, expiry) && s.nextId < U32
    ensures forall i :: 0 <= i < |m| ==> StoresPeak(s, s', m, peaks, i)
    ensures CarriesOthers(s, s', m, expiry) && s'.nextId == (s.nextId + Minted(m)) % 0x1_0000_0000
  {
    forall i | 0 <= i < |m|
      ensures StoresPeak(s, s', m, peaks, i)
    {
      StoresAt(s, s', m, peaks, tol, expiry, i);
    }
    StoresCarried(s, s', m, peaks, tol, expiry);
  }

  lemma StoresAt(s: State, s': State, m: Matching, peaks: seq<Peak>, tol: real, expiry: nat, i: nat)
    requires Step(s, s', m, peaks, tol, expiry) && s.nextId < U32 && i < |m|
    ensures StoresPeak(s, s', m, peaks, i)
  {
    assert s'.tracks[i] == Refreshed(m, s.tracks, s.nextId, peaks)[i];
    assert m[i].Some? ==> m[i].value < |s.tracks|;
    MintedWraps(m, s.nextId, i);
  }

  lemma StoresCarried(s: State, s': State, m: Matching, peaks: seq<Peak>, tol: real, expiry: nat)
    requires Step(s, s', m, peaks, tol, expiry) && s.nextId < U32
    ensures CarriesOthers(s, s', m, expiry) && s'.nextId == (s.nextId + Minted(m)) % 0x1_0000_0000
  {
    CarriedMembers(m, s.tracks, expiry, |s.tracks|);
    assert s'.tracks[|m|..] == Carried(m, s.tracks, expiry, |s.tracks|);
    MintedWraps(m, s.nextId, |m|);
    assert m[..|m|] == m;
  }

  /** So a peak matched to a track heard in the cycle before is reported with the text beyond that cycle's. */
  lemma AppendedIsNew(s: State, s': State, m: Matching, peaks: seq<Peak>, tol: real, expiry: nat,
                      m': Matching, peaks': seq<Peak>, i: nat, p: nat, sn: Snapshot)
    requires Step(s, s', m, peaks, tol, expiry) && |m'| == |peaks'| && i < |m'|
    requires m'[i] == Some(p) && p < |peaks| && IsSnapshot(sn, m', s', peaks', i)
    ensures |peaks| <= |s'.tracks|
    ensures var before, now := peaks[p].transcript, peaks'[i].transcript;
            sn.id == s'.tracks[p].id && now == (if before <= now then before else "") + sn.appended
  {
    assert s'.tracks[p] == Refreshed(m, s.tracks, s.nextId, peaks)[p];
  }

  // ---------------------------------------------------------------------
  // Whole runs
  // ---------------------------------------------------------------------

  datatype Cycle = Cycle(peaks: seq<Peak>, m: Matching)

  /** states[k + 1] follows states[k] by decode cycle k, tolerance and expiry fixed, no counter wrap. */
  ghost predicate Run(states: seq<State>, cycles: seq<Cycle>, tol: real, expiry: nat) {
    && tol >= 0.0
    && |states| == |cycles| + 1
    && WellFormed(states[0])
    && forall k :: 0 <= k < |cycles| ==>
         NoWrap(states[k], cycles[k].m) && Step(states[k], states[k + 1], cycles[k].m, cycles[k].peaks, tol, expiry)
  }

  ghost predicate Live(s: State, id: nat) {
    exists i :: 0 <= i < |s.tracks| && s.tracks[i].id == id
  }

  ghost function TrackOf(s: State, id: nat): TrackState
    requires Live(s, id)
  {
    var i :| 0 <= i < |s.tracks| && s.tracks[i].id == id;
    s.tracks[i]
  }

  /** The cycle out of state s decodes a peak under this id. */
  ghost predicate Heard(s: State, c: Cycle, id: nat) {
    exists i :: 0 <= i < |c.m| && PeakId(c.m, s.tracks, s.nextId, i) == id
  }

  lemma {:induction false} RunKeepsWellFormed(states: seq<State>, cycles: seq<Cycle>, tol: real, expiry: nat, k: nat)
    requires Run(states, cycles, tol, expiry) && k < |states|
    ensures WellFormed(states[k])
    ensures forall j :: 0 <= j <= k ==> states[j].nextId <= states[k].nextId
    decreases k
  {
    if k > 0 {
      RunKeepsWellFormed(states, cycles, tol, expiry, k - 1);
      var c := cycles[k - 1];
      StepKeepsWellFormed(states[k - 1], states[k], c.m, c.peaks, tol, expiry);
    }
  }

  /** An id once live and then dropped never comes back. */
  lemma {:induction false} DroppedIdNeverReturns(states: seq<State>, cycles: seq<Cycle>, tol: real, expiry: nat,
                                                 i: nat, j: nat, k: nat, id: nat)
    requires Run(states, cycles, tol, expiry) && i <= j <= k < |states|
    requires Live(states[i], id) && !Live(states[j], id)
    ensures !Live(states[k], id)
    decreases k
  {
    RunKeepsWellFormed(states, cycles, tol, expiry, i);
    if k > j {
      DroppedIdNeverReturns(states, cycles, tol, expiry, i, j, k - 1, id);
      RunKeepsWellFormed(states, cycles, tol, expiry, k - 1);
      var c := cycles[k - 1];
      AbsentStaysAbsent(states[k - 1], states[k], c, tol, expiry, id);
    }
  }

  /** An id below the counter that is not live is not live after the cycle either. */
  lemma AbsentStaysAbsent(s: State, s': State, c: Cycle, tol: real, expiry: nat, id: nat)
    requires WellFormed(s) && NoWrap(s, c.m) && Step(s, s', c.m, c.peaks, tol, expiry)
    requires id < s.nextId && !Live(s, id)
    ensures !Live(s', id)
  {
    StepKeepsWellFormed(s, s', c.m, c.peaks, tol, expiry);
    forall n | 0 <= n < |s'.tracks| ensures s'.tracks[n].id != id {
      assert s'.tracks[n] in s'.tracks;
    }
  }

  lemma TrackOfAt(s: State, n: nat)
    requires WellFormed(s) && n < |s.tracks|
    ensures Live(s, s.tracks[n].id) && TrackOf(s, s.tracks[n].id) == s.tracks[n]
  {
  }

  lemma HeardAt(s: State, c: Cycle, n: nat, i: nat)
    requires WellFormed(s) && NoWrap(s, c.m) && n < |s.tracks| && i < |c.m|
    requires c.m[i].Some? ==> c.m[i].value < |s.tracks|
    requires PeakId(c.m, s.tracks, s.nextId, i) == s.tracks[n].id
    ensures c.m[i] == Some(n)
  {
    MintedGrows(c.m, s.nextId, i);
  }

  /** A heard track stays, refreshed, within the tolerance of where it was. */
  lemma HeardStep(s: State, s': State, c: Cycle, tol: real, expiry: nat, id: nat)
    requires WellFormed(s) && NoWrap(s, c.m) && Step(s, s', c.m, c.peaks, tol, expiry)
    requires Live(s, id) && Heard(s, c, id)
    ensures WellFormed(s') && Live(s', id) && TrackOf(s', id).unmatched == 0
    ensures Abs(TrackOf(s', id).pitch - TrackOf(s, id).pitch) <= tol
  {
    StepKeepsWellFormed(s, s', c.m, c.peaks, tol, expiry);
    var n :| 0 <= n < |s.tracks| && s.tracks[n].id == id;
    var i :| 0 <= i < |c.m| && PeakId(c.m, s.tracks, s.nextId, i) == id;
    HeardAt(s, c, n, i);
    TrackOfAt(s, n);
    assert s'.tracks[i] == Refreshed(c.m, s.tracks, s.nextId, c.peaks)[i];
    TrackOfAt(s', i);
    assert Within(Pitches(s.tracks), PeakPitches(c.peaks), tol, i, n);
  }

  lemma UnheardIsUnmatched(s: State, c: Cycle, n: nat)
    requires n < |s.tracks| && !Heard(s, c, s.tracks[n].id)
    ensures Some(n) !in c.m
  {
    forall i | 0 <= i < |c.m| ensures c.m[i] != Some(n) {
      assert PeakId(c.m, s.tracks, s.nextId, i) != s.tracks[n].id;
    }
  }

  /** An unheard track is carried, a cycle older, while it has not expired. */
  lemma UnheardAges(s: State, s': State, c: Cycle, tol: real, expiry: nat, n: nat)
    requires WellFormed(s') && Step(s, s', c.m, c.peaks, tol, expiry)
    requires n < |s.tracks| && !Heard(s, c, s.tracks[n].id) && s.tracks[n].unmatched + 1 < expiry
    ensures Live(s', s.tracks[n].id)
    ensures TrackOf(s', s.tracks[n].id) == s.tracks[n].(unmatched := s.tracks[n].unmatched + 1)
  {
    var carried := Carried(c.m, s.tracks, expiry, |s.tracks|);
    CarriedMembers(c.m, s.tracks, expiry, |s.tracks|);
    UnheardIsUnmatched(s, c, n);
    var older := s.tracks[n].(unmatched := s.tracks[n].unmatched + 1);
    assert older in carried;
    var y :| 0 <= y < |carried| && carried[y] == older;
    assert s'.tracks[|s'.tracks| - |carried| + y] == older;
    TrackOfAt(s', |s'.tracks| - |carried| + y);
  }

  /** An unheard track that is live after the cycle had not expired. */
  lemma UnheardAlive(s: State, s': State, c: Cycle, tol: real, expiry: nat, n: nat)
    requires WellFormed(s) && Step(s, s', c.m, c.peaks, tol, expiry)
    requires n < |s.tracks| && !Heard(s, c, s.tracks[n].id)
    requires Live(s', s.tracks[n].id)
    ensures s.tracks[n].unmatched + 1 < expiry
  {
    var id := s.tracks[n].id;
    var carried := Carried(c.m, s.tracks, expiry, |s.tracks|);
    CarriedMembers(c.m, s.tracks, expiry, |s.tracks|);
    var x :| 0 <= x < |s'.tracks| && s'.tracks[x].id == id;
    forall i | 0 <= i < |c.m| ensures s'.tracks[i].id != id {
      assert s'.tracks[i].id == PeakId(c.m, s.tracks, s.nextId, i);
    }
    assert x >= |c.m|;
    assert carried[x - |c.m|] in carried;
    var k :| 0 <= k < |s.tracks| && s.tracks[k].unmatched + 1 < expiry && s.tracks[k].id == id;
  }

  /** An unheard track ages by one cycle, or expires. */
  lemma UnheardStep(s: State, s': State, c: Cycle, tol: real, expiry: nat, id: nat)
    requires WellFormed(s) && NoWrap(s, c.m) && Step(s, s', c.m, c.peaks, tol, expiry)
    requires Live(s, id) && !Heard(s, c, id)
    ensures WellFormed(s')
    ensures Live(s', id) <==> TrackOf(s, id).unmatched + 1 < expiry
    ensures Live(s', id) ==> TrackOf(s', id) == TrackOf(s, id).(unmatched := TrackOf(s, id).unmatched + 1)
  {
    StepKeepsWellFormed(s, s', c.m, c.peaks, tol, expiry);
    var n :| 0 <= n < |s.tracks| && s.tracks[n].id == id;
    TrackOfAt(s, n);
    if s.tracks[n].unmatched + 1 < expiry {
      UnheardAges(s, s', c, tol, expiry, n);
    } else if Live(s', id) {
      UnheardAlive(s, s', c, tol, expiry, n);
    }
  }

  /** What one cycle does to one live track, heard or not. */
  lemma TrackStep(s: State, s': State, c: Cycle, tol: real, expiry: nat, id: nat)
    requires tol >= 0.0 && WellFormed(s) && NoWrap(s, c.m) && Step(s, s', c.m, c.peaks, tol, expiry)
    requires Live(s, id)
    ensures Live(s', id) <==> Heard(s, c, id) || TrackOf(s, id).unmatched + 1 < expiry
    ensures Live(s', id) ==> Abs(TrackOf(s', id).pitch - TrackOf(s, id).pitch) <= tol
    ensures Live(s', id) ==>
      TrackOf(s', id).unmatched == if Heard(s, c, id) then 0 else TrackOf(s, id).unmatched + 1
  {
    if Heard(s, c, id) {
      HeardStep(s, s', c, tol, expiry, id);
    } else {
      UnheardStep(s, s', c, tol, expiry, id);
    }
  }

  /** An id's pitch moves by at most the tolerance in a cycle it survives. */
  lemma PitchMovesAtMostTolerance(states: seq<State>, cycles: seq<Cycle>, tol: real, expiry: nat, k: nat, id: nat)
    requires Run(states, cycles, tol, expiry) && k < |cycles|
    requires Live(states[k], id) && Live(states[k + 1], id)
    ensures Abs(TrackOf(states[k + 1], id).pitch - TrackOf(states[k], id).pitch) <= tol
  {
    RunKeepsWellFormed(states, cycles, tol, expiry, k);
    TrackStep(states[k], states[k + 1], cycles[k], tol, expiry, id);
  }

  /** A track just heard, then unheard for m >= 1 cycles on end, is still live exactly when m < expiry. */
  lemma {:induction false} SurvivesExactlyExpiryMinusOne(states: seq<State>, cycles: seq<Cycle>, tol: real, expiry: nat,
                                                         k: nat, m: nat, id: nat)
    requires Run(states, cycles, tol, expiry) && k + m < |states| && m >= 1
    requires Live(states[k], id) && TrackOf(states[k], id).unmatched == 0
    requires forall j :: k <= j < k + m ==> !Heard(states[j], cycles[j], id)
    ensures Live(states[k + m], id) <==> m < expiry
    ensures m < expiry ==> TrackOf(states[k + m], id).unmatched == m
    decreases m
  {
    RunKeepsWellFormed(states, cycles, tol, expiry, k + m - 1);
    if m > 1 {
      SurvivesExactlyExpiryMinusOne(states, cycles, tol, expiry, k, m - 1, id);
      if m - 1 >= expiry {
        DroppedIdNeverReturns(states, cycles, tol, expiry, k, k + m - 1, k + m, id);
        return;
      }
    }
    TrackStep(states[k + m - 1], states[k + m], cycles[k + m - 1], tol, expiry, id);
  }

  /** Without the no-wrap condition ids do collide: the counter starts over while id 0 still lives. */
  lemma WrapCollides()
    ensures exists s: State, s': State, m: Matching, peaks: seq<Peak> ::
      WellFormed(s) && Step(s, s', m, peaks, 40.0, 3) && !Distinct(s'.tracks)
  {
    var s := State([TrackState(0, 600.0, "", 0)], U32 - 1);
    var m: Matching := [Some(0), None, None];
    var peaks := [Peak(600.0, ""), Peak(700.0, ""), Peak(800.0, "")];
    var s' := State(Refreshed(m, s.tracks, s.nextId, peaks) + Carried(m, s.tracks, 3, 1), MintedBefore(m, s.nextId, 3));
    assert MintedBefore(m, s.nextId, 1) == U32 - 1 && MintedBefore(m, s.nextId, 2) == 0;
    assert s'.tracks[0].id == 0 && s'.tracks[2].id == 0;
    assert Step(s, s', m, peaks, 40.0, 3);
  }

  // ---------------------------------------------------------------------
  // Across the wrap
  // ---------------------------------------------------------------------

  /** The k-th id minted from the counter on. */
  function MintedAt(nextId: nat, k: nat): nat { (nextId + k) % U32 }

  /** What the 32-bit fields hold. */
  ghost predicate InRange(s: State) {
    s.nextId < U32 && forall i :: 0 <= i < |s.tracks| ==> s.tracks[i].id < U32
  }

  /** Track j is matched, or young enough to be carried. */
  ghost predicate Survives(s: State, m: Matching, expiry: nat, j: nat) {
    j < |s.tracks| && (Some(j) in m || s.tracks[j].unmatched + 1 < expiry)
  }

  /** No id minted in the cycle is that of a surviving track. */
  ghost predicate MintsFree(s: State, m: Matching, expiry: nat) {
    forall k: nat, j: nat :: k < Minted(m) && Survives(s, m, expiry, j) ==> MintedAt(s.nextId, k) != s.tracks[j].id
  }

  lemma {:induction false} MintedWraps(m: Matching, nextId: nat, i: nat)
    requires i <= |m| && nextId < U32
    ensures MintedBefore(m, nextId, i) == MintedAt(nextId, Minted(m[..i])) < U32
    decreases i
  {
    if i > 0 {
      MintedWraps(m, nextId, i - 1);
      assert m[..i][..i - 1] == m[..i - 1];
    }
  }

  lemma MintedApart(nextId: nat, k: nat, l: nat)
    requires k < l < k + U32
    ensures MintedAt(nextId, k) != MintedAt(nextId, l)
  {}

  /** Which unmatched peak gets the k-th minted id. */
  lemma {:induction false} MintedFor(m: Matching, k: nat) returns (i: nat)
    requires k < Minted(m)
    ensures i < |m| && m[i].None? && Minted(m[..i]) == k
    decreases |m|
  {
    var init := m[..|m| - 1];
    if k < Minted(init) {
      i := MintedFor(init, k);
      assert init[..i] == m[..i];
    } else {
      i := |m| - 1;
    }
  }

  lemma PeakIdWraps(s: State, m: Matching, i: nat)
    requires InRange(s) && i < |m| && m[i].None?
    ensures PeakId(m, s.tracks, s.nextId, i) == MintedAt(s.nextId, Minted(m[..i])) && Minted(m[..i]) < Minted(m)
  {
    MintedWraps(m, s.nextId, i);
    MintedStrict(m, i, |m|);
    assert m[..|m|] == m;
  }

  lemma PeakIdsApart(s: State, m: Matching, peaks: seq<Peak>, tol: real, expiry: nat, i: nat, j: nat)
    requires Distinct(s.tracks) && InRange(s) && Minted(m) <= U32 && IsMatch(m, s.tracks, peaks, tol)
    requires MintsFree(s, m, expiry) && i < j < |m|
    ensures PeakId(m, s.tracks, s.nextId, i) != PeakId(m, s.tracks, s.nextId, j)
  {
    assert m[i].Some? ==> m[i].value < |s.tracks| && Survives(s, m, expiry, m[i].value);
    assert m[j].Some? ==> m[j].value < |s.tracks| && Survives(s, m, expiry, m[j].value);
    if m[i].None? {
      PeakIdWraps(s, m, i);
    }
    if m[j].None? {
      PeakIdWraps(s, m, j);
    }
    if m[i].None? && m[j].None? {
      MintedStrict(m, i, j);
      MintedApart(s.nextId, Minted(m[..i]), Minted(m[..j]));
    } else if m[i].Some? && m[j].Some? {
      assert m[i] != m[j];
    }
  }

  lemma CarriedApart(s: State, m: Matching, peaks: seq<Peak>, tol: real, expiry: nat, i: nat, t: TrackState)
    requires Distinct(s.tracks) && InRange(s) && IsMatch(m, s.tracks, peaks, tol)
    requires MintsFree(s, m, expiry) && i < |m| && t in Carried(m, s.tracks, expiry, |s.tracks|)
    ensures PeakId(m, s.tracks, s.nextId, i) != t.id
  {
    CarriedMembers(m, s.tracks, expiry, |s.tracks|);
    var k: nat :| k < |s.tracks| && Some(k) !in m && s.tracks[k].unmatched + 1 < expiry && t.id == s.tracks[k].id;
    if m[i].Some? {
      assert m[i] != Some(k) && m[i].value < |s.tracks|;
    } else {
      PeakIdWraps(s, m, i);
      assert Survives(s, m, expiry, k);
    }
  }

  /** A minted id that a surviving track already has is given out twice. */
  lemma MintedTwice(s: State, s': State, m: Matching, peaks: seq<Peak>, tol: real, expiry: nat, k: nat, j: nat)
    requires InRange(s) && Step(s, s', m, peaks, tol, expiry)
    requires k < Minted(m) && Survives(s, m, expiry, j) && MintedAt(s.nextId, k) == s.tracks[j].id
    ensures !Distinct(s'.tracks)
  {
    var i := MintedFor(m, k);
    PeakIdWraps(s, m, i);
    assert s'.tracks[i].id == s.tracks[j].id;
    if Some(j) in m {
      var p :| 0 <= p < |m| && m[p] == Some(j);
      assert s'.tracks[p].id == s.tracks[j].id;
    } else {
      CarriedMembers(m, s.tracks, expiry, |s.tracks|);
      var carried := Carried(m, s.tracks, expiry, |s.tracks|);
      assert s.tracks[j].(unmatched := s.tracks[j].unmatched + 1) in carried;
      var q :| 0 <= q < |carried| && carried[q].id == s.tracks[j].id;
      assert s'.tracks[|m| + q] == carried[q];
    }
  }

  /**
    Exactly when a cycle keeps the ids distinct, wrap or no wrap: when no id it mints is that of a track it
    keeps. The fields stay in range.
  */
  lemma DistinctExactly(s: State, s': State, m: Matching, peaks: seq<Peak>, tol: real, expiry: nat)
    requires Distinct(s.tracks) && InRange(s) && Minted(m) <= U32 && Step(s, s', m, peaks, tol, expiry)
    ensures Distinct(s'.tracks) <==> MintsFree(s, m, expiry)
    ensures InRange(s')
  {
    var refreshed, carried := Refreshed(m, s.tracks, s.nextId, peaks), Carried(m, s.tracks, expiry, |s.tracks|);
    StaysInRange(s, s', m, peaks, tol, expiry);
    if MintsFree(s, m, expiry) {
      forall i, j | 0 <= i < j < |refreshed|
        ensures refreshed[i].id != refreshed[j].id
      {
        PeakIdsApart(s, m, peaks, tol, expiry, i, j);
      }
      CarriedDistinct(m, s.tracks, expiry, |s.tracks|);
      forall i, t | 0 <= i < |refreshed| && t in carried
        ensures refreshed[i].id != t.id
      {
        CarriedApart(s, m, peaks, tol, expiry, i, t);
      }
      AppendDistinct(refreshed, carried);
    } else {
      var k: nat, j: nat :| k < Minted(m) && Survives(s, m, expiry, j) && MintedAt(s.nextId, k) == s.tracks[j].id;
      MintedTwice(s, s', m, peaks, tol, expiry, k, j);
    }
  }

  lemma StaysInRange(s: State, s': State, m: Matching, peaks: seq<Peak>, tol: real, expiry: nat)
    requires InRange(s) && Step(s, s', m, peaks, tol, expiry)
    ensures InRange(s')
  {
    MintedWraps(m, s.nextId, |m|);
    CarriedMembers(m, s.tracks, expiry, |s.tracks|);
    forall i | 0 <= i < |s'.tracks|
      ensures s'.tracks[i].id < U32
    {
      if i < |m| {
        MintedWraps(m, s.nextId, i);
      } else {
        assert s'.tracks[i] in Carried(m, s.tracks, expiry, |s.tracks|);
      }
    }
  }

  /** A run of the streamer from a state with distinct ids, however often the counter wraps. */
  ghost predicate LongRun(states: seq<State>, cycles: seq<Cycle>, tol: real, expiry: nat) {
    && |states| == |cycles| + 1
    && Distinct(states[0].tracks) && InRange(states[0])
    && forall k :: 0 <= k < |cycles| ==>
         Minted(cycles[k].m) <= U32 && Step(states[k], states[k + 1], cycles[k].m, cycles[k].peaks, tol, expiry)
  }

  ghost predicate DistinctUpTo(states: seq<State>, n: nat) {
    forall k :: 0 <= k <= n && k < |states| ==> Distinct(states[k].tracks)
  }

  ghost predicate FreeUpTo(states: seq<State>, cycles: seq<Cycle>, expiry: nat, n: nat) {
    forall k :: 0 <= k < n && k < |states| && k < |cycles| ==> MintsFree(states[k], cycles[k].m, expiry)
  }

  /** Over a whole run the ids are distinct throughout if and only if no cycle mints the id of a track it keeps. */
  lemma {:induction false} RunDistinctExactly(states: seq<State>, cycles: seq<Cycle>, tol: real, expiry: nat, n: nat)
    requires LongRun(states, cycles, tol, expiry) && n <= |cycles|
    ensures InRange(states[n])
    ensures DistinctUpTo(states, n) <==> FreeUpTo(states, cycles, expiry, n)
  {
    if n > 0 {
      RunDistinctExactly(states, cycles, tol, expiry, n - 1);
      var s, s', c := states[n - 1], states[n], cycles[n - 1];
      StaysInRange(s, s', c.m, c.peaks, tol, expiry);
      assert DistinctUpTo(states, n) <==> DistinctUpTo(states, n - 1) && Distinct(s'.tracks);
      assert FreeUpTo(states, cycles, expiry, n) <==> FreeUpTo(states, cycles, expiry, n - 1) && MintsFree(s, c.m, expiry);
      if Distinct(s.tracks) {
        DistinctExactly(s, s', c.m, c.peaks, tol, expiry);
      }
    }
  }
}
