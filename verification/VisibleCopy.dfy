/** The timestamps of the visible copy: when each character last settled. */
module VisibleCopy {
  import opened Arithmetic
  import opened Text

  method CountCommonPrefix(a: string, b: string) returns (n: nat)
    ensures n <= |a| && n <= |b| && a[..n] == b[..n]
    ensures n < |a| && n < |b| ==> a[n] != b[n]
  {
    n := 0;
    while n < |a| && n < |b| && a[n] == b[n]
      invariant n <= |a| && n <= |b| && a[..n] == b[..n]
    {
      n := n + 1;
    }
  }

  /** A snapshot, trimmed, and when it was shown. */
  datatype Shown = Shown(text: string, at: nat)

  class VisibleTranscript {
    var transcript: string
    var charTimes: seq<nat>
    /** Every non-empty snapshot so far. */
    ghost var history: seq<Shown>

    /** One time per character: the time of the first of the final snapshots that agree through that character. */
    ghost predicate Valid()
      reads this
    {
      && |charTimes| == |transcript|
      && transcript == (if history == [] then "" else history[|history| - 1].text)
      && forall i: nat :: i < |transcript| ==> StampedAt(history, transcript, charTimes, i)
    }

    constructor ()
      ensures Valid() && history == [] && transcript == ""
    {
      transcript, charTimes, history := "", [], [];
    }

    method SyncSnapshot(snapshot0: string, t: nat)
      requires Valid()
      modifies this
      ensures Valid()
      ensures Trim(snapshot0) == "" ==> history == old(history) && charTimes == old(charTimes)
      ensures Trim(snapshot0) != "" ==> history == old(history) + [Shown(Trim(snapshot0), t)]
    {
      var snapshot := Trim(snapshot0);
      if snapshot == "" {
        return;
      }
      var common := CountCommonPrefix(transcript, snapshot);
      ghost var before, now := history, history + [Shown(snapshot, t)];
      ghost var stamped := charTimes;
      charTimes := charTimes[..common] + Repeat(t, |snapshot| - common);
      forall i: nat | i < |snapshot| ensures StampedAt(now, snapshot, charTimes, i) {
        NextAgreesFrom(before, transcript, snapshot, t, common, i);
        assert i < common ==> StampedAt(before, transcript, stamped, i);
      }
      transcript := snapshot;
      history := now;
    }
  }

  /** A snapshot reads like the text through character i. */
  predicate Agrees(s: Shown, text: string, i: nat) {
    i < |s.text| && i < |text| && s.text[..i + 1] == text[..i + 1]
  }

  /** From which snapshot on all of them agree with the text through character i. */
  ghost function AgreesFrom(history: seq<Shown>, text: string, i: nat): nat {
    if history == [] || !Agrees(history[|history| - 1], text, i) then |history|
    else AgreesFrom(history[..|history| - 1], text, i)
  }

  /** It is the earliest: all later ones agree, and the one before it does not. */
  lemma {:induction false} AgreesFromIsEarliest(history: seq<Shown>, text: string, i: nat)
    ensures AgreesFrom(history, text, i) <= |history|
    ensures forall k :: AgreesFrom(history, text, i) <= k < |history| ==> Agrees(history[k], text, i)
    ensures AgreesFrom(history, text, i) > 0 ==> !Agrees(history[AgreesFrom(history, text, i) - 1], text, i)
  {
    if history != [] && Agrees(history[|history| - 1], text, i) {
      AgreesFromIsEarliest(history[..|history| - 1], text, i);
    }
  }

  lemma {:induction false} SamePrefixSameStart(history: seq<Shown>, a: string, b: string, i: nat)
    requires i < |a| && i < |b| && a[..i + 1] == b[..i + 1]
    ensures AgreesFrom(history, a, i) == AgreesFrom(history, b, i)
  {
    if history != [] {
      SamePrefixSameStart(history[..|history| - 1], a, b, i);
    }
  }

  lemma NextAgreesFrom(before: seq<Shown>, shown: string, snapshot: string, t: nat, common: nat, i: nat)
    requires shown == (if before == [] then "" else before[|before| - 1].text)
    requires common <= |shown| && common <= |snapshot| && shown[..common] == snapshot[..common]
    requires common < |shown| && common < |snapshot| ==> shown[common] != snapshot[common]
    requires i < |snapshot|
    ensures var now := before + [Shown(snapshot, t)];
            AgreesFrom(now, snapshot, i) == if i < common then AgreesFrom(before, shown, i) else |before|
  {
    var now := before + [Shown(snapshot, t)];
    assert now[..|before|] == before;
    if i < common {
      assert shown[..i + 1] == shown[..common][..i + 1] && snapshot[..i + 1] == snapshot[..common][..i + 1];
      SamePrefixSameStart(before, shown, snapshot, i);
    } else if before != [] && i < |shown| {
      assert shown[..i + 1][common] == shown[common] && snapshot[..i + 1][common] == snapshot[common];
    }
  }

  /** Agreeing through a later character implies agreeing through an earlier one. */
  lemma {:induction false} AgreesFromGrows(history: seq<Shown>, text: string, i: nat, j: nat)
    requires i <= j < |text|
    ensures AgreesFrom(history, text, i) <= AgreesFrom(history, text, j)
  {
    if history != [] {
      AgreesFromGrows(history[..|history| - 1], text, i, j);
      AgreesFromIsEarliest(history[..|history| - 1], text, i);
      var s := history[|history| - 1].text;
      if Agrees(history[|history| - 1], text, j) {
        assert s[..i + 1] == s[..j + 1][..i + 1] && text[..i + 1] == text[..j + 1][..i + 1];
      }
    }
  }

  /** Character i of the text is stamped with the time of the snapshot from which on all agree through it. */
  ghost predicate StampedAt(history: seq<Shown>, text: string, times: seq<nat>, i: nat) {
    && i < |times|
    && AgreesFrom(history, text, i) < |history|
    && times[i] == history[AgreesFrom(history, text, i)].at
  }

  ghost predicate InOrder(history: seq<Shown>) {
    forall i, j :: 0 <= i <= j < |history| ==> history[i].at <= history[j].at
  }

  lemma EarlierIsNoLater(history: seq<Shown>, text: string, times: seq<nat>, i: nat, j: nat)
    requires InOrder(history) && i <= j < |text| && StampedAt(history, text, times, i) && StampedAt(history, text, times, j)
    ensures times[i] <= times[j]
  {
    var a, b := AgreesFrom(history, text, i), AgreesFrom(history, text, j);
    AgreesFromGrows(history, text, i, j);
    assert history[a].at <= history[b].at;
  }

  /** When the snapshots come in time order the timestamps of the current text are in order too. */
  lemma TimesInOrder(history: seq<Shown>, text: string, times: seq<nat>)
    requires InOrder(history) && |times| == |text|
    requires forall i: nat :: i < |text| ==> StampedAt(history, text, times, i)
    ensures NonDecreasing(times)
  {
    forall i, j | 0 <= i < j < |times| ensures times[i] <= times[j] {
      EarlierIsNoLater(history, text, times, i, j);
    }
  }
}
