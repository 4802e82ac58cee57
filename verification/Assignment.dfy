/**
  Matching the spectral peaks of one decode cycle to the tracks of the last:
  the exhaustive search over mixed-radix codes, and its greedy fallback.
*/
module Assignment {
  import opened Arithmetic
  import opened Wrappers
  import Sorting

  const CODE_LIMIT: nat := 100_000
  const U64_MAX: nat := 0xFFFF_FFFF_FFFF_FFFF

  /** matching[i] is the old track given to peak i, if any. */
  type Matching = seq<Option<nat>>

  // ---------------------------------------------------------------------
  // What a matching may be, and what it costs
  // ---------------------------------------------------------------------

  ghost predicate Within(tracks: seq<real>, peaks: seq<real>, tol: real, i: int, j: int) {
    0 <= i < |peaks| && 0 <= j < |tracks| && Abs(peaks[i] - tracks[j]) <= tol
  }

  ghost predicate Injective(m: Matching) {
    forall i, k :: 0 <= i < k < |m| && m[i].Some? ==> m[i] != m[k]
  }

  /** No track is used twice and every pair is within the tolerance. */
  ghost predicate Legal(m: Matching, tracks: seq<real>, peaks: seq<real>, tol: real) {
    && |m| == |peaks|
    && Injective(m)
    && forall i :: 0 <= i < |m| && m[i].Some? ==> Within(tracks, peaks, tol, i, m[i].value)
  }

  /** A matched peak costs its distance, an unmatched one the tolerance. */
  function Term(choice: Option<nat>, tracks: seq<real>, peak: real, tol: real): real {
    if choice.Some? && choice.value < |tracks| then Abs(peak - tracks[choice.value]) else tol
  }

  function Price(m: Matching, tracks: seq<real>, peaks: seq<real>, tol: real): real
    requires |m| == |peaks|
  {
    if m == [] then 0.0
    else Price(m[..|m| - 1], tracks, peaks[..|m| - 1], tol) + Term(m[|m| - 1], tracks, peaks[|m| - 1], tol)
  }

  ghost predicate Optimal(m: Matching, tracks: seq<real>, peaks: seq<real>, tol: real) {
    && Legal(m, tracks, peaks, tol)
    && forall other: Matching :: Legal(other, tracks, peaks, tol) ==> Price(m, tracks, peaks, tol) <= Price(other, tracks, peaks, tol)
  }

  /** Of all legal matchings of that cost, the one with the smallest code. */
  ghost predicate FirstInCodeOrder(m: Matching, tracks: seq<real>, peaks: seq<real>, tol: real)
    requires |m| == |peaks|
  {
    exists code: nat :: m == MatchingOf(code, |tracks|, |peaks|) && NoCheaperBefore(code, m, tracks, peaks, tol)
  }

  ghost predicate NoCheaperBefore(code: nat, m: Matching, tracks: seq<real>, peaks: seq<real>, tol: real)
    requires |m| == |peaks|
  {
    forall c :: 0 <= c < code && Legal(MatchingOf(c, |tracks|, |peaks|), tracks, peaks, tol)
      ==> Price(m, tracks, peaks, tol) < Price(MatchingOf(c, |tracks|, |peaks|), tracks, peaks, tol)
  }

  /** Peak i is left unmatched and track j unused. */
  ghost predicate Free(m: Matching, i: int, j: int) {
    0 <= i < |m| && m[i].None? && forall k :: 0 <= k < |m| ==> m[k] != Some(j)
  }

  /** Every pair in tolerance has one of its two sides already served at least as closely. */
  ghost predicate Stable(m: Matching, tracks: seq<real>, peaks: seq<real>, tol: real) {
    forall i, j :: Within(tracks, peaks, tol, i, j) ==> Served(m, tracks, peaks, i, j)
  }

  ghost predicate Served(m: Matching, tracks: seq<real>, peaks: seq<real>, i: int, j: int) {
    && |m| == |peaks| && 0 <= i < |m| && 0 <= j < |tracks|
    && (|| (m[i].Some? && m[i].value < |tracks| && Abs(peaks[i] - tracks[m[i].value]) <= Abs(peaks[i] - tracks[j]))
        || exists k :: 0 <= k < |m| && m[k] == Some(j) && Abs(peaks[k] - tracks[j]) <= Abs(peaks[i] - tracks[j]))
  }

  lemma {:induction false} PriceOfUpdate(m: Matching, tracks: seq<real>, peaks: seq<real>, tol: real, i: nat, choice: Option<nat>)
    requires |m| == |peaks| && i < |m|
    ensures Price(m[i := choice], tracks, peaks, tol)
         == Price(m, tracks, peaks, tol) - Term(m[i], tracks, peaks[i], tol) + Term(choice, tracks, peaks[i], tol)
  {
    var last := |m| - 1;
    if i == last {
      assert m[i := choice][..last] == m[..last];
    } else {
      assert m[i := choice][..last] == m[..last][i := choice];
      PriceOfUpdate(m[..last], tracks, peaks[..last], tol, i, choice);
    }
  }

  /** Without a match the price is the tolerance for every peak. */
  lemma {:induction false} PriceOfNone(m: Matching, tracks: seq<real>, peaks: seq<real>, tol: real)
    requires |m| == |peaks| && forall i :: 0 <= i < |m| ==> m[i].None?
    ensures Price(m, tracks, peaks, tol) == |m| as real * tol
  {
    if m != [] {
      var n := |m| - 1;
      PriceOfNone(m[..n], tracks, peaks[..n], tol);
      assert |m| as real * tol == n as real * tol + tol;
    }
  }

  /** A match of an unmatched peak changes the price by its distance less the tolerance, whatever else is matched. */
  lemma PriceOfMatch(m: Matching, tracks: seq<real>, peaks: seq<real>, tol: real, i: nat, j: nat)
    requires |m| == |peaks| && i < |m| && m[i].None? && j < |tracks|
    ensures var d := peaks[i] - tracks[j];
            Price(m[i := Some(j)], tracks, peaks, tol) == Price(m, tracks, peaks, tol) + (if d < 0.0 then -d else d) - tol
  {
    PriceOfUpdate(m, tracks, peaks, tol, i, Some(j));
  }

  /** An optimal matching leaves no free pair strictly closer than the tolerance. */
  lemma OptimalIsMaximal(m: Matching, tracks: seq<real>, peaks: seq<real>, tol: real, i: int, j: int)
    requires Optimal(m, tracks, peaks, tol)
    requires Free(m, i, j) && 0 <= j < |tracks|
    ensures Abs(peaks[i] - tracks[j]) >= tol
  {
    if Abs(peaks[i] - tracks[j]) < tol {
      var better := m[i := Some(j)];
      PriceOfUpdate(m, tracks, peaks, tol, i, Some(j));
      assert Legal(better, tracks, peaks, tol);
      assert false;
    }
  }

  // ---------------------------------------------------------------------
  // Codes: base-(n_old + 1) numbers, one digit a peak
  // ---------------------------------------------------------------------

  function Pow(base: nat, n: nat): nat {
    if n == 0 then 1 else base * Pow(base, n - 1)
  }

  function Low(code: nat, base: nat): (d: nat)
    requires base > 0
    ensures d < base
  {
    code % base
  }

  function High(code: nat, base: nat): nat
    requires base > 0
  {
    code / base
  }

  function Digits(code: nat, base: nat, n: nat): seq<nat>
    requires base > 0
    decreases n
  {
    if n == 0 then [] else [Low(code, base)] + Digits(High(code, base), base, n - 1)
  }

  lemma {:induction false} DigitsLength(code: nat, base: nat, n: nat)
    requires base > 0
    ensures |Digits(code, base, n)| == n
    decreases n
  {
    if n > 0 {
      DigitsLength(High(code, base), base, n - 1);
    }
  }

  /** A digit equal to n_old stands for "unmatched". */
  function Choice(digit: nat, nOld: nat): Option<nat> {
    if digit == nOld then None else Some(digit)
  }

  function Choices(digits: seq<nat>, nOld: nat): Matching {
    seq(|digits|, i requires 0 <= i < |digits| => Choice(digits[i], nOld))
  }

  function MatchingOf(code: nat, nOld: nat, nNew: nat): Matching {
    Choices(Digits(code, nOld + 1, nNew), nOld)
  }

  lemma SmallMultiple(base: int, d: int)
    requires -base < base * d < base
    ensures d == 0
  {
    if d >= 1 {
      MulGrows(base, 1, d);
    } else if d <= -1 {
      MulGrows(base, d, -1);
    }
  }

  lemma DivMod(r: nat, q: nat, base: nat)
    requires r < base
    ensures Low(r + base * q, base) == r && High(r + base * q, base) == q
  {
    var x := r + base * q;
    var k, s := x / base, x % base;
    assert x == base * k + s;
    assert base * (k - q) == base * k - base * q;
    SmallMultiple(base, k - q);
  }

  ghost predicate InRange(m: Matching, nOld: nat) {
    forall i :: 0 <= i < |m| && m[i].Some? ==> m[i].value < nOld
  }

  ghost function DigitOf(choice: Option<nat>, nOld: nat): nat {
    if choice.Some? then choice.value else nOld
  }

  ghost function Encode(m: Matching, nOld: nat): nat {
    if m == [] then 0 else DigitOf(m[0], nOld) + (nOld + 1) * Encode(m[1..], nOld)
  }

  lemma HornerBound(base: nat, digit: nat, rest: nat, bound: nat)
    requires digit < base && rest < bound
    ensures digit + base * rest < base * bound
  {
    MulGrows(base, rest, bound - 1);
    assert base * (bound - 1) == base * bound - base;
  }

  lemma {:induction false} EncodeBound(m: Matching, nOld: nat)
    requires InRange(m, nOld)
    ensures Encode(m, nOld) < Pow(nOld + 1, |m|)
  {
    if m != [] {
      EncodeBound(m[1..], nOld);
      HornerBound(nOld + 1, DigitOf(m[0], nOld), Encode(m[1..], nOld), Pow(nOld + 1, |m| - 1));
    }
  }

  lemma {:induction false} EncodeDigits(m: Matching, nOld: nat)
    requires InRange(m, nOld)
    ensures Digits(Encode(m, nOld), nOld + 1, |m|) == seq(|m|, i requires 0 <= i < |m| => DigitOf(m[i], nOld))
  {
    if m != [] {
      EncodeDigits(m[1..], nOld);
      DivMod(DigitOf(m[0], nOld), Encode(m[1..], nOld), nOld + 1);
    }
  }

  /** Every matching of tracks in range has a code, and it is among those enumerated. */
  lemma EncodeRoundTrip(m: Matching, nOld: nat)
    requires InRange(m, nOld)
    ensures Encode(m, nOld) < Pow(nOld + 1, |m|)
    ensures MatchingOf(Encode(m, nOld), nOld, |m|) == m
  {
    EncodeBound(m, nOld);
    EncodeDigits(m, nOld);
  }

  function SaturatingPow(base: nat, n: nat): nat {
    var p := Pow(base, n);
    if p > U64_MAX then U64_MAX else p
  }

  // ---------------------------------------------------------------------
  // The cost matrix; None stands for the infinity of a pair out of tolerance
  // ---------------------------------------------------------------------

  ghost predicate CostMatrix(cost: seq<seq<Option<real>>>, tracks: seq<real>, peaks: seq<real>, tol: real) {
    && |cost| == |peaks|
    && (forall i :: 0 <= i < |cost| ==> |cost[i]| == |tracks|)
    && forall i, j :: 0 <= i < |peaks| && 0 <= j < |tracks| ==>
         cost[i][j] == if Abs(peaks[i] - tracks[j]) <= tol then Some(Abs(peaks[i] - tracks[j])) else None
  }

  method BuildCost(tracks: seq<real>, peaks: seq<real>, tol: real) returns (cost: seq<seq<Option<real>>>)
    ensures CostMatrix(cost, tracks, peaks, tol)
  {
    cost := [];
    for i := 0 to |peaks|
      invariant CostMatrix(cost, tracks, peaks[..i], tol)
    {
      var row: seq<Option<real>> := [];
      for j := 0 to |tracks|
        invariant |row| == j
        invariant forall k :: 0 <= k < j ==>
          row[k] == if Abs(peaks[i] - tracks[k]) <= tol then Some(Abs(peaks[i] - tracks[k])) else None
      {
        var d := Abs(peaks[i] - tracks[j]);
        row := row + [if d <= tol then Some(d) else None];
      }
      cost := cost + [row];
    }
    assert peaks[..|peaks|] == peaks;
  }

  // ---------------------------------------------------------------------
  // Exhaustive search
  // ---------------------------------------------------------------------

  /** The digits of one code, or None as soon as a track is picked twice. */
  method ReadCode(code0: nat, nOld: nat, nNew: nat) returns (r: Option<Matching>)
    ensures r.Some? <==> Injective(MatchingOf(code0, nOld, nNew))
    ensures r.Some? ==> r.value == MatchingOf(code0, nOld, nNew)
    ensures var m := MatchingOf(code0, nOld, nNew);
            |m| == nNew && forall i :: 0 <= i < nNew && m[i].Some? ==> m[i].value < nOld
  {
    DigitsLength(code0, nOld + 1, nNew);
    ghost var digits := Digits(code0, nOld + 1, nNew);
    ghost var all := MatchingOf(code0, nOld, nNew);
    var used := new bool[nOld](_ => false);
    var code := code0;
    var tryAssign: Matching := [];
    var clash := false;
    for i := 0 to nNew
      invariant 0 <= code && digits[i..] == Digits(code, nOld + 1, nNew - i)
      invariant forall k :: 0 <= k < i && all[k].Some? ==> all[k].value < nOld
      invariant !clash ==> tryAssign == all[..i]
      invariant !clash ==> forall j :: 0 <= j < nOld ==> (used[j] <==> Some(j) in all[..i])
      invariant !clash ==> Injective(all[..i])
      invariant clash ==> !Injective(all)
    {
      var pick := Low(code, nOld + 1);
      code := High(code, nOld + 1);
      assert digits[i] == digits[i..][0] == pick;
      assert digits[i + 1..] == digits[i..][1..];
      assert all[i] == Choice(pick, nOld);
      assert all[..i + 1] == all[..i] + [all[i]];
      if !clash {
        if pick == nOld {
          tryAssign := tryAssign + [None];
        } else if used[pick] {
          clash := true;
          assert Some(pick) in all[..i];
        } else {
          used[pick] := true;
          tryAssign := tryAssign + [Some(pick)];
        }
      }
    }
    assert all[..nNew] == all;
    return if clash then None else Some(tryAssign);
  }

  /** The cost of a matching, or None when a pair is out of tolerance. */
  method TotalCost(m: Matching, cost: seq<seq<Option<real>>>, tracks: seq<real>, peaks: seq<real>, tol: real)
    returns (r: Option<real>)
    requires CostMatrix(cost, tracks, peaks, tol) && |m| == |peaks|
    requires forall i :: 0 <= i < |m| && m[i].Some? ==> m[i].value < |tracks|
    ensures r.Some? <==> forall i :: 0 <= i < |m| && m[i].Some? ==> Within(tracks, peaks, tol, i, m[i].value)
    ensures r.Some? ==> r.value == Price(m, tracks, peaks, tol)
  {
    var total := 0.0;
    for i := 0 to |m|
      invariant forall k :: 0 <= k < i && m[k].Some? ==> Within(tracks, peaks, tol, k, m[k].value)
      invariant total == Price(m[..i], tracks, peaks[..i], tol)
    {
      assert m[..i + 1][..i] == m[..i] && peaks[..i + 1][..i] == peaks[..i];
      if m[i].Some? {
        var c := cost[i][m[i].value];
        if c.None? {
          assert !Within(tracks, peaks, tol, i, m[i].value);
          return None;
        }
        total := total + c.value;
      } else {
        total := total + tol;
      }
    }
    assert m[..|m|] == m && peaks[..|m|] == peaks;
    return Some(total);
  }

  /** What the search knows of the codes below limit. */
  ghost predicate Searched(best: Matching, bestCost: Option<real>, bestCode: nat, limit: nat,
                           tracks: seq<real>, peaks: seq<real>, tol: real) {
    && |best| == |peaks|
    && (bestCost.Some? ==>
          && Legal(best, tracks, peaks, tol) && bestCost.value == Price(best, tracks, peaks, tol)
          && best == MatchingOf(bestCode, |tracks|, |peaks|) && NoCheaperBefore(bestCode, best, tracks, peaks, tol))
    && forall c :: 0 <= c < limit && Legal(MatchingOf(c, |tracks|, |peaks|), tracks, peaks, tol)
         ==> bestCost.Some? && bestCost.value <= Price(MatchingOf(c, |tracks|, |peaks|), tracks, peaks, tol)
  }

  method Search(cost: seq<seq<Option<real>>>, tracks: seq<real>, peaks: seq<real>, tol: real, total: nat)
    returns (best: Matching)
    requires CostMatrix(cost, tracks, peaks, tol)
    requires total == Pow(|tracks| + 1, |peaks|)
    ensures Optimal(best, tracks, peaks, tol)
    ensures FirstInCodeOrder(best, tracks, peaks, tol)
  {
    var nOld, nNew := |tracks|, |peaks|;
    var bestCost: Option<real> := None;
    ghost var bestCode: nat := 0;
    best := seq(nNew, _ => None);
    for code := 0 to total
      invariant Searched(best, bestCost, bestCode, code, tracks, peaks, tol)
    {
      var tryAssign := ReadCode(code, nOld, nNew);
      if tryAssign.Some? {
        var totalCost := TotalCost(tryAssign.value, cost, tracks, peaks, tol);
        if totalCost.Some? && (bestCost.None? || totalCost.value < bestCost.value) {
          bestCost, best, bestCode := totalCost, tryAssign.value, code;
        }
      }
    }
    SearchedAll(best, bestCost, bestCode, tracks, peaks, tol);
  }

  /** Every legal matching has a code that the search comes to. */
  lemma CodeOf(m: Matching, tracks: seq<real>, peaks: seq<real>, tol: real) returns (code: nat)
    requires Legal(m, tracks, peaks, tol)
    ensures code < Pow(|tracks| + 1, |peaks|) && MatchingOf(code, |tracks|, |peaks|) == m
  {
    code := Encode(m, |tracks|);
    EncodeRoundTrip(m, |tracks|);
  }

  lemma NobodyIsLegal(tracks: seq<real>, peaks: seq<real>, tol: real) returns (nobody: Matching)
    ensures Legal(nobody, tracks, peaks, tol)
  {
    nobody := seq(|peaks|, _ => None);
  }

  lemma SearchedAll(best: Matching, bestCost: Option<real>, bestCode: nat, tracks: seq<real>, peaks: seq<real>, tol: real)
    requires Searched(best, bestCost, bestCode, Pow(|tracks| + 1, |peaks|), tracks, peaks, tol)
    ensures Optimal(best, tracks, peaks, tol) && FirstInCodeOrder(best, tracks, peaks, tol)
  {
    forall other: Matching | Legal(other, tracks, peaks, tol)
      ensures bestCost.Some? && bestCost.value <= Price(other, tracks, peaks, tol)
    {
      var code := CodeOf(other, tracks, peaks, tol);
    }
    var nobody := NobodyIsLegal(tracks, peaks, tol);
  }

  // ---------------------------------------------------------------------
  // Greedy fallback
  // ---------------------------------------------------------------------

  function PairCost(p: (int, int, real)): real { p.2 }

  ghost predicate IsPair(p: (int, int, real), tracks: seq<real>, peaks: seq<real>, tol: real) {
    Within(tracks, peaks, tol, p.0, p.1) && p.2 == Abs(peaks[p.0] - tracks[p.1])
  }

  method FinitePairs(cost: seq<seq<Option<real>>>, tracks: seq<real>, peaks: seq<real>, tol: real)
    returns (pairs: seq<(int, int, real)>)
    requires CostMatrix(cost, tracks, peaks, tol)
    ensures forall p :: p in pairs <==> IsPair(p, tracks, peaks, tol)
  {
    pairs := [];
    for i := 0 to |cost|
      invariant forall p :: p in pairs <==> IsPair(p, tracks, peaks, tol) && p.0 < i
    {
      for j := 0 to |cost[i]|
        invariant forall p :: p in pairs <==> IsPair(p, tracks, peaks, tol) && (p.0 < i || (p.0 == i && p.1 < j))
      {
        if cost[i][j].Some? {
          pairs := pairs + [(i, j, cost[i][j].value)];
        }
      }
    }
  }

  ghost predicate Pairs(pairs: seq<(int, int, real)>, tracks: seq<real>, peaks: seq<real>, tol: real) {
    && (forall p :: p in pairs ==> IsPair(p, tracks, peaks, tol))
    && forall i, j :: 0 <= i < j < |pairs| ==> pairs[i].2 <= pairs[j].2
  }

  /** Every pair picked so far is at least as close as every pair still to come. */
  ghost predicate NoFarther(m: Matching, rest: seq<(int, int, real)>, tracks: seq<real>, peaks: seq<real>)
    requires |m| == |peaks|
  {
    forall i, k :: 0 <= i < |m| && m[i].Some? && m[i].value < |tracks| && 0 <= k < |rest|
      ==> Abs(peaks[i] - tracks[m[i].value]) <= rest[k].2
  }

  /** What the greedy loop knows when the first n pairs are done. */
  ghost predicate Picked(m: Matching, sorted: seq<(int, int, real)>, n: nat, tracks: seq<real>, peaks: seq<real>, tol: real)
    requires n <= |sorted|
  {
    && Legal(m, tracks, peaks, tol)
    && NoFarther(m, sorted[n..], tracks, peaks)
    && forall p :: p in sorted[..n] ==> Served(m, tracks, peaks, p.0, p.1)
  }

  /** The next pair is taken if both its sides are free; either way it is served afterwards. */
  lemma PickNext(m: Matching, sorted: seq<(int, int, real)>, n: nat, tracks: seq<real>, peaks: seq<real>, tol: real)
    requires Pairs(sorted, tracks, peaks, tol) && n < |sorted| && Picked(m, sorted, n, tracks, peaks, tol)
    ensures var (i, j, c) := sorted[n];
            && 0 <= i < |m| && 0 <= j < |tracks|
            && (m[i].None? && Some(j) !in m ==> Picked(m[i := Some(j)], sorted, n + 1, tracks, peaks, tol))
            && (m[i].Some? || Some(j) in m ==> Picked(m, sorted, n + 1, tracks, peaks, tol))
  {
    var p := sorted[n];
    assert p in sorted && IsPair(p, tracks, peaks, tol);
    var (i, j, c) := p;
    var rest := sorted[n + 1..];
    assert sorted[n..][0] == p && rest == sorted[n..][1..];
    LaterIsNoNearer(m, sorted[n..], tracks, peaks);
    if m[i].None? && Some(j) !in m {
      forall k | 0 <= k < |rest| ensures c <= rest[k].2 {
        assert rest[k] == sorted[n + 1 + k];
      }
      PickFree(m, rest, i, j, tracks, peaks, tol);
      forall q | q in sorted[..n] ensures Served(m[i := Some(j)], tracks, peaks, q.0, q.1) {
        StillServed(m, tracks, peaks, i, j, q.0, q.1);
      }
      AllServed(m[i := Some(j)], sorted, n, tracks, peaks);
    } else {
      ServedAlready(m, sorted[n..], i, j, tracks, peaks, tol);
      AllServed(m, sorted, n, tracks, peaks);
    }
  }

  lemma LaterIsNoNearer(m: Matching, rest: seq<(int, int, real)>, tracks: seq<real>, peaks: seq<real>)
    requires |m| == |peaks| && rest != [] && NoFarther(m, rest, tracks, peaks)
    ensures NoFarther(m, rest[1..], tracks, peaks)
  {
    forall i, k | 0 <= i < |m| && m[i].Some? && m[i].value < |tracks| && 0 <= k < |rest[1..]|
      ensures Abs(peaks[i] - tracks[m[i].value]) <= rest[1..][k].2
    {
      assert rest[1..][k] == rest[k + 1];
    }
  }

  /** Taking a free pair keeps the matching legal and no farther than the pairs to come. */
  lemma PickFree(m: Matching, rest: seq<(int, int, real)>, i: nat, j: nat, tracks: seq<real>, peaks: seq<real>, tol: real)
    requires Legal(m, tracks, peaks, tol) && NoFarther(m, rest, tracks, peaks)
    requires Within(tracks, peaks, tol, i, j) && m[i].None? && Some(j) !in m
    requires forall k :: 0 <= k < |rest| ==> Abs(peaks[i] - tracks[j]) <= rest[k].2
    ensures var m' := m[i := Some(j)];
            Legal(m', tracks, peaks, tol) && NoFarther(m', rest, tracks, peaks) && Served(m', tracks, peaks, i, j)
  {
    var m' := m[i := Some(j)];
    assert m'[i] == Some(j);
    assert forall h :: 0 <= h < |m| && h != i ==> m'[h] == m[h] && m[h] != Some(j);
  }

  /** A pair with a side taken is served: the pair that took it is no farther. */
  lemma ServedAlready(m: Matching, rest: seq<(int, int, real)>, i: nat, j: nat, tracks: seq<real>, peaks: seq<real>, tol: real)
    requires Legal(m, tracks, peaks, tol) && rest != [] && NoFarther(m, rest, tracks, peaks)
    requires IsPair(rest[0], tracks, peaks, tol) && rest[0].0 == i && rest[0].1 == j
    requires m[i].Some? || Some(j) in m
    ensures Served(m, tracks, peaks, i, j)
  {
    if m[i].Some? {
      assert Within(tracks, peaks, tol, i, m[i].value);
    } else {
      var h :| 0 <= h < |m| && m[h] == Some(j);
      assert Abs(peaks[h] - tracks[j]) <= rest[0].2;
    }
  }

  lemma AllServed(m: Matching, sorted: seq<(int, int, real)>, n: nat, tracks: seq<real>, peaks: seq<real>)
    requires n < |sorted|
    requires forall p :: p in sorted[..n] ==> Served(m, tracks, peaks, p.0, p.1)
    requires Served(m, tracks, peaks, sorted[n].0, sorted[n].1)
    ensures forall p :: p in sorted[..n + 1] ==> Served(m, tracks, peaks, p.0, p.1)
  {
    forall p | p in sorted[..n + 1] ensures Served(m, tracks, peaks, p.0, p.1) {
      assert p in sorted[..n] || p == sorted[n];
    }
  }

  method PickGreedily(sorted: seq<(int, int, real)>, tracks: seq<real>, peaks: seq<real>, tol: real)
    returns (assignment: Matching)
    requires Pairs(sorted, tracks, peaks, tol)
    ensures Legal(assignment, tracks, peaks, tol)
    ensures forall p :: p in sorted ==> Served(assignment, tracks, peaks, p.0, p.1)
  {
    var used := new bool[|tracks|](_ => false);
    assignment := seq(|peaks|, _ => None);
    for n := 0 to |sorted|
      invariant forall j :: 0 <= j < |tracks| ==> (used[j] <==> Some(j) in assignment)
      invariant Picked(assignment, sorted, n, tracks, peaks, tol)
    {
      PickNext(assignment, sorted, n, tracks, peaks, tol);
      var (i, j, c) := sorted[n];
      if assignment[i].None? && !used[j] {
        ghost var before := assignment;
        assignment := assignment[i := Some(j)];
        used[j] := true;
        forall h | 0 <= h < |tracks| ensures used[h] <==> Some(h) in assignment {
          NowUsed(before, i, j, h);
        }
      }
    }
    assert sorted[..|sorted|] == sorted;
  }

  lemma NowUsed(m: Matching, i: nat, j: nat, h: nat)
    requires i < |m| && m[i].None?
    ensures Some(h) in m[i := Some(j)] <==> Some(h) in m || h == j
  {
    assert m[i := Some(j)][i] == Some(j);
    if Some(h) in m {
      var k :| 0 <= k < |m| && m[k] == Some(h);
      assert m[i := Some(j)][k] == Some(h);
    }
  }

  method GreedyAssignment(cost: seq<seq<Option<real>>>, tracks: seq<real>, peaks: seq<real>, tol: real)
    returns (assignment: Matching)
    requires CostMatrix(cost, tracks, peaks, tol)
    ensures Legal(assignment, tracks, peaks, tol)
    ensures Stable(assignment, tracks, peaks, tol)
  {
    var pairs := FinitePairs(cost, tracks, peaks, tol);
    Sorting.SortBySorts(pairs, PairCost);
    Sorting.SortByMembers(pairs, PairCost);
    var sorted := Sorting.SortBy(pairs, PairCost);
    forall i, j | 0 <= i < j < |sorted| ensures sorted[i].2 <= sorted[j].2 {
      assert PairCost(sorted[i]) <= PairCost(sorted[j]);
    }
    assignment := PickGreedily(sorted, tracks, peaks, tol);
    forall i, j | Within(tracks, peaks, tol, i, j) ensures Served(assignment, tracks, peaks, i, j) {
      var p := (i, j, Abs(peaks[i] - tracks[j]));
      assert IsPair(p, tracks, peaks, tol);
      assert p in sorted;
    }
  }

  /** Serving one more free pair takes nothing away from a pair already served. */
  lemma StillServed(m: Matching, tracks: seq<real>, peaks: seq<real>, i: nat, j: nat, i': nat, j': nat)
    requires |m| == |peaks| && i < |m| && m[i].None? && i' < |m| && j' < |tracks|
    requires Served(m, tracks, peaks, i', j')
    ensures Served(m[i := Some(j)], tracks, peaks, i', j')
  {
    if !(m[i'].Some? && m[i'].value < |tracks| && Abs(peaks[i'] - tracks[m[i'].value]) <= Abs(peaks[i'] - tracks[j'])) {
      var k :| 0 <= k < |m| && m[k] == Some(j') && Abs(peaks[k] - tracks[j']) <= Abs(peaks[i'] - tracks[j']);
      assert m[i := Some(j)][k] == Some(j');
    }
  }

  // ---------------------------------------------------------------------
  // The entry point
  // ---------------------------------------------------------------------

  /** Few enough codes for the exhaustive search. */
  predicate Searchable(nOld: nat, nNew: nat) {
    Pow(nOld + 1, nNew) <= CODE_LIMIT
  }

  method AssignTracks(tracks: seq<real>, peaks: seq<real>, tol: real) returns (assignment: Matching)
    ensures Legal(assignment, tracks, peaks, tol)
    ensures tol <= 0.0 ==> forall i :: 0 <= i < |peaks| ==> assignment[i].None?
    ensures tol > 0.0 && Searchable(|tracks|, |peaks|) ==> Optimal(assignment, tracks, peaks, tol)
    ensures tol > 0.0 && Searchable(|tracks|, |peaks|) && tracks != [] && peaks != []
            ==> FirstInCodeOrder(assignment, tracks, peaks, tol)
    ensures tol > 0.0 && !Searchable(|tracks|, |peaks|) ==> Stable(assignment, tracks, peaks, tol)
    ensures tol > 0.0 ==> forall i, j :: Free(assignment, i, j) && 0 <= j < |tracks|
                                        ==> Abs(peaks[i] - tracks[j]) >= tol
  {
    var nNew, nOld := |peaks|, |tracks|;
    assignment := seq(nNew, _ => None);
    if nNew == 0 || nOld == 0 || tol <= 0.0 {
      NothingToMatch(assignment, tracks, peaks, tol);
      return;
    }
    var cost := BuildCost(tracks, peaks, tol);
    var total := SaturatingPow(nOld + 1, nNew);
    if total > CODE_LIMIT {
      assignment := GreedyAssignment(cost, tracks, peaks, tol);
      forall i, j | Free(assignment, i, j) && 0 <= j < |tracks| ensures Abs(peaks[i] - tracks[j]) >= tol {
        assert !Served(assignment, tracks, peaks, i, j);
        assert !Within(tracks, peaks, tol, i, j);
      }
      return;
    }
    assignment := Search(cost, tracks, peaks, tol, total);
    forall i, j | Free(assignment, i, j) && 0 <= j < |tracks| ensures Abs(peaks[i] - tracks[j]) >= tol {
      OptimalIsMaximal(assignment, tracks, peaks, tol, i, j);
    }
  }

  lemma NothingToMatch(m: Matching, tracks: seq<real>, peaks: seq<real>, tol: real)
    requires |m| == |peaks| && forall i :: 0 <= i < |m| ==> m[i].None?
    ensures tracks == [] || peaks == [] ==> Optimal(m, tracks, peaks, tol) && Stable(m, tracks, peaks, tol)
  {
    if tracks == [] || peaks == [] {
      forall other: Matching | Legal(other, tracks, peaks, tol)
        ensures Price(m, tracks, peaks, tol) <= Price(other, tracks, peaks, tol)
      {
        forall i | 0 <= i < |other| ensures other[i] == m[i] {
        }
        assert other == m;
      }
    }
  }
}
