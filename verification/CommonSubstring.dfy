/** The longest stretch that a candidate copy shares with the known text. */
module CommonSubstring {
  ghost predicate SharedAt(a: string, b: string, i: nat, j: nat, n: nat) {
    n <= i <= |a| && n <= j <= |b| && a[i - n..i] == b[j - n..j]
  }

  /** How many characters agree, going back from the ends of a[..i] and b[..j]. */
  ghost function Tail(a: string, b: string, i: nat, j: nat): (n: nat)
    requires i <= |a| && j <= |b|
    ensures n <= i && n <= j
  {
    if i == 0 || j == 0 || a[i - 1] != b[j - 1] then 0 else Tail(a, b, i - 1, j - 1) + 1
  }

  /** Exactly the stretches no longer than Tail end alike here. */
  lemma {:induction false} TailIsLongest(a: string, b: string, i: nat, j: nat, n: nat)
    requires n <= i <= |a| && n <= j <= |b|
    ensures SharedAt(a, b, i, j, n) <==> n <= Tail(a, b, i, j)
  {
    if n > 0 {
      var u, v := a[i - n..i], b[j - n..j];
      assert u == a[i - n..i - 1] + [a[i - 1]] && v == b[j - n..j - 1] + [b[j - 1]];
      assert u[..n - 1] == a[i - n..i - 1] && v[..n - 1] == b[j - n..j - 1];
      assert u[n - 1] == a[i - 1] && v[n - 1] == b[j - 1];
      TailIsLongest(a, b, i - 1, j - 1, n - 1);
    }
  }

  /** best is the longest Tail over the first i ends in a, and over the first j ends in b after the next. */
  ghost predicate IsBest(a: string, b: string, i: nat, j: nat, best: nat)
    requires i <= |a| && j <= |b|
  {
    && (forall k: nat, l: nat :: k <= |a| && l <= |b| && (k <= i || (k == i + 1 && l <= j)) ==> Tail(a, b, k, l) <= best)
    && exists k: nat, l: nat :: k <= |a| && l <= |b| && Tail(a, b, k, l) == best
  }

  method LongestCommonSubstringLen(a: string, b: string) returns (best: nat)
    ensures exists i: nat, j: nat :: SharedAt(a, b, i, j, best)
    ensures forall i: nat, j: nat, n: nat :: SharedAt(a, b, i, j, n) ==> n <= best
  {
    best := 0;
    if a != "" && b != "" {
      var prev := new nat[|b| + 1](j => 0);
      assert Tail(a, b, 0, 0) == 0;
      for i := 0 to |a|
        invariant fresh(prev) && prev.Length == |b| + 1
        invariant forall l :: 0 <= l <= |b| ==> prev[l] == Tail(a, b, i, l)
        invariant IsBest(a, b, i, 0, best)
      {
        prev, best := NextRow(a, b, i, prev, best);
      }
    }
    BestIsLongest(a, b, best);
  }

  /** The inner loop of LongestCommonSubstringLen. */
  method NextRow(a: string, b: string, i: nat, prev: array<nat>, best0: nat) returns (curr: array<nat>, best: nat)
    requires i < |a| && prev.Length == |b| + 1 && IsBest(a, b, i, 0, best0)
    requires forall l :: 0 <= l <= |b| ==> prev[l] == Tail(a, b, i, l)
    ensures fresh(curr) && curr.Length == |b| + 1 && IsBest(a, b, i + 1, 0, best)
    ensures forall l :: 0 <= l <= |b| ==> curr[l] == Tail(a, b, i + 1, l)
  {
    curr := new nat[|b| + 1](j => 0);
    best := best0;
    for j := 0 to |b|
      invariant forall l :: 0 <= l <= j ==> curr[l] == Tail(a, b, i + 1, l)
      invariant forall l :: j < l <= |b| ==> curr[l] == 0
      invariant IsBest(a, b, i, j, best)
    {
      if a[i] == b[j] {
        curr[j + 1] := prev[j] + 1;
        best := if best > curr[j + 1] then best else curr[j + 1];
      }
      assert curr[j + 1] == Tail(a, b, i + 1, j + 1);
    }
  }

  lemma BestIsLongest(a: string, b: string, best: nat)
    requires a == "" || b == "" ==> best == 0
    requires a != "" && b != "" ==> IsBest(a, b, |a|, 0, best)
    ensures exists i: nat, j: nat :: SharedAt(a, b, i, j, best)
    ensures forall i: nat, j: nat, n: nat :: SharedAt(a, b, i, j, n) ==> n <= best
  {
    if a == "" || b == "" {
      assert SharedAt(a, b, 0, 0, best);
    } else {
      var k: nat, l: nat :| k <= |a| && l <= |b| && Tail(a, b, k, l) == best;
      TailIsLongest(a, b, k, l, best);
      forall i: nat, j: nat, n: nat | SharedAt(a, b, i, j, n)
        ensures n <= best
      {
        TailIsLongest(a, b, i, j, n);
      }
    }
  }
}
