/**
  The adversarial bench's global alignment of dit/dah strings: the two tables
  it fills, and what they mean over all global alignments.
*/
module NeedlemanWunsch {
  import opened EditDistance

  // ---------------------------------------------------------------------
  // Global alignments
  // ---------------------------------------------------------------------

  /** An alignment, read from its last column: a pair, a symbol of a alone, or one of b alone. */
  datatype Alignment = Start | Pair(before: Alignment) | Up(before: Alignment) | Left(before: Alignment)

  ghost predicate Aligns(al: Alignment, a: string, b: string) {
    match al
    case Start => a == [] && b == []
    case Pair(p) => a != [] && b != [] && Aligns(p, DropLast(a), DropLast(b))
    case Up(p) => a != [] && Aligns(p, DropLast(a), b)
    case Left(p) => b != [] && Aligns(p, a, DropLast(b))
  }

  /** Match +1, mismatch -1, gap -1. */
  ghost function Score(al: Alignment, a: string, b: string): int
    requires Aligns(al, a, b)
  {
    match al
    case Start => 0
    case Pair(p) => Score(p, DropLast(a), DropLast(b)) + if Last(a) == Last(b) then 1 else -1
    case Up(p) => Score(p, DropLast(a), b) - 1
    case Left(p) => Score(p, a, DropLast(b)) - 1
  }

  ghost function Matches(al: Alignment, a: string, b: string): nat
    requires Aligns(al, a, b)
  {
    match al
    case Start => 0
    case Pair(p) => Matches(p, DropLast(a), DropLast(b)) + if Last(a) == Last(b) then 1 else 0
    case Up(p) => Matches(p, DropLast(a), b)
    case Left(p) => Matches(p, a, DropLast(b))
  }

  ghost predicate Optimal(al: Alignment, a: string, b: string) {
    Aligns(al, a, b) && forall other :: Aligns(other, a, b) ==> Score(other, a, b) <= Score(al, a, b)
  }

  // ---------------------------------------------------------------------
  // The recurrence, with its tie-break: a pair over a gap, up over left
  // ---------------------------------------------------------------------

  function Entry(a: string, b: string): (int, nat)
    decreases |a| + |b|
  {
    if a == [] then (-|b|, 0)
    else if b == [] then (-|a|, 0)
    else
      var same := Last(a) == Last(b);
      var d, u, l := Entry(DropLast(a), DropLast(b)), Entry(DropLast(a), b), Entry(a, DropLast(b));
      Choose(same, d, u, l)
  }

  function Choose(same: bool, d: (int, nat), u: (int, nat), l: (int, nat)): (int, nat) {
    var diag := d.0 + if same then 1 else -1;
    if u.0 - 1 > diag then
      if l.0 - 1 > u.0 - 1 then (l.0 - 1, l.1) else (u.0 - 1, u.1)
    else if l.0 - 1 > diag then (l.0 - 1, l.1)
    else (diag, d.1 + if same then 1 else 0)
  }

  /** No optimal alignment ends with a pair; none ends with a symbol of a alone. */
  ghost predicate NoPair(a: string, b: string) { forall o :: !Optimal(Pair(o), a, b) }

  ghost predicate NoUp(a: string, b: string) { forall o :: !Optimal(Up(o), a, b) }

  /** Of the optimal alignments the one that, column by column from the end, takes a pair before a gap, and up before left. */
  ghost predicate Preferred(al: Alignment, a: string, b: string)
    decreases al
  {
    && Optimal(al, a, b)
    && match al
       case Start => true
       case Pair(p) => Preferred(p, DropLast(a), DropLast(b))
       case Up(p) => Preferred(p, DropLast(a), b) && NoPair(a, b)
       case Left(p) => Preferred(p, a, DropLast(b)) && NoPair(a, b) && NoUp(a, b)
  }

  /** No alignment scores more than the table. */
  lemma {:induction false} ScoreBound(al: Alignment, a: string, b: string)
    requires Aligns(al, a, b)
    ensures Score(al, a, b) <= Entry(a, b).0
    decreases al
  {
    match al
    case Start =>
    case Pair(p) => ScoreBound(p, DropLast(a), DropLast(b));
    case Up(p) => ScoreBound(p, DropLast(a), b);
    case Left(p) => ScoreBound(p, a, DropLast(b));
  }

  /** One alignment attains both numbers of the table at once. */
  lemma {:induction false} ScoreAttained(a: string, b: string) returns (al: Alignment)
    ensures Aligns(al, a, b)
    ensures Score(al, a, b) == Entry(a, b).0 && Matches(al, a, b) == Entry(a, b).1
    decreases |a| + |b|
  {
    if a == [] && b == [] {
      al := Start;
    } else if a == [] {
      var p := ScoreAttained(a, DropLast(b));
      al := Left(p);
    } else if b == [] {
      var p := ScoreAttained(DropLast(a), b);
      al := Up(p);
    } else {
      var d, u, l := Entry(DropLast(a), DropLast(b)), Entry(DropLast(a), b), Entry(a, DropLast(b));
      var diag := d.0 + if Last(a) == Last(b) then 1 else -1;
      if u.0 - 1 <= diag && l.0 - 1 <= diag {
        var p := ScoreAttained(DropLast(a), DropLast(b));
        al := Pair(p);
      } else if l.0 <= u.0 {
        var p := ScoreAttained(DropLast(a), b);
        al := Up(p);
      } else {
        var p := ScoreAttained(a, DropLast(b));
        al := Left(p);
      }
    }
  }

  /** The table holds the best score of any alignment and the matches of one attaining it. */
  lemma EntryIsOptimum(a: string, b: string) returns (al: Alignment)
    ensures Optimal(al, a, b)
    ensures Score(al, a, b) == Entry(a, b).0
    ensures Matches(al, a, b) == Entry(a, b).1
  {
    al := ScoreAttained(a, b);
    forall other | Aligns(other, a, b) ensures Score(other, a, b) <= Score(al, a, b) {
      ScoreBound(other, a, b);
    }
  }

  lemma AttainedIsOptimal(al: Alignment, a: string, b: string)
    requires Aligns(al, a, b) && Score(al, a, b) == Entry(a, b).0
    ensures Optimal(al, a, b)
  {
    forall other | Aligns(other, a, b) ensures Score(other, a, b) <= Score(al, a, b) {
      ScoreBound(other, a, b);
    }
  }

  lemma OptimalAttains(al: Alignment, a: string, b: string)
    requires Optimal(al, a, b)
    ensures Score(al, a, b) == Entry(a, b).0
  {
    var best := ScoreAttained(a, b);
    ScoreBound(al, a, b);
  }

  /** Where a pair, or a symbol of a alone, cannot reach the table's score, no optimal alignment ends so. */
  lemma EndsOtherwise(a: string, b: string)
    ensures a == [] || b == [] ==> NoPair(a, b)
    ensures a == [] ==> NoUp(a, b)
    ensures a != [] && b != [] && Entry(DropLast(a), DropLast(b)).0 + (if Last(a) == Last(b) then 1 else -1) < Entry(a, b).0
            ==> NoPair(a, b)
    ensures a != [] && Entry(DropLast(a), b).0 - 1 < Entry(a, b).0 ==> NoUp(a, b)
  {
    forall o | Optimal(Pair(o), a, b)
      ensures a != [] && b != []
      ensures Entry(DropLast(a), DropLast(b)).0 + (if Last(a) == Last(b) then 1 else -1) >= Entry(a, b).0
    {
      OptimalAttains(Pair(o), a, b);
      ScoreBound(o, DropLast(a), DropLast(b));
    }
    forall o | Optimal(Up(o), a, b)
      ensures a != [] && Entry(DropLast(a), b).0 - 1 >= Entry(a, b).0
    {
      OptimalAttains(Up(o), a, b);
      ScoreBound(o, DropLast(a), b);
    }
  }

  /** The matches of the table are those of the preferred alignment. */
  lemma {:induction false} PreferredAttained(a: string, b: string) returns (al: Alignment)
    ensures Preferred(al, a, b) && Score(al, a, b) == Entry(a, b).0 && Matches(al, a, b) == Entry(a, b).1
    decreases |a| + |b|
  {
    EndsOtherwise(a, b);
    if a == [] && b == [] {
      al := Start;
    } else if a == [] {
      var p := PreferredAttained(a, DropLast(b));
      al := Left(p);
    } else if b == [] {
      var p := PreferredAttained(DropLast(a), b);
      al := Up(p);
    } else {
      var d, u, l := Entry(DropLast(a), DropLast(b)), Entry(DropLast(a), b), Entry(a, DropLast(b));
      var diag := d.0 + if Last(a) == Last(b) then 1 else -1;
      if u.0 - 1 <= diag && l.0 - 1 <= diag {
        var p := PreferredAttained(DropLast(a), DropLast(b));
        al := Pair(p);
      } else if l.0 <= u.0 {
        var p := PreferredAttained(DropLast(a), b);
        al := Up(p);
      } else {
        var p := PreferredAttained(a, DropLast(b));
        al := Left(p);
      }
    }
    AttainedIsOptimal(al, a, b);
  }

  /** There is only one preferred alignment. */
  lemma {:induction false} PreferredIsUnique(x: Alignment, y: Alignment, a: string, b: string)
    requires Preferred(x, a, b) && Preferred(y, a, b)
    ensures x == y
    decreases x
  {
    match x
    case Start =>
    case Pair(p) =>
      assert y.Pair?;
      PreferredIsUnique(p, y.before, DropLast(a), DropLast(b));
    case Up(p) =>
      assert y.Up?;
      PreferredIsUnique(p, y.before, DropLast(a), b);
    case Left(p) =>
      assert y.Left?;
      PreferredIsUnique(p, y.before, a, DropLast(b));
  }

  /** Of an alignment of n with m symbols, at most min(n, m) columns match, and all n = m only when equal. */
  lemma {:induction false} MatchesBound(al: Alignment, a: string, b: string)
    requires Aligns(al, a, b)
    ensures Matches(al, a, b) <= |a| && Matches(al, a, b) <= |b|
    ensures Score(al, a, b) <= Matches(al, a, b)
    ensures Matches(al, a, b) == |a| == |b| ==> a == b
    decreases al
  {
    match al
    case Start =>
    case Pair(p) =>
      MatchesBound(p, DropLast(a), DropLast(b));
      assert a == DropLast(a) + [Last(a)] && b == DropLast(b) + [Last(b)];
    case Up(p) => MatchesBound(p, DropLast(a), b);
    case Left(p) => MatchesBound(p, a, DropLast(b));
  }

  lemma {:induction false} SelfScore(a: string)
    ensures Entry(a, a).0 >= |a|
  {
    if a != [] {
      SelfScore(DropLast(a));
    }
  }

  /** Element recall and precision are at most 1, and both are 1 exactly for equal strings. */
  lemma RecallAndPrecision(a: string, b: string)
    ensures Entry(a, b).1 <= |a| && Entry(a, b).1 <= |b|
    ensures Entry(a, b).1 == |a| == |b| <==> a == b
  {
    var al := ScoreAttained(a, b);
    MatchesBound(al, a, b);
    if a == b {
      SelfScore(a);
    }
  }

  // ---------------------------------------------------------------------
  // The table-filling method
  // ---------------------------------------------------------------------

  /** Row i, column j of the two tables, the entry for two prefixes. */
  ghost function ScoreAt(a: string, b: string, i: int, j: int): int {
    if 0 <= i <= |a| && 0 <= j <= |b| then Entry(a[..i], b[..j]).0 else 0
  }

  ghost function MatchesAt(a: string, b: string, i: int, j: int): nat {
    if 0 <= i <= |a| && 0 <= j <= |b| then Entry(a[..i], b[..j]).1 else 0
  }

  lemma AtStep(a: string, b: string, i: nat, j: nat)
    requires 1 <= i <= |a| && 1 <= j <= |b|
    ensures (ScoreAt(a, b, i, j), MatchesAt(a, b, i, j))
         == Choose(a[i - 1] == b[j - 1],
                   (ScoreAt(a, b, i - 1, j - 1), MatchesAt(a, b, i - 1, j - 1)),
                   (ScoreAt(a, b, i - 1, j), MatchesAt(a, b, i - 1, j)),
                   (ScoreAt(a, b, i, j - 1), MatchesAt(a, b, i, j - 1)))
  {
    assert DropLast(a[..i]) == a[..i - 1] && DropLast(b[..j]) == b[..j - 1];
  }

  lemma AtBorders(a: string, b: string)
    ensures forall i :: 0 <= i <= |a| ==> ScoreAt(a, b, i, 0) == -i && MatchesAt(a, b, i, 0) == 0
    ensures forall j :: 0 <= j <= |b| ==> ScoreAt(a, b, 0, j) == -j && MatchesAt(a, b, 0, j) == 0
    ensures Entry(a, b) == (ScoreAt(a, b, |a|, |b|), MatchesAt(a, b, |a|, |b|))
  {
    assert a[..|a|] == a && b[..|b|] == b;
  }

  /** One cell: the best of the three moves, and the matches carried along the move taken. */
  method FillCell(same: bool, dScore: int, dMatches: int, uScore: int, uMatches: int, lScore: int, lMatches: int)
    returns (best: int, count: int)
    requires dMatches >= 0 && uMatches >= 0 && lMatches >= 0
    ensures (best, count) == Choose(same, (dScore, dMatches), (uScore, uMatches), (lScore, lMatches))
  {
    var diag := dScore + if same then 1 else -1;
    var up, left := uScore - 1, lScore - 1;
    var src := 'd';
    best := diag;
    if up > best {
      best, src := up, 'u';
    }
    if left > best {
      best, src := left, 'l';
    }
    if src == 'd' {
      count := dMatches + if same then 1 else 0;
    } else if src == 'u' {
      count := uMatches;
    } else {
      count := lMatches;
    }
  }

  method FillRow(score: array2<int>, matches: array2<int>, a: string, b: string, i: nat)
    requires score != matches
    requires score.Length0 == matches.Length0 == |a| + 1 && score.Length1 == matches.Length1 == |b| + 1
    requires 1 <= i <= |a|
    requires forall k :: 0 <= k <= |a| ==> score[k, 0] == ScoreAt(a, b, k, 0) && matches[k, 0] == MatchesAt(a, b, k, 0)
    requires forall k, l :: 0 <= k < i && 0 <= l <= |b| ==> score[k, l] == ScoreAt(a, b, k, l) && matches[k, l] == MatchesAt(a, b, k, l)
    modifies score, matches
    ensures forall k :: 0 <= k <= |a| ==> score[k, 0] == ScoreAt(a, b, k, 0) && matches[k, 0] == MatchesAt(a, b, k, 0)
    ensures forall k, l :: 0 <= k <= i && 0 <= l <= |b| ==> score[k, l] == ScoreAt(a, b, k, l) && matches[k, l] == MatchesAt(a, b, k, l)
  {
    for j := 1 to |b| + 1
      invariant forall k :: 0 <= k <= |a| ==> score[k, 0] == ScoreAt(a, b, k, 0) && matches[k, 0] == MatchesAt(a, b, k, 0)
      invariant forall k, l :: 0 <= k < i && 0 <= l <= |b| ==> score[k, l] == ScoreAt(a, b, k, l) && matches[k, l] == MatchesAt(a, b, k, l)
      invariant forall l :: 0 <= l < j ==> score[i, l] == ScoreAt(a, b, i, l) && matches[i, l] == MatchesAt(a, b, i, l)
    {
      AtStep(a, b, i, j);
      var best, count := FillCell(a[i - 1] == b[j - 1],
                                  score[i - 1, j - 1], matches[i - 1, j - 1],
                                  score[i - 1, j], matches[i - 1, j],
                                  score[i, j - 1], matches[i, j - 1]);
      score[i, j] := best;
      matches[i, j] := count;
    }
  }

  method NeedlemanWunschMatch(a: string, b: string) returns (count: nat, n: nat, m: nat)
    ensures n == |a| && m == |b|
    ensures count == Entry(a, b).1
    ensures exists al :: Optimal(al, a, b) && Preferred(al, a, b) && Matches(al, a, b) == count
  {
    n, m := |a|, |b|;
    count := FillTables(a, b);
    ghost var al := PreferredAttained(a, b);
  }

  method FillTables(a: string, b: string) returns (count: nat)
    ensures count == Entry(a, b).1
  {
    AtBorders(a, b);
    var n, m := |a|, |b|;
    if a == [] || b == [] {
      return 0;
    }
    var score := new int[n + 1, m + 1]((i, j) => 0);
    var matches := new int[n + 1, m + 1]((i, j) => 0);
    for i := 1 to n + 1
      invariant forall k :: 0 <= k < i ==> score[k, 0] == -k
      invariant forall k, l :: 0 <= k <= n && 0 <= l <= m ==> matches[k, l] == 0
    {
      score[i, 0] := -i;
    }
    for j := 1 to m + 1
      invariant forall k :: 0 <= k <= n ==> score[k, 0] == -k
      invariant forall l :: 0 <= l < j ==> score[0, l] == -l
      invariant forall k, l :: 0 <= k <= n && 0 <= l <= m ==> matches[k, l] == 0
    {
      score[0, j] := -j;
    }
    for i := 1 to n + 1
      invariant forall k :: 0 <= k <= n ==> score[k, 0] == ScoreAt(a, b, k, 0) && matches[k, 0] == MatchesAt(a, b, k, 0)
      invariant forall k, l :: 0 <= k < i && 0 <= l <= m ==> score[k, l] == ScoreAt(a, b, k, l) && matches[k, l] == MatchesAt(a, b, k, l)
    {
      FillRow(score, matches, a, b, i);
    }
    return matches[n, m];
  }
}
