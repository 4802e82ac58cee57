/**
  Levenshtein distance in the four forms the repository writes it, all shown
  to compute one number: the length of a shortest chain of single edits.
*/
module EditDistance {
  import opened Arithmetic

  function DropLast<T>(s: seq<T>): seq<T>
    requires |s| > 0
  {
    s[..|s| - 1]
  }

  function Last<T>(s: seq<T>): T
    requires |s| > 0
  {
    s[|s| - 1]
  }

  // ---------------------------------------------------------------------
  // What the distance means: single edits and chains of them
  // ---------------------------------------------------------------------

  /** y is x with one symbol taken out. */
  ghost predicate Deletes<T>(x: seq<T>, y: seq<T>) {
    exists i :: 0 <= i < |x| && y == x[..i] + x[i + 1..]
  }

  /** y is x with the symbol at one position rewritten. */
  ghost predicate Rewrites<T>(x: seq<T>, y: seq<T>) {
    |x| == |y| && exists i :: 0 <= i < |x| && y == x[i := y[i]]
  }

  /** One insertion, deletion or substitution leads from x to y. */
  ghost predicate OneEdit<T>(x: seq<T>, y: seq<T>) {
    Deletes(x, y) || Deletes(y, x) || Rewrites(x, y)
  }

  /** chain lists every intermediate text on the way from a to b, one edit a step. */
  ghost predicate EditChain<T>(chain: seq<seq<T>>, a: seq<T>, b: seq<T>) {
    && |chain| > 0
    && chain[0] == a
    && Last(chain) == b
    && forall k :: 0 <= k < |chain| - 1 ==> OneEdit(chain[k], chain[k + 1])
  }

  // ---------------------------------------------------------------------
  // The recurrence every form fills in
  // ---------------------------------------------------------------------

  function Cost<T(==)>(x: T, y: T): nat { if x == y then 0 else 1 }

  function Lev<T(==)>(a: seq<T>, b: seq<T>): nat
    decreases |a| + |b|
  {
    if a == [] then |b|
    else if b == [] then |a|
    else Min(Min(Lev(DropLast(a), b) + 1, Lev(a, DropLast(b)) + 1),
             Lev(DropLast(a), DropLast(b)) + Cost(Last(a), Last(b)))
  }

  lemma {:induction false} LevSymmetric<T>(a: seq<T>, b: seq<T>)
    ensures Lev(a, b) == Lev(b, a)
    decreases |a| + |b|
  {
    if a != [] && b != [] {
      LevSymmetric(DropLast(a), b);
      LevSymmetric(a, DropLast(b));
      LevSymmetric(DropLast(a), DropLast(b));
    }
  }

  /** The distance is at least the difference and at most the larger of the lengths. */
  lemma {:induction false} LevLengths<T>(a: seq<T>, b: seq<T>)
    ensures |a| - |b| <= Lev(a, b) && |b| - |a| <= Lev(a, b) <= Max(|a|, |b|)
    decreases |a| + |b|
  {
    if a != [] && b != [] {
      LevLengths(DropLast(a), b);
      LevLengths(a, DropLast(b));
      LevLengths(DropLast(a), DropLast(b));
    }
  }

  lemma {:induction false} LevZero<T>(a: seq<T>, b: seq<T>)
    ensures Lev(a, b) == 0 <==> a == b
    decreases |a| + |b|
  {
    if a != [] && b != [] {
      LevZero(DropLast(a), DropLast(b));
      assert a == DropLast(a) + [Last(a)] && b == DropLast(b) + [Last(b)];
    }
  }

  lemma {:induction false} LevTriangle<T>(a: seq<T>, b: seq<T>, c: seq<T>)
    ensures Lev(a, c) <= Lev(a, b) + Lev(b, c)
    decreases |a| + |b| + |c|
  {
    if a == [] || b == [] || c == [] {
      LevLengths(a, b);
      LevLengths(b, c);
      LevLengths(a, c);
    } else {
      var a', b', c' := DropLast(a), DropLast(b), DropLast(c);
      LevStep(a, c);
      if Lev(a, b) == Lev(a', b) + 1 {
        LevTriangle(a', b, c);
      } else if Lev(b, c) == Lev(b, c') + 1 {
        LevTriangle(a, b, c');
      } else {
        LevStep(a, b);
        LevStep(b, c);
        LevTriangle(a, b', c);
        LevTriangle(a, b', c');
        LevTriangle(a', b', c);
        LevTriangle(a', b', c');
      }
    }
  }

  /** The distance of two texts is that of an insertion, a deletion or a pairing at their ends, and at most each. */
  lemma LevStep<T>(a: seq<T>, b: seq<T>)
    requires a != [] && b != []
    ensures Lev(a, b) <= Lev(DropLast(a), b) + 1
    ensures Lev(a, b) <= Lev(a, DropLast(b)) + 1
    ensures Lev(a, b) <= Lev(DropLast(a), DropLast(b)) + Cost(Last(a), Last(b))
    ensures || Lev(a, b) == Lev(DropLast(a), b) + 1
            || Lev(a, b) == Lev(a, DropLast(b)) + 1
            || Lev(a, b) == Lev(DropLast(a), DropLast(b)) + Cost(Last(a), Last(b))
  {}

  // ---------------------------------------------------------------------
  // The recurrence is the length of a shortest chain
  // ---------------------------------------------------------------------

  lemma {:induction false} LevCommonTail<T>(x: seq<T>, y: seq<T>, tail: seq<T>)
    ensures Lev(x + tail, y + tail) <= Lev(x, y)
    decreases |tail|
  {
    if tail == [] {
      assert x + tail == x && y + tail == y;
    } else {
      var t' := DropLast(tail);
      LevCommonTail(x, y, t');
      assert DropLast(x + tail) == x + t' && DropLast(y + tail) == y + t';
    }
  }

  lemma LevOneDeletion<T>(x: seq<T>, y: seq<T>)
    requires Deletes(x, y)
    ensures Lev(x, y) <= 1
  {
    var i :| 0 <= i < |x| && y == x[..i] + x[i + 1..];
    assert x == x[..i + 1] + x[i + 1..];
    assert DropLast(x[..i + 1]) == x[..i];
    LevZero(x[..i], x[..i]);
    LevCommonTail(x[..i + 1], x[..i], x[i + 1..]);
  }

  lemma LevOneEdit<T>(x: seq<T>, y: seq<T>)
    requires OneEdit(x, y)
    ensures Lev(x, y) <= 1
  {
    if Deletes(x, y) {
      LevOneDeletion(x, y);
    } else if Deletes(y, x) {
      LevOneDeletion(y, x);
      LevSymmetric(x, y);
    } else {
      var i :| 0 <= i < |x| && y == x[i := y[i]];
      LevOneSubstitution(x, y, i);
    }
  }

  lemma LevOneSubstitution<T>(x: seq<T>, y: seq<T>, i: nat)
    requires i < |x| == |y| && y == x[i := y[i]]
    ensures Lev(x, y) <= 1
  {
    assert x == x[..i + 1] + x[i + 1..] && y == y[..i + 1] + x[i + 1..];
    assert DropLast(x[..i + 1]) == x[..i] == DropLast(y[..i + 1]);
    LevZero(x[..i], x[..i]);
    LevCommonTail(x[..i + 1], y[..i + 1], x[i + 1..]);
  }

  /** No chain of edits is shorter than the distance. */
  lemma {:induction false} NoShorterChain<T>(chain: seq<seq<T>>, a: seq<T>, b: seq<T>)
    requires EditChain(chain, a, b)
    ensures Lev(a, b) <= |chain| - 1
    decreases |chain|
  {
    if |chain| == 1 {
      LevZero(a, b);
    } else {
      var rest := chain[1..];
      forall k | 0 <= k < |rest| - 1 ensures OneEdit(rest[k], rest[k + 1]) {
        assert rest[k] == chain[k + 1] && rest[k + 1] == chain[k + 2];
      }
      NoShorterChain(rest, chain[1], b);
      assert OneEdit(chain[0], chain[1]);
      LevOneEdit(a, chain[1]);
      LevTriangle(a, chain[1], b);
    }
  }

  lemma EditUnderTail<T>(x: seq<T>, y: seq<T>, e: T)
    requires OneEdit(x, y)
    ensures OneEdit(x + [e], y + [e])
  {
    if Deletes(x, y) {
      var i :| 0 <= i < |x| && y == x[..i] + x[i + 1..];
      assert y + [e] == (x + [e])[..i] + (x + [e])[i + 1..];
    } else if Deletes(y, x) {
      var i :| 0 <= i < |y| && x == y[..i] + y[i + 1..];
      assert x + [e] == (y + [e])[..i] + (y + [e])[i + 1..];
    } else {
      var i :| 0 <= i < |x| && y == x[i := y[i]];
      assert y + [e] == (x + [e])[i := (y + [e])[i]];
    }
  }

  lemma ChainUnderTail<T>(chain: seq<seq<T>>, a: seq<T>, b: seq<T>, e: T) returns (longer: seq<seq<T>>)
    requires EditChain(chain, a, b)
    ensures EditChain(longer, a + [e], b + [e]) && |longer| == |chain|
  {
    longer := seq(|chain|, k requires 0 <= k < |chain| => chain[k] + [e]);
    forall k | 0 <= k < |longer| - 1 ensures OneEdit(longer[k], longer[k + 1]) {
      EditUnderTail(chain[k], chain[k + 1], e);
    }
  }

  lemma ChainThen<T>(chain: seq<seq<T>>, a: seq<T>, b: seq<T>, c: seq<T>) returns (longer: seq<seq<T>>)
    requires EditChain(chain, a, b) && OneEdit(b, c)
    ensures EditChain(longer, a, c) && |longer| == |chain| + 1
  {
    longer := chain + [c];
    forall k | 0 <= k < |longer| - 1 ensures OneEdit(longer[k], longer[k + 1]) {
      if k < |chain| - 1 {
        assert OneEdit(chain[k], chain[k + 1]);
      }
    }
  }

  lemma FirstChain<T>(a: seq<T>, chain: seq<seq<T>>, b: seq<T>, c: seq<T>) returns (longer: seq<seq<T>>)
    requires OneEdit(a, b) && EditChain(chain, b, c)
    ensures EditChain(longer, a, c) && |longer| == |chain| + 1
  {
    longer := [a] + chain;
    forall k | 0 <= k < |longer| - 1 ensures OneEdit(longer[k], longer[k + 1]) {
      if k > 0 {
        assert OneEdit(chain[k - 1], chain[k]);
      }
    }
  }

  lemma DeletesLast<T>(a: seq<T>)
    requires a != []
    ensures Deletes(a, DropLast(a))
  {
    assert DropLast(a) == a[..|a| - 1] + a[|a| - 1 + 1..];
  }

  /** A chain between the beginnings, and at most one substitution at the ends. */
  lemma PairLast<T>(chain: seq<seq<T>>, a: seq<T>, b: seq<T>) returns (longer: seq<seq<T>>)
    requires a != [] && b != [] && EditChain(chain, DropLast(a), DropLast(b))
    ensures EditChain(longer, a, b) && |longer| == |chain| + Cost(Last(a), Last(b))
  {
    var mid := DropLast(b) + [Last(a)];
    longer := ChainUnderTail(chain, DropLast(a), DropLast(b), Last(a));
    assert DropLast(a) + [Last(a)] == a && DropLast(b) + [Last(b)] == b;
    if Last(a) != Last(b) {
      assert b == mid[|b| - 1 := b[|b| - 1]];
      longer := ChainThen(longer, a, mid, b);
    }
  }

  /** Some chain of edits is exactly as long as the distance. */
  lemma {:induction false} ShortestChain<T>(a: seq<T>, b: seq<T>) returns (chain: seq<seq<T>>)
    ensures EditChain(chain, a, b)
    ensures |chain| - 1 == Lev(a, b)
    decreases |a| + |b|
  {
    if a == [] && b == [] {
      chain := [a];
    } else if b != [] && (a == [] || Lev(a, b) == Lev(a, DropLast(b)) + 1) {
      DeletesLast(b);
      var c := ShortestChain(a, DropLast(b));
      chain := ChainThen(c, a, DropLast(b), b);
    } else if b == [] || Lev(a, b) == Lev(DropLast(a), b) + 1 {
      DeletesLast(a);
      var c := ShortestChain(DropLast(a), b);
      chain := FirstChain(a, c, DropLast(a), b);
    } else {
      LevStep(a, b);
      var c := ShortestChain(DropLast(a), DropLast(b));
      chain := PairLast(c, a, b);
    }
  }

  /** The recurrence read at cell (i, j) of the table, the distance between two prefixes. */
  ghost function Cell<T>(a: seq<T>, b: seq<T>, i: int, j: int): nat {
    if 0 <= i <= |a| && 0 <= j <= |b| then Lev(a[..i], b[..j]) else 0
  }

  lemma CellStep<T>(a: seq<T>, b: seq<T>, i: nat, j: nat)
    requires i < |a| && j < |b|
    ensures Cell(a, b, i + 1, j + 1)
         == Min(Min(Cell(a, b, i, j + 1) + 1, Cell(a, b, i + 1, j) + 1), Cell(a, b, i, j) + Cost(a[i], b[j]))
  {
    assert DropLast(a[..i + 1]) == a[..i] && Last(a[..i + 1]) == a[i];
    assert DropLast(b[..j + 1]) == b[..j] && Last(b[..j + 1]) == b[j];
  }

  lemma CellBorders<T>(a: seq<T>, b: seq<T>)
    ensures forall j :: 0 <= j <= |b| ==> Cell(a, b, 0, j) == j
    ensures forall i :: 0 <= i <= |a| ==> Cell(a, b, i, 0) == i
    ensures Cell(a, b, |a|, |b|) == Lev(a, b)
  {
    assert a[..|a|] == a && b[..|b|] == b;
  }

  // ---------------------------------------------------------------------
  // The four forms
  // ---------------------------------------------------------------------

  /** The corpus validator's character error rate: two row buffers, swapped per row. */
  method CharErrorRate(reference: string, hypothesis: string) returns (cer: real)
    ensures reference == [] ==> cer == if hypothesis == [] then 0.0 else 1.0
    ensures reference != [] ==> cer == Lev(reference, hypothesis) as real / |reference| as real
  {
    var r, h := reference, hypothesis;
    if r == [] {
      return if h == [] then 0.0 else 1.0;
    }
    var dist := TwoRowDistance(r, h);
    return dist as real / |r| as real;
  }

  method TwoRowDistance<T(==)>(r: seq<T>, h: seq<T>) returns (dist: nat)
    ensures dist == Lev(r, h)
  {
    CellBorders(r, h);
    var prev := new nat[|h| + 1](j => j);
    var cur := new nat[|h| + 1](j => 0);
    for i := 0 to |r|
      invariant prev != cur && prev.Length == cur.Length == |h| + 1
      invariant fresh(prev) && fresh(cur)
      invariant forall j :: 0 <= j <= |h| ==> prev[j] == Cell(r, h, i, j)
    {
      cur[0] := i + 1;
      for j := 0 to |h|
        invariant forall k :: 0 <= k <= |h| ==> prev[k] == Cell(r, h, i, k)
        invariant forall k :: 0 <= k <= j ==> cur[k] == Cell(r, h, i + 1, k)
      {
        CellStep(r, h, i, j);
        var cost := if r[i] == h[j] then 0 else 1;
        cur[j + 1] := Min(Min(prev[j + 1] + 1, cur[j] + 1), prev[j] + cost);
      }
      prev, cur := cur, prev;
    }
    dist := prev[|h|];
  }

  /** The adversarial bench's form: the longer text indexes the rows, each row grown by appending. */
  method Levenshtein<T(==)>(a0: seq<T>, b0: seq<T>) returns (dist: nat)
    ensures dist == Lev(a0, b0)
  {
    var a, b := a0, b0;
    if |a| < |b| {
      a, b := b, a;
      LevSymmetric(a0, b0);
    }
    CellBorders(a, b);
    var prev := seq(|b| + 1, j requires 0 <= j => j as nat);
    for i := 0 to |a|
      invariant |prev| == |b| + 1
      invariant forall j :: 0 <= j <= |b| ==> prev[j] == Cell(a, b, i, j)
    {
      prev := NextRow(a, b, i, prev);
    }
    dist := prev[|prev| - 1];
  }

  /** The inner loop of Levenshtein. */
  method NextRow<T(==)>(a: seq<T>, b: seq<T>, i: nat, prev: seq<nat>) returns (curr: seq<nat>)
    requires i < |a| && |prev| == |b| + 1 && forall j :: 0 <= j <= |b| ==> prev[j] == Cell(a, b, i, j)
    ensures |curr| == |b| + 1 && forall j :: 0 <= j <= |b| ==> curr[j] == Cell(a, b, i + 1, j)
  {
    curr := [i + 1];
    for j := 0 to |b|
      invariant |curr| == j + 1
      invariant forall k :: 0 <= k <= j ==> curr[k] == Cell(a, b, i + 1, k)
    {
      CellStep(a, b, i, j);
      curr := curr + [Min(Min(prev[j + 1] + 1, curr[|curr| - 1] + 1), prev[j] + Cost(a[i], b[j]))];
    }
  }

  /** The whole-buffer tool's form: the full matrix. */
  method FullMatrixDistance(a: string, b: string) returns (dist: nat)
    ensures dist == Lev(a, b)
  {
    CellBorders(a, b);
    var m := new nat[|a| + 1, |b| + 1]((i, j) => 0);
    for i := 0 to |a| + 1
      invariant forall k :: 0 <= k < i ==> m[k, 0] == k
    {
      m[i, 0] := i;
    }
    for j := 0 to |b| + 1
      invariant forall k :: 0 <= k <= |a| ==> m[k, 0] == k
      invariant forall k :: 0 <= k < j ==> m[0, k] == k
    {
      m[0, j] := j;
    }
    for i := 1 to |a| + 1
      invariant forall k, l :: 0 <= k < i && 0 <= l <= |b| ==> m[k, l] == Cell(a, b, k, l)
      invariant forall k :: 0 <= k <= |a| ==> m[k, 0] == k
    {
      FillRow(a, b, m, i);
    }
    dist := m[|a|, |b|];
  }

  /** The inner loop of FullMatrixDistance. */
  method FillRow(a: string, b: string, m: array2<nat>, i: nat)
    requires m.Length0 == |a| + 1 && m.Length1 == |b| + 1 && 1 <= i <= |a|
    requires forall k, l :: 0 <= k < i && 0 <= l <= |b| ==> m[k, l] == Cell(a, b, k, l)
    requires m[i, 0] == i
    modifies m
    ensures forall l :: 0 <= l <= |b| ==> m[i, l] == Cell(a, b, i, l)
    ensures forall k, l :: 0 <= k <= |a| && 0 <= l <= |b| && k != i ==> m[k, l] == old(m[k, l])
  {
    for j := 1 to |b| + 1
      invariant forall l :: 0 <= l < j ==> m[i, l] == Cell(a, b, i, l)
      invariant forall k, l :: 0 <= k <= |a| && 0 <= l <= |b| && k != i ==> m[k, l] == old(m[k, l])
    {
      CellStep(a, b, i - 1, j - 1);
      var c := if a[i - 1] == b[j - 1] then 0 else 1;
      m[i, j] := Min(Min(m[i - 1, j] + 1, m[i, j - 1] + 1), m[i - 1, j - 1] + c);
    }
  }
}
