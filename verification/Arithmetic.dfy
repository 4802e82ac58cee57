/** Minima, distances and the few facts about products that the other modules need. */
module Arithmetic {
  function Min(x: nat, y: nat): nat { if x <= y then x else y }

  function Max(x: nat, y: nat): nat { if x <= y then y else x }

  function MaxReal(x: real, y: real): real { if x >= y then x else y }

  function Abs(x: real): real { if x < 0.0 then -x else x }

  ghost predicate NonDecreasing(s: seq<nat>) {
    forall i, j :: 0 <= i < j < |s| ==> s[i] <= s[j]
  }

  function Repeat(t: nat, n: nat): seq<nat> { seq(n, _ => t) }

  lemma MulGrows(n: nat, x: int, y: int)
    requires x <= y
    ensures n * x <= n * y
  {
    assert n * (y - x) >= 0;
  }

  lemma PositiveProduct(x: real, y: real)
    requires x > 0.0 && y > 0.0
    ensures x * y > 0.0
  {}

  lemma ProductNotNegative(x: real, y: real)
    requires x >= 0.0 && y >= 0.0
    ensures x * y >= 0.0
  {}

  /** Multiplying by a positive number keeps the order. */
  lemma Scaled(n: real, x: real, y: real)
    requires n > 0.0
    ensures x < y <==> n * x < n * y
    ensures x <= y <==> n * x <= n * y
  {
    assert n * (y - x) == n * y - n * x;
    if x < y {
      PositiveProduct(n, y - x);
    } else {
      assert n * (x - y) == n * x - n * y;
      ProductNotNegative(n, x - y);
      if x > y {
        PositiveProduct(n, x - y);
      }
    }
  }

  lemma ScaledMax(n: real, x: real, y: real)
    requires n > 0.0
    ensures n * MaxReal(x, y) == MaxReal(n * x, n * y)
  {
    Scaled(n, x, y);
  }

  lemma FloorAtMost(x: real, n: int)
    ensures x.Floor <= n <==> n as real > x - 1.0
  {
  }
}
