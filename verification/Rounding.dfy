/** Ceiling, rounding and alignment, as SQL and Python round. */
module Rounding {

  function Ceil(x: real): int { -((-x).Floor) }

  lemma CeilAtMost(x: real, m: int)
    ensures Ceil(x) <= m <==> x <= m as real
  {}

  lemma FloorAtLeast(x: real, k: int)
    ensures k <= x.Floor <==> k as real <= x
  {}

  lemma FloorMonotone(x: real, y: real)
    requires x <= y
    ensures x.Floor <= y.Floor
  {}

  lemma CeilMonotone(x: real, y: real)
    requires x <= y
    ensures Ceil(x) <= Ceil(y)
  {}

  /** Rounding to the nearest integer, ties to even, as Python's `round` and float
      formatting do. */
  function RoundHalfEven(x: real): int {
    var f := x.Floor;
    var rest := x - f as real;
    if rest < 0.5 || (rest == 0.5 && f % 2 == 0) then f else f + 1
  }

  lemma RoundHalfEvenMonotone(x: real, y: real)
    requires x <= y
    ensures RoundHalfEven(x) <= RoundHalfEven(y)
  {}

  /** The nearest whole number, the even one of two. */
  lemma RoundHalfEvenIsNear(x: real)
    ensures -0.5 <= RoundHalfEven(x) as real - x <= 0.5
    ensures RoundHalfEven(x) as real - x == 0.5 || RoundHalfEven(x) as real - x == -0.5 ==>
              RoundHalfEven(x) % 2 == 0
  {}

  lemma RoundHalfEvenIsOdd(x: real)
    ensures RoundHalfEven(-x) == -RoundHalfEven(x)
  {
    var f := x.Floor;
    if x == f as real {
      assert (-x).Floor == -f;
    } else {
      assert (-x).Floor == -f - 1;
    }
  }

  // ---- Exact division of reals, one rule at a time

  lemma QuotientAtMost(a: real, b: real, c: real)
    requires b > 0.0
    ensures a / b <= c <==> a <= c * b
  {}

  lemma QuotientAtLeast(a: real, b: real, c: real)
    requires b > 0.0
    ensures c <= a / b <==> c * b <= a
  {}

  lemma MulMonotone(x: real, y: real, z: real)
    requires x <= y && z >= 0.0
    ensures x * z <= y * z
  {}

  // ---- Alignment

  /** The bytes the query adds to reach the next multiple, none at a multiple. */
  function Padding(n: nat, align: nat): nat
    requires align > 0
  {
    align - if n % align == 0 then align else n % align
  }

  /** The one multiple of `align` in `[n, n + align)`. */
  ghost predicate IsAlignedUp(m: int, n: int, align: nat)
    requires align > 0
  {
    m % align == 0 && n <= m < n + align
  }

  lemma PaddingAligns(n: nat, align: nat)
    requires align > 0
    ensures IsAlignedUp(n + Padding(n, align), n, align)
  {
    if n % align != 0 {
      assert n + Padding(n, align) == align * (n / align + 1);
      MultipleMod(n / align + 1, align);
    }
  }

  lemma MultipleMod(q: nat, a: nat)
    requires a > 0
    ensures (a * q) % a == 0
  {
    DivisionIsUnique(a * q, a, q, 0);
  }

  lemma DivisionIsUnique(n: int, a: nat, q: int, r: nat)
    requires n == a * q + r && r < a
    ensures n / a == q && n % a == r
  {
    var d := q - n / a;
    assert n == a * (n / a) + n % a;
    assert a * d == n % a - r;
    MultipleGap(a, d);
  }

  lemma {:induction false} MultipleGap(a: nat, d: int)
    ensures d > 0 ==> a * d >= a
    ensures d < 0 ==> a * d + a <= 0
    decreases if d < 0 then -d else d
  {
    if d > 1 {
      MultipleGap(a, d - 1);
      assert a * d == a * (d - 1) + a;
    } else if d < -1 {
      MultipleGap(a, d + 1);
      assert a * d == a * (d + 1) - a;
    }
  }
}
