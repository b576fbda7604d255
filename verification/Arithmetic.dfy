/** Division by a variable, in steps small enough for the solver, and conditions as numbers. */
module Arithmetic {

  // A condition counted as a number
  function One(b: bool): int
  {
    if b then 1 else 0
  }

  lemma MulMonotone(x: int, y: int, d: int)
    requires x <= y && d >= 0
    ensures x * d <= y * d
  {
    assert (y - x) * d >= 0;
  }

  lemma FloorBounds(a: int, d: int)
    requires d > 0
    ensures (a / d) * d <= a < (a / d + 1) * d
  {
    assert a == d * (a / d) + a % d;
    assert d * (a / d) == (a / d) * d;
    assert (a / d + 1) * d == (a / d) * d + d;
  }

  lemma FloorMonotone(a: int, b: int, d: int)
    requires d > 0 && a <= b
    ensures a / d <= b / d
  {
    FloorBounds(a, d);
    FloorBounds(b, d);
    var q, r := a / d, b / d;
    if r < q { MulMonotone(r + 1, q, d); }
  }

  lemma DivideBetween(a: int, d: int, q: int)
    requires d > 0 && q * d <= a < (q + 1) * d
    ensures a / d == q
  {
    FloorBounds(a, d);
    var r := a / d;
    if r < q { MulMonotone(r + 1, q, d); }
    if q < r { MulMonotone(q + 1, r, d); }
  }

  lemma SameRemainder(a: int, d: int)
    requires d > 0
    ensures a == (a / d) * d + a % d
  {
  }

  lemma UniqueRemainder(a: int, d: int, q: int, r: int)
    requires a == q * d + r && 0 <= r < d
    ensures a / d == q && a % d == r
  {
    assert (q + 1) * d == q * d + d;
    DivideBetween(a, d, q);
    SameRemainder(a, d);
  }
}
