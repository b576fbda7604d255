/** What a decimal string means: all its digits read as one number, over ten to the number of
    digits after the point. */
module Decimals {
  import opened Arithmetic

  const FIXED_DIGITS := 8
  const FIXED_SCALE := 100000000

  function Pow10(k: nat): (p: int)
    ensures p >= 1
  {
    if k == 0 then 1 else 10 * Pow10(k - 1)
  }

  lemma {:induction false} PowAdd(a: nat, b: nat)
    ensures Pow10(a + b) == Pow10(a) * Pow10(b)
  {
    if a > 0 {
      PowAdd(a - 1, b);
      assert Pow10(a) * Pow10(b) == 10 * (Pow10(a - 1) * Pow10(b));
    }
  }

  predicate IsDigit(c: char)
  {
    '0' <= c <= '9'
  }

  function DigitOf(c: char): int
  {
    c as int - '0' as int
  }

  function ToDigit(d: int): (c: char)
    requires 0 <= d <= 9
    ensures IsDigit(c) && DigitOf(c) == d
  {
    ('0' as int + d) as char
  }

  // Every digit of b as one number; points do not count
  function NumberOf(b: string): int
  {
    if b == [] then 0
    else
      var front, c := b[..|b| - 1], b[|b| - 1];
      if c == '.' then NumberOf(front) else 10 * NumberOf(front) + DigitOf(c)
  }

  // Digits after the point
  function Places(b: string): nat
  {
    if b == [] || b[|b| - 1] == '.' then 0
    else if '.' in b[..|b| - 1] then Places(b[..|b| - 1]) + 1
    else 0
  }

  // Digits with at most one point among them
  predicate Numeral(b: string)
  {
    && (forall i :: 0 <= i < |b| ==> IsDigit(b[i]) || b[i] == '.')
    && (forall i, j :: 0 <= i < j < |b| && b[i] == '.' ==> b[j] != '.')
  }

  predicate AnyDigit(b: string)
  {
    exists i :: 0 <= i < |b| && IsDigit(b[i])
  }

  predicate WellFormed(b: string)
  {
    Numeral(b) && AnyDigit(b)
  }

  predicate Digits(b: string)
  {
    forall i :: 0 <= i < |b| ==> IsDigit(b[i])
  }

  // ----- one more character

  lemma AppendDigit(b: string, c: char)
    requires IsDigit(c)
    ensures NumberOf(b + [c]) == 10 * NumberOf(b) + DigitOf(c)
    ensures Places(b + [c]) == if '.' in b then Places(b) + 1 else 0
  {
    assert (b + [c])[..|b|] == b;
  }

  lemma AppendPoint(b: string)
    ensures NumberOf(b + ['.']) == NumberOf(b) && Places(b + ['.']) == 0
  {
    assert (b + ['.'])[..|b|] == b;
  }

  lemma {:induction false} NoPointNoPlaces(b: string)
    requires '.' !in b
    ensures Places(b) == 0
  {
    if b != [] { assert '.' !in b[..|b| - 1]; }
  }

  lemma {:induction false} NotNegative(b: string)
    requires Numeral(b)
    ensures NumberOf(b) >= 0
  {
    if b != [] { NotNegative(b[..|b| - 1]); }
  }

  // ----- reading digits from the front

  lemma Tenfold(x: int, p: int)
    ensures x * (10 * p) == 10 * (x * p)
  {
  }

  lemma {:induction false} Concatenated(a: string, b: string)
    requires Digits(b)
    ensures NumberOf(a + b) == NumberOf(a) * Pow10(|b|) + NumberOf(b)
  {
    if b == [] {
      assert a + b == a;
    } else {
      var front, c := b[..|b| - 1], b[|b| - 1];
      assert a + b == (a + front) + [c] && front + [c] == b;
      Concatenated(a, front);
      AppendDigit(a + front, c);
      AppendDigit(front, c);
      Tenfold(NumberOf(a), Pow10(|front|));
    }
  }

  lemma {:induction false} DigitsBelow(b: string)
    requires Digits(b)
    ensures 0 <= NumberOf(b) < Pow10(|b|)
  {
    if b != [] {
      DigitsBelow(b[..|b| - 1]);
    }
  }

  lemma OneDigit(c: char)
    requires IsDigit(c)
    ensures NumberOf([c]) == DigitOf(c)
  {
    assert [] + [c] == [c];
    AppendDigit([], c);
  }

  lemma FromFront(c: char, rest: string)
    requires IsDigit(c) && Digits(rest)
    ensures NumberOf([c] + rest) == DigitOf(c) * Pow10(|rest|) + NumberOf(rest)
  {
    hide *;
    OneDigit(c);
    Concatenated([c], rest);
  }

  lemma {:induction false} AfterPoint(a: string, b: string)
    requires Digits(a) && Digits(b)
    ensures Places(a + "." + b) == |b| && NumberOf(a + "." + b) == NumberOf(a) * Pow10(|b|) + NumberOf(b)
  {
    var p := a + ".";
    Concatenated(p, b);
    AppendPoint(a);
    PlacesAfter(p, b);
  }

  lemma {:induction false} PlacesAfter(p: string, b: string)
    requires p != [] && p[|p| - 1] == '.' && Digits(b)
    ensures Places(p + b) == |b|
  {
    if b == [] {
      assert p + b == p;
    } else {
      var front, c := b[..|b| - 1], b[|b| - 1];
      assert p + b == (p + front) + [c];
      PlacesAfter(p, front);
      AppendDigit(p + front, c);
      assert '.' in p + front by { assert (p + front)[|p| - 1] == '.'; }
    }
  }

  // ----- the value of a whole string

  function Body(s: string): string
  {
    if |s| > 0 && (s[0] == '-' || s[0] == '+') then s[1..] else s
  }

  predicate Negative(s: string)
  {
    |s| > 0 && s[0] == '-'
  }

  // The magnitude in units of 10^-8, rounded half away from zero
  function Magnitude(b: string): int
  {
    (2 * NumberOf(b) * FIXED_SCALE + Pow10(Places(b))) / (2 * Pow10(Places(b)))
  }

  function Value(s: string): int
  {
    if Negative(s) then -Magnitude(Body(s)) else Magnitude(Body(s))
  }

  // The strings that name a number a signed type with this lowest value can hold
  predicate Acceptable(s: string, negLimit: int)
  {
    WellFormed(Body(s)) && (Magnitude(Body(s)) < negLimit || (Magnitude(Body(s)) == negLimit && Negative(s)))
  }

  lemma Odds(m: int, p: int)
    ensures (2 * m - 1) * p == m * (2 * p) - p
    ensures (2 * m + 1) * p == m * (2 * p) + p
    ensures (m + 1) * (2 * p) == m * (2 * p) + 2 * p
  {
  }

  lemma RoundHalfUp(a: int, p: int, m: int)
    requires p > 0
    ensures m == (a + p) / (2 * p) <==> (2 * m - 1) * p <= a < (2 * m + 1) * p
  {
    Odds(m, p);
    var d := 2 * p;
    if m == (a + p) / d {
      FloorBounds(a + p, d);
    }
    if m * d <= a + p < (m + 1) * d {
      DivideBetween(a + p, d, m);
    }
  }

  /** The magnitude is the integer nearest to number * 10^8 / 10^places; of two equally near it is
      the larger, so the signed value rounds away from zero. */
  lemma MagnitudeIsNearest(b: string, m: int)
    ensures m == Magnitude(b) <==>
              (2 * m - 1) * Pow10(Places(b)) <= 2 * NumberOf(b) * 100000000 < (2 * m + 1) * Pow10(Places(b))
  {
    RoundHalfUp(2 * NumberOf(b) * FIXED_SCALE, Pow10(Places(b)), m);
  }

  /** A number with at most eight places is not rounded at all. */
  lemma ExactMagnitude(b: string)
    requires Places(b) <= FIXED_DIGITS
    ensures Magnitude(b) == NumberOf(b) * Pow10(FIXED_DIGITS - Places(b))
  {
    var d := Places(b);
    var n, e, p := NumberOf(b), Pow10(FIXED_DIGITS - d), Pow10(d);
    ScaleIsPow();
    PowAdd(FIXED_DIGITS - d, d);
    Regroup(n, e, p);
    Odds(n * e, p);
    MagnitudeIsNearest(b, n * e);
  }

  lemma Regroup(n: int, e: int, p: int)
    ensures (n * e) * (2 * p) == 2 * n * (e * p)
  {
    assert (n * e) * (2 * p) == 2 * ((n * e) * p);
    assert (n * e) * p == n * (e * p);
  }

  lemma ScaleIsPow()
    ensures Pow10(FIXED_DIGITS) == FIXED_SCALE
  {
    assert Pow10(4) == 10000;
    PowAdd(4, 4);
  }
}
