/** Printing fixed-point decimals, and why parsing and printing undo each other. */
module FixedPrinting {
  import opened Arithmetic
  import opened Decimals
  import opened FixedPoint

  // ----- the canonical form of a value

  // The digits of n, no leading zeros
  function Decimal(n: nat): (b: string)
    ensures b != []
  {
    if n < 10 then [ToDigit(n)] else Decimal(n / 10) + [ToDigit(n % 10)]
  }

  // The digits of f / 10^k, no trailing zeros
  function Fraction(f: nat, k: nat): string
    requires f < Pow10(k)
  {
    if f == 0 then ""
    else
      LeadingDigit(f, k);
      [ToDigit(f / Pow10(k - 1))] + Fraction(f % Pow10(k - 1), k - 1)
  }

  lemma LeadingDigit(f: nat, k: nat)
    requires 0 < f < Pow10(k)
    ensures k >= 1 && 0 <= f / Pow10(k - 1) <= 9 && 0 <= f % Pow10(k - 1) < Pow10(k - 1)
    ensures f == f / Pow10(k - 1) * Pow10(k - 1) + f % Pow10(k - 1)
  {
    var p := Pow10(k - 1);
    FloorBounds(f, p);
    SameRemainder(f, p);
    if f / p >= 10 { MulMonotone(10, f / p, p); }
    if f / p < 0 { MulMonotone(f / p + 1, 0, p); }
  }

  function Tail(f: nat): string
    requires f < Pow10(FIXED_DIGITS)
  {
    if f == 0 then "" else "." + Fraction(f, FIXED_DIGITS)
  }

  function Printed(v: int): string
  {
    var magnitude := if v < 0 then -v else v;
    ScaleIsPow();
    (if v < 0 then "-" else "") + Decimal(magnitude / FIXED_SCALE) + Tail(magnitude % FIXED_SCALE)
  }

  // ----- reading it back

  predicate NoSpareZero(b: string)
  {
    |b| >= 1 && (|b| > 1 ==> b[0] != '0')
  }

  predicate NoTrailingZero(b: string)
  {
    b != [] ==> b[|b| - 1] != '0'
  }

  lemma {:induction false} DecimalReads(n: nat)
    ensures Digits(Decimal(n)) && NumberOf(Decimal(n)) == n && NoSpareZero(Decimal(n))
    ensures n > 0 ==> Decimal(n)[0] != '0'
  {
    if n < 10 {
      assert Decimal(n) == [] + [ToDigit(n)];
      AppendDigit([], ToDigit(n));
    } else {
      DecimalReads(n / 10);
      AppendDigit(Decimal(n / 10), ToDigit(n % 10));
      assert (Decimal(n / 10) + [ToDigit(n % 10)])[0] == Decimal(n / 10)[0];
    }
  }

  lemma {:induction false} FractionReads(f: nat, k: nat)
    requires f < Pow10(k)
    ensures var b := Fraction(f, k);
            Digits(b) && |b| <= k && NumberOf(b) * Pow10(k - |b|) == f && NoTrailingZero(b) && (f > 0 ==> b != [])
  {
    if f > 0 {
      LeadingDigit(f, k);
      var c, r := ToDigit(f / Pow10(k - 1)), f % Pow10(k - 1);
      FractionReads(r, k - 1);
      var rest := Fraction(r, k - 1);
      FromFront(c, rest);
      PowAdd(|rest|, k - 1 - |rest|);
      hide NumberOf;
      hide DigitOf;
      FractionStep(DigitOf(c), Pow10(|rest|), NumberOf(rest), Pow10(k - 1 - |rest|));
    }
  }

  lemma FractionStep(c: int, p: int, n: int, q: int)
    ensures (c * p + n) * q == c * (p * q) + n * q
  {
    assert (c * p + n) * q == (c * p) * q + n * q;
    Associate(c, p, q);
  }

  // Whole digits, then a point and the decimals if there are any
  function Joined(w: string, f: string): string
  {
    if f == "" then w else w + "." + f
  }

  function Signed(negative: bool, b: string): string
  {
    if negative then "-" + b else b
  }

  lemma JoinedShape(w: string, f: string)
    requires Digits(w) && w != "" && Digits(f)
    ensures WellFormed(Joined(w, f))
    ensures forall negative ::
              var s := Signed(negative, Joined(w, f));
              Body(s) == Joined(w, f) && Negative(s) == negative
  {
    var b := Joined(w, f);
    assert b[0] == w[0] && IsDigit(b[0]);
    forall i | 0 <= i < |b|
      ensures if i == |w| then b[i] == '.' else IsDigit(b[i])
    {
      if i < |w| { assert b[i] == w[i]; }
      if i > |w| { assert b[i] == f[i - |w| - 1]; }
    }
  }

  lemma JoinedMagnitude(w: string, f: string)
    requires Digits(w) && Digits(f) && |f| <= FIXED_DIGITS
    ensures Magnitude(Joined(w, f)) == NumberOf(w) * FIXED_SCALE + NumberOf(f) * Pow10(FIXED_DIGITS - |f|)
  {
    ScaleIsPow();
    if f == "" {
      NoPointNoPlaces(w);
      ExactMagnitude(w);
    } else {
      TailMagnitude(w, f);
    }
  }

  lemma TailMagnitude(w: string, f: string)
    requires Digits(w) && Digits(f) && |f| <= FIXED_DIGITS
    ensures Magnitude(w + "." + f) == NumberOf(w) * FIXED_SCALE + NumberOf(f) * Pow10(FIXED_DIGITS - |f|)
  {
    hide *;
    AfterPoint(w, f);
    ExactMagnitude(w + "." + f);
    ScaleIsPow();
    PowAdd(|f|, FIXED_DIGITS - |f|);
    FractionStep(NumberOf(w), Pow10(|f|), NumberOf(f), Pow10(FIXED_DIGITS - |f|));
  }

  lemma PrintedParts(v: int)
    ensures var m := if v < 0 then -v else v;
            0 <= m % FIXED_SCALE < Pow10(FIXED_DIGITS) && m / FIXED_SCALE >= 0
            && Printed(v) == Signed(v < 0, Joined(Decimal(m / FIXED_SCALE), Fraction(m % FIXED_SCALE, FIXED_DIGITS)))
  {
    var m := if v < 0 then -v else v;
    ScaleIsPow();
    var w, f := Decimal(m / FIXED_SCALE), m % FIXED_SCALE;
    FractionReads(f, FIXED_DIGITS);
    assert Fraction(f, FIXED_DIGITS) == "" <==> f == 0;
    assert w + Tail(f) == Joined(w, Fraction(f, FIXED_DIGITS));
    assert "-" + w + Tail(f) == "-" + (w + Tail(f));
    assert "" + w + Tail(f) == w + Tail(f);
  }

  // w and f spell the two halves of the magnitude m
  ghost predicate Spell(w: string, f: string, m: int)
  {
    && Digits(w) && w != "" && Digits(f) && |f| <= FIXED_DIGITS
    && NumberOf(w) == m / FIXED_SCALE && NumberOf(f) * Pow10(FIXED_DIGITS - |f|) == m % FIXED_SCALE
  }

  lemma PrintedSpells(v: int) returns (w: string, f: string)
    ensures Printed(v) == Signed(v < 0, Joined(w, f)) && Spell(w, f, if v < 0 then -v else v)
  {
    var m := if v < 0 then -v else v;
    PrintedParts(v);
    w, f := Decimal(m / FIXED_SCALE), Fraction(m % FIXED_SCALE, FIXED_DIGITS);
    DecimalReads(m / FIXED_SCALE);
    FractionReads(m % FIXED_SCALE, FIXED_DIGITS);
    hide NumberOf;
    hide Pow10;
    hide Decimal;
    hide Fraction;
    hide Printed;
    hide Joined;
    hide Signed;
  }

  lemma SpelledMagnitude(w: string, f: string, m: int)
    requires Spell(w, f, m)
    ensures Magnitude(Joined(w, f)) == m
  {
    JoinedMagnitude(w, f);
    hide NumberOf;
    hide Pow10;
    hide Magnitude;
    hide Joined;
    SameRemainder(m, FIXED_SCALE);
  }

  /** Reading a printed value gives it back, for every value of the type, the lowest included. */
  lemma ParsePrinted(v: int, negLimit: int)
    requires -negLimit <= v < negLimit
    ensures Acceptable(Printed(v), negLimit) && Value(Printed(v)) == v
  {
    var w, f := PrintedSpells(v);
    SpelledMagnitude(w, f, if v < 0 then -v else v);
    assert Digits(w) && w != "" && Digits(f);
    JoinedShape(w, f);
    hide Spell;
    hide Magnitude;
    hide Printed;
    hide Joined;
    hide Signed;
    hide Body;
    hide Negative;
    hide WellFormed;
  }

  // ----- canonical strings

  // No plus, no spare zero at either end, a digit before the point, no negative zero
  predicate CanonicalParts(negative: bool, w: string, f: string)
  {
    && Digits(w) && NoSpareZero(w) && Digits(f) && |f| <= FIXED_DIGITS && NoTrailingZero(f)
    && (negative ==> w != "0" || f != "")
  }

  ghost predicate Canonical(s: string)
  {
    exists negative: bool, w: string, f: string ::
      CanonicalParts(negative, w, f) && s == Signed(negative, Joined(w, f))
  }

  lemma PrintedIsCanonical(v: int)
    ensures Canonical(Printed(v))
  {
    var m := if v < 0 then -v else v;
    PrintedParts(v);
    var w, f := Decimal(m / FIXED_SCALE), Fraction(m % FIXED_SCALE, FIXED_DIGITS);
    DecimalReads(m / FIXED_SCALE);
    FractionReads(m % FIXED_SCALE, FIXED_DIGITS);
    assert CanonicalParts(v < 0, w, f);
  }

  lemma {:induction false} LeadingNonZero(w: string)
    requires Digits(w) && w != "" && w[0] != '0'
    ensures NumberOf(w) >= 1
  {
    if |w| > 1 { LeadingNonZero(w[..|w| - 1]); }
  }

  lemma {:induction false} DecimalRewrites(w: string)
    requires Digits(w) && NoSpareZero(w)
    ensures NumberOf(w) >= 0 && Decimal(NumberOf(w)) == w
  {
    DigitsBelow(w);
    var front, c := w[..|w| - 1], w[|w| - 1];
    assert front + [c] == w;
    AppendDigit(front, c);
    if front == "" {
      assert NumberOf(w) == DigitOf(c);
    } else {
      LeadingNonZero(front);
      DecimalRewrites(front);
      UniqueRemainder(NumberOf(w), 10, NumberOf(front), DigitOf(c));
    }
  }

  lemma FractionFits(f: string, k: nat)
    requires Digits(f) && |f| <= k
    ensures 0 <= NumberOf(f) * Pow10(k - |f|) < Pow10(k)
  {
    hide *;
    DigitsBelow(f);
    var q := Pow10(k - |f|);
    PowAdd(|f|, k - |f|);
    MulMonotone(NumberOf(f) + 1, Pow10(|f|), q);
    MulMonotone(0, NumberOf(f), q);
    assert (NumberOf(f) + 1) * q == NumberOf(f) * q + q;
  }

  lemma {:induction false} FractionRewrites(f: string, k: nat)
    requires Digits(f) && |f| <= k && NoTrailingZero(f)
    ensures 0 <= NumberOf(f) * Pow10(k - |f|) < Pow10(k)
    ensures Fraction(NumberOf(f) * Pow10(k - |f|), k) == f
  {
    FractionFits(f, k);
    assert NumberOf("") == 0;
    hide NumberOf;
    hide Pow10;
    if f != "" {
      var c, rest := f[0], f[1..];
      assert f == [c] + rest;
      FractionRewrites(rest, k - 1);
      FromFront(c, rest);
      PowAdd(|rest|, k - 1 - |rest|);
      var r := NumberOf(rest) * Pow10(k - 1 - |rest|);
      FractionStep(DigitOf(c), Pow10(|rest|), NumberOf(rest), Pow10(k - 1 - |rest|));
      UniqueRemainder(NumberOf(f) * Pow10(k - |f|), Pow10(k - 1), DigitOf(c), r);
      LastNonZero(f, k);
    }
  }

  lemma LastNonZero(f: string, k: nat)
    requires Digits(f) && f != "" && NoTrailingZero(f) && |f| <= k
    ensures NumberOf(f) * Pow10(k - |f|) > 0
  {
    var front, c := f[..|f| - 1], f[|f| - 1];
    assert front + [c] == f;
    AppendDigit(front, c);
    DigitsBelow(front);
    MulMonotone(1, NumberOf(f), Pow10(k - |f|));
  }

  lemma CanonicalMagnitude(negative: bool, w: string, f: string)
    requires CanonicalParts(negative, w, f)
    ensures var m := Magnitude(Joined(w, f));
            && 0 <= m % FIXED_SCALE < Pow10(FIXED_DIGITS) && m >= 0 && m / FIXED_SCALE >= 0
            && Decimal(m / FIXED_SCALE) == w && Fraction(m % FIXED_SCALE, FIXED_DIGITS) == f
            && (negative ==> m > 0)
  {
    JoinedMagnitude(w, f);
    DecimalRewrites(w);
    FractionRewrites(f, FIXED_DIGITS);
    if w != "0" { NotJustZero(w); }
    if f != "" { LastNonZero(f, FIXED_DIGITS); }
    ScaleIsPow();
    hide *;
    UniqueRemainder(Magnitude(Joined(w, f)), FIXED_SCALE, NumberOf(w), NumberOf(f) * Pow10(FIXED_DIGITS - |f|));
  }

  /** Printing what a canonical string means gives the string back. */
  lemma PrintParsed(s: string)
    requires Canonical(s)
    ensures Printed(Value(s)) == s
  {
    var negative: bool, w: string, f: string :|
      CanonicalParts(negative, w, f) && s == Signed(negative, Joined(w, f));
    CanonicalMagnitude(negative, w, f);
    JoinedShape(w, f);
    PrintedParts(Value(s));
    hide Joined;
    hide Signed;
    hide Printed;
    hide Magnitude;
    hide Decimal;
    hide Fraction;
    hide Pow10;
    hide Body;
    hide Negative;
  }

  lemma NotJustZero(w: string)
    requires Digits(w) && NoSpareZero(w) && w != "0"
    ensures NumberOf(w) >= 1
  {
    assert |w| == 1 ==> w == [w[0]];
    LeadingNonZero(w);
  }

  // ----- the printer

  function Reversed(s: string): string
  {
    if s == "" then "" else [s[|s| - 1]] + Reversed(s[..|s| - 1])
  }

  lemma ReversedNext(s: string, c: char)
    ensures Reversed(s + [c]) == [c] + Reversed(s)
  {
    assert (s + [c])[..|s|] == s;
  }

  // Of a number written so far from its last digit: what is left to write, then what is written
  ghost predicate Writing(n: nat, left: nat, written: string)
  {
    Decimal(n) == (if written == "" || left > 0 then Decimal(left) else "") + Reversed(written)
  }

  lemma WriteDigit(n: nat, left: nat, written: string)
    requires Writing(n, left, written) && (written == "" || left > 0)
    ensures Writing(n, left / 10, written + [ToDigit(left % 10)])
  {
    var c := ToDigit(left % 10);
    ReversedNext(written, c);
    if left < 10 {
      assert Decimal(left) == [c];
    } else {
      assert Decimal(left / 10) + [c] + Reversed(written) == Decimal(left / 10) + ([c] + Reversed(written));
    }
  }

  // The last decimals written so far, and what is left of the fraction
  ghost predicate WritingFraction(f: int, left: int, written: string)
  {
    && |written| <= FIXED_DIGITS && Digits(written)
    && 0 <= left < Pow10(FIXED_DIGITS - |written|)
    && f == left * Pow10(|written|) + NumberOf(written)
  }

  lemma WriteDecimal(f: int, left: int, written: string)
    requires WritingFraction(f, left, written) && |written| < FIXED_DIGITS
    ensures WritingFraction(f, left / 10, [ToDigit(left % 10)] + written)
  {
    var c, p := ToDigit(left % 10), Pow10(|written|);
    FromFront(c, written);
    NextDecimal(f, left, p, NumberOf(written));
    FloorBounds(left, 10);
  }

  lemma NextDecimal(f: int, left: int, p: int, n: int)
    requires f == left * p + n && left >= 0
    ensures f == left / 10 * (10 * p) + (left % 10 * p + n)
  {
    SameRemainder(left, 10);
    var q, r := left / 10, left % 10;
    assert left * p == (q * 10 + r) * p;
    FractionStep(q, 10, r, p);
  }

  // Dropping the zeros at the end leaves the canonical fraction
  lemma Stripped(f: int, all: string, len: nat)
    requires WritingFraction(f, 0, all) && |all| == FIXED_DIGITS && 1 <= len <= FIXED_DIGITS
    requires all[len - 1] != '0' && forall i :: len <= i < FIXED_DIGITS ==> all[i] == '0'
    ensures 0 <= f < Pow10(FIXED_DIGITS) && Fraction(f, FIXED_DIGITS) == all[..len]
  {
    assert all == all[..len] + all[len..];
    Concatenated(all[..len], all[len..]);
    AllZeros(all[len..]);
    FractionRewrites(all[..len], FIXED_DIGITS);
  }

  lemma {:induction false} AllZeros(b: string)
    requires forall i :: 0 <= i < |b| ==> b[i] == '0'
    ensures NumberOf(b) == 0
  {
    if b != "" { AllZeros(b[..|b| - 1]); }
  }

  lemma SomeDigitLeft(f: int, all: string)
    requires WritingFraction(f, 0, all) && f > 0
    ensures exists i :: 0 <= i < |all| && all[i] != '0'
  {
    if forall i :: 0 <= i < |all| ==> all[i] == '0' { AllZeros(all); }
  }

  // The bits of a signed value as an unsigned number
  function ToUnsigned(v: int, negLimit: int): int
    requires negLimit > 0
  {
    v % (2 * negLimit)
  }

  lemma UnsignedMagnitude(v: int, negLimit: int)
    requires -negLimit <= v < negLimit
    ensures v < 0 ==> UnsignedNegation(ToUnsigned(v, negLimit), negLimit) == -v
    ensures v >= 0 ==> ToUnsigned(v, negLimit) == v
  {
    var n := 2 * negLimit;
    if v < 0 {
      UniqueRemainder(v, n, -1, v + n);
      UniqueRemainder(-v - n, n, -1, -v);
    } else {
      UniqueRemainder(v, n, 0, v);
    }
  }

  lemma BufferIsLongEnough(n: int)
    requires 0 <= n <= LIMIT128
    ensures n / FIXED_SCALE < Pow10(48)
  {
    ScaleIsPow();
    PowAdd(8, 8);
    PowAdd(16, 16);
    PowMonotone(32, 48);
  }

  lemma OneDigitLess(whole: int, n: nat)
    requires n <= 48 && 0 <= whole < Pow10(48 - n) && (n == 0 || whole != 0)
    ensures n < 48 && 0 <= whole / 10 < Pow10(48 - (n + 1)) && 0 <= whole % 10 <= 9
  {
  }

  // Digits and decimals go through buffers filled from the last one back
  method WriteWhole(n: int, sign: string) returns (out: string)
    requires 0 <= n < Pow10(48)
    ensures out == sign + Decimal(n)
  {
    hide *;
    var digits := new char[48];
    var whole, k := n, 0;
    StartWriting(n);
    assert digits[..0] == "";
    while k == 0 || whole != 0
      invariant 0 <= k <= 48 && 0 <= whole < Pow10(48 - k)
      invariant Writing(n, whole, digits[..k])
      decreases whole, 1 - k
    {
      OneDigitLess(whole, k);
      WriteDigit(n, whole, digits[..k]);
      digits[k] := ToDigit(whole % 10);
      assert digits[..k + 1] == digits[..k] + [ToDigit(whole % 10)];
      k := k + 1;
      whole := whole / 10;
    }
    DoneWriting(n, digits[..k]);
    out := sign;
    while k > 0
      invariant 0 <= k <= 48 && out + Reversed(digits[..k]) == sign + Decimal(n)
    {
      k := k - 1;
      assert digits[..k + 1] == digits[..k] + [digits[k]];
      ReversedNext(digits[..k], digits[k]);
      assert out + ([digits[k]] + Reversed(digits[..k])) == out + [digits[k]] + Reversed(digits[..k]);
      out := out + [digits[k]];
    }
    NothingReversed(digits[..k]);
  }

  lemma StartWriting(n: nat)
    ensures Writing(n, n, "")
  {
  }

  lemma DoneWriting(n: nat, written: string)
    requires Writing(n, 0, written) && written != ""
    ensures Reversed(written) == Decimal(n)
  {
  }

  lemma NothingReversed(s: string)
    requires s == ""
    ensures Reversed(s) == ""
  {
  }

  method WriteTail(f: int, prefix: string) returns (out: string)
    requires 0 <= f < Pow10(FIXED_DIGITS)
    ensures out == prefix + Tail(f)
  {
    out := prefix;
    if f != 0 {
      var decimals := new char[FIXED_DIGITS];
      var fraction, k := f, FIXED_DIGITS - 1;
      while k >= 0
        invariant -1 <= k < FIXED_DIGITS
        invariant WritingFraction(f, fraction, decimals[k + 1..])
      {
        WriteDecimal(f, fraction, decimals[k + 1..]);
        hide *;
        decimals[k] := ToDigit(fraction % 10);
        assert decimals[k..] == [ToDigit(fraction % 10)] + decimals[k + 1..];
        fraction := fraction / 10;
        k := k - 1;
      }
      ghost var all := decimals[..];
      assert decimals[k + 1..] == all;
      SomeDigitLeft(f, all);
      var len := FIXED_DIGITS;
      while decimals[len - 1] == '0'
        invariant 1 <= len <= FIXED_DIGITS && decimals[..] == all
        invariant forall i :: len <= i < FIXED_DIGITS ==> all[i] == '0'
        decreases len
      {
        len := len - 1;
      }
      Stripped(f, all, len);
      out := out + ".";
      out := out + decimals[..len];
    }
  }

  /** Prints the canonical form of every value of the type; both buffers are long enough. */
  method FormatFixed(v: int, negLimit: int) returns (out: string)
    requires -negLimit <= v < negLimit <= LIMIT128
    ensures out == Printed(v)
  {
    var negative := v < 0;
    UnsignedMagnitude(v, negLimit);
    var magnitude := if negative then UnsignedNegation(ToUnsigned(v, negLimit), negLimit) else ToUnsigned(v, negLimit);
    var whole, fraction := magnitude / FIXED_SCALE, magnitude % FIXED_SCALE;
    BufferIsLongEnough(magnitude);
    ScaleIsPow();
    out := if negative then "-" else "";
    out := WriteWhole(whole, out);
    out := WriteTail(fraction, out);
  }
}
