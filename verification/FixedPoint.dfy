/** Parsing and printing fixed-point decimals: an integer count of 10^-8 units in a signed type
    whose lowest value is -negLimit (2^63 for int64, 2^127 for __int128). Unsigned arithmetic of
    the type's width is modulo 2 * negLimit. */
module FixedPoint {
  import opened Arithmetic
  import opened Decimals

  const LIMIT128 := 0x8000_0000_0000_0000_0000_0000_0000_0000

  // ----- how far a prefix goes

  /** However it goes on, a string is at least what its first digits say, so a prefix too large
      can be rejected at once. */
  lemma {:induction false} PrefixScaled(q: string, b: string)
    requires Numeral(b) && q <= b && Places(q) <= FIXED_DIGITS
    ensures NumberOf(b) * FIXED_SCALE >= NumberOf(q) * Pow10(Places(b))
  {
    assert Numeral(q);
    NotNegative(q);
    if b == q {
      PowMonotone(Places(q), FIXED_DIGITS);
      ScaleIsPow();
      MulMonotone(Pow10(Places(q)), FIXED_SCALE, NumberOf(q));
    } else {
      var front, c := b[..|b| - 1], b[|b| - 1];
      assert front + [c] == b;
      PrefixScaled(q, front);
      if c == '.' {
        NoPointNoPlaces(front);
        AppendPoint(front);
      } else {
        AppendDigit(front, c);
        if '.' !in front { NoPointNoPlaces(front); }
        OneMoreDigit(NumberOf(front), DigitOf(c), NumberOf(q), Pow10(Places(front)));
      }
    }
  }

  lemma OneMoreDigit(n: int, d: int, m: int, p: int)
    requires n * FIXED_SCALE >= m * p && d >= 0 && m >= 0 && p >= 1
    ensures (10 * n + d) * FIXED_SCALE >= m * (10 * p)
    ensures (10 * n + d) * FIXED_SCALE >= m * p
  {
    Tenfold(m, p);
    assert m * p >= 0;
  }

  lemma {:induction false} PowMonotone(a: nat, b: nat)
    requires a <= b
    ensures Pow10(a) <= Pow10(b)
  {
    if a < b { PowMonotone(a, b - 1); }
  }

  lemma PrefixBelow(q: string, b: string)
    requires Numeral(b) && q <= b && Places(q) <= FIXED_DIGITS
    ensures Magnitude(b) >= NumberOf(q)
  {
    PrefixScaled(q, b);
    var m, p := Magnitude(b), Pow10(Places(b));
    MagnitudeIsNearest(b, m);
    if m < NumberOf(q) {
      MulMonotone(2 * m + 1, 2 * NumberOf(q) - 1, p);
      Odds(NumberOf(q), p);
      Tenfold2(NumberOf(q), p);
    }
  }

  lemma Tenfold2(x: int, p: int)
    ensures x * (2 * p) == 2 * (x * p)
  {
  }

  // ----- the state of the scan

  // Up to eight places, the number itself; beyond, its quotient and which half the remainder is in
  ghost predicate Kept(p: string, value: int, roundUp: bool)
  {
    if Places(p) <= FIXED_DIGITS then value == NumberOf(p) && !roundUp
    else
      var unit := Pow10(Places(p) - FIXED_DIGITS);
      value * unit <= NumberOf(p) < (value + 1) * unit && (roundUp <==> 2 * (NumberOf(p) - value * unit) >= unit)
  }

  ghost predicate Scanned(p: string, value: int, decimals: int, anyDigit: bool, roundUp: bool)
  {
    && Numeral(p) && anyDigit == AnyDigit(p) && Kept(p, value, roundUp)
    && decimals == if '.' in p then Places(p) else -1
  }

  lemma ScanPoint(p: string, value: int, anyDigit: bool, roundUp: bool)
    requires Scanned(p, value, -1, anyDigit, roundUp)
    ensures Scanned(p + ['.'], value, 0, anyDigit, roundUp)
  {
    AppendPoint(p);
    NoPointNoPlaces(p);
    var q := p + ['.'];
    assert forall i :: 0 <= i < |p| ==> q[i] == p[i];
    assert q[|p|] == '.';
  }

  lemma ScanDigitShape(p: string, c: char)
    requires Numeral(p) && IsDigit(c)
    ensures Numeral(p + [c]) && AnyDigit(p + [c]) && ('.' in p + [c] <==> '.' in p)
  {
    var q := p + [c];
    assert forall i :: 0 <= i < |p| ==> q[i] == p[i];
    assert q[|p|] == c;
  }

  lemma ScanKept(p: string, c: char, value: int, decimals: int, anyDigit: bool)
    requires Scanned(p, value, decimals, anyDigit, false) && IsDigit(c) && decimals < FIXED_DIGITS
    ensures Scanned(p + [c], value * 10 + DigitOf(c), if decimals >= 0 then decimals + 1 else -1, true, false)
  {
    ScanDigitShape(p, c);
    AppendDigit(p, c);
    if decimals < 0 { NoPointNoPlaces(p); }
  }

  lemma ScanDropped(p: string, c: char, value: int, decimals: int, anyDigit: bool, roundUp: bool)
    requires Scanned(p, value, decimals, anyDigit, roundUp) && IsDigit(c) && decimals >= FIXED_DIGITS
    ensures Scanned(p + [c], value, decimals + 1, true, if decimals == FIXED_DIGITS then c >= '5' else roundUp)
  {
    ScanDigitShape(p, c);
    AppendDigit(p, c);
    var n, d := NumberOf(p), DigitOf(c);
    if decimals == FIXED_DIGITS {
      assert Pow10(1) == 10;
    } else {
      var half, unit := Pow10(decimals - FIXED_DIGITS - 1), Pow10(decimals - FIXED_DIGITS);
      LaterDigit(n, d, value, half, unit);
    }
  }

  // A digit after the first dropped one cannot change which half the dropped part is in
  lemma LaterDigit(n: int, d: int, value: int, tenth: int, unit: int)
    requires unit == 10 * tenth && 0 <= d <= 9 && value * unit <= n < (value + 1) * unit
    ensures value * (10 * unit) <= 10 * n + d < (value + 1) * (10 * unit)
    ensures 2 * (10 * n + d - value * (10 * unit)) >= 10 * unit <==> 2 * (n - value * unit) >= unit
  {
    Tenfold(value, unit);
    Tenfold(value + 1, unit);
    NextUnit(value, unit);
    SameHalf(n, d, value * unit, tenth, unit);
  }

  lemma NextUnit(value: int, unit: int)
    ensures (value + 1) * unit == value * unit + unit
  {
  }

  lemma SameHalf(n: int, d: int, kept: int, tenth: int, unit: int)
    requires unit == 10 * tenth && 0 <= d <= 9 && kept <= n < kept + unit
    ensures 10 * kept <= 10 * n + d < 10 * (kept + unit)
    ensures 2 * (10 * n + d - 10 * kept) >= 10 * unit <==> 2 * (n - kept) >= unit
  {
  }

  // ----- what the scan found

  lemma DroppedMagnitude(p: string, value: int, roundUp: bool)
    requires Kept(p, value, roundUp) && Places(p) > FIXED_DIGITS
    ensures Magnitude(p) == if roundUp then value + 1 else value
  {
    var unit := Pow10(Places(p) - FIXED_DIGITS);
    var m := if roundUp then value + 1 else value;
    PowAdd(FIXED_DIGITS, Places(p) - FIXED_DIGITS);
    ScaleIsPow();
    HalfOfUnit(NumberOf(p), value, unit, m);
    ScaleUp((2 * m - 1), unit, 2 * NumberOf(p), (2 * m + 1));
    MagnitudeIsNearest(p, m);
  }

  lemma HalfOfUnit(n: int, value: int, unit: int, m: int)
    requires value * unit <= n < (value + 1) * unit && unit > 0
    requires m == if 2 * (n - value * unit) >= unit then value + 1 else value
    ensures (2 * m - 1) * unit <= 2 * n < (2 * m + 1) * unit
  {
    Odds(m, unit);
    Tenfold2(m, unit);
    assert (value + 1) * unit == value * unit + unit;
  }

  lemma ScaleUp(lo: int, unit: int, n: int, hi: int)
    requires lo * unit <= n < hi * unit
    ensures lo * (FIXED_SCALE * unit) <= n * FIXED_SCALE < hi * (FIXED_SCALE * unit)
  {
    assert lo * (FIXED_SCALE * unit) == FIXED_SCALE * (lo * unit);
    assert hi * (FIXED_SCALE * unit) == FIXED_SCALE * (hi * unit);
  }

  // ----- why each rejection is right

  lemma RejectPoint(s: string, p: string, value: int, decimals: int, anyDigit: bool, roundUp: bool, negLimit: int)
    requires Scanned(p, value, decimals, anyDigit, roundUp) && decimals >= 0 && p + ['.'] <= Body(s)
    ensures !Acceptable(s, negLimit)
  {
    var j :| 0 <= j < |p| && p[j] == '.';
    assert Body(s)[j] == (p + ['.'])[j] && Body(s)[|p|] == (p + ['.'])[|p|];
  }

  lemma RejectChar(s: string, p: string, c: char, negLimit: int)
    requires !IsDigit(c) && c != '.' && p + [c] <= Body(s)
    ensures !Acceptable(s, negLimit)
  {
    assert Body(s)[|p|] == (p + [c])[|p|];
  }

  lemma RejectLarge(s: string, p: string, c: char, value: int, decimals: int, anyDigit: bool, negLimit: int)
    requires Scanned(p, value, decimals, anyDigit, false) && IsDigit(c) && decimals < FIXED_DIGITS
    requires p + [c] <= Body(s) && value * 10 + DigitOf(c) > negLimit
    ensures !Acceptable(s, negLimit)
  {
    ScanKept(p, c, value, decimals, anyDigit);
    hide Magnitude;
    hide NumberOf;
    if Numeral(Body(s)) {
      if '.' !in p + [c] { NoPointNoPlaces(p + [c]); }
      PrefixBelow(p + [c], Body(s));
    }
  }

  lemma NotYetRounding(p: string, value: int, decimals: int, anyDigit: bool, roundUp: bool)
    requires Scanned(p, value, decimals, anyDigit, roundUp) && decimals < FIXED_DIGITS
    ensures !roundUp
  {
    if decimals < 0 { NoPointNoPlaces(p); }
  }

  function Tenth(u: int): int
  {
    u / 10
  }

  lemma RoomForDigit(value: int, digit: int, negLimit: int)
    ensures value > Tenth(negLimit - digit) <==> value * 10 + digit > negLimit
  {
  }

  lemma TooLarge(s: string, negLimit: int)
    requires Magnitude(Body(s)) > negLimit
    ensures !Acceptable(s, negLimit)
  {
  }

  lemma Judge(s: string, value: int, negLimit: int)
    requires Numeral(Body(s)) && AnyDigit(Body(s)) && value == Magnitude(Body(s))
    ensures Acceptable(s, negLimit) <==> value < negLimit || (value == negLimit && Negative(s))
    ensures Value(s) == if Negative(s) then -value else value
  {
  }

  lemma StartFill(s: string, value: int, decimals: int, anyDigit: bool, roundUp: bool, negLimit: int)
    requires Scanned(Body(s), value, decimals, anyDigit, roundUp)
    ensures Filled(Body(s), value, value, if decimals < 0 then 0 else decimals) && Kept(Body(s), value, roundUp)
    ensures Numeral(Body(s)) && AnyDigit(Body(s)) == anyDigit
    ensures !anyDigit ==> !Acceptable(s, negLimit)
  {
    if decimals < 0 { NoPointNoPlaces(Body(s)); }
    assert Pow10(0) == 1;
  }

  lemma StartScan(s: string)
    ensures Scanned("", 0, -1, false, false)
    ensures Body(s) == if |s| > 0 && (s[0] == '-' || s[0] == '+') then s[1..] else s
    ensures Negative(s) <==> |s| > 0 && s[0] == '-'
  {
  }

  // The next prefix of the body
  lemma Onward(s: string, b: string, start: int, i: int)
    requires 0 <= start <= i < |s| && b == s[start..]
    ensures b[..i + 1 - start] == b[..i - start] + [s[i]] <= b
  {
  }

  // value with zeros for the decimals that are missing up to place k
  ghost predicate Filled(b: string, scanned: int, value: int, k: int)
  {
    if Places(b) <= FIXED_DIGITS then Places(b) <= k <= FIXED_DIGITS && value == NumberOf(b) * Pow10(k - Places(b))
    else k == Places(b) && value == scanned
  }

  lemma FillPlace(b: string, scanned: int, value: int, k: int)
    requires Filled(b, scanned, value, k) && k < FIXED_DIGITS
    ensures Filled(b, scanned, value * 10, k + 1)
  {
    Tenfold(NumberOf(b), Pow10(k - Places(b)));
  }

  lemma RejectFill(b: string, scanned: int, value: int, k: int, negLimit: int)
    requires Filled(b, scanned, value, k) && k < FIXED_DIGITS && value > Tenth(negLimit) && value >= 0
    ensures Magnitude(b) > negLimit
  {
    var n, e, rest := NumberOf(b), Pow10(k - Places(b)), Pow10(FIXED_DIGITS - k);
    assert rest >= 10;
    ExactMagnitude(b);
    PowAdd(k - Places(b), FIXED_DIGITS - k);
    hide *;
    Associate(n, e, rest);
    MulMonotone(10, rest, value);
    OverTenth(value, negLimit);
  }

  lemma Associate(n: int, e: int, p: int)
    ensures (n * e) * p == n * (e * p) == p * (n * e)
  {
  }

  lemma OverTenth(value: int, negLimit: int)
    ensures value > Tenth(negLimit) <==> 10 * value > negLimit
  {
  }

  lemma FilledMagnitude(b: string, scanned: int, value: int, roundUp: bool, k: int)
    requires Filled(b, scanned, value, k) && k >= FIXED_DIGITS && Kept(b, scanned, roundUp)
    ensures Magnitude(b) == if roundUp then value + 1 else value
  {
    if Places(b) <= FIXED_DIGITS {
      ExactMagnitude(b);
    } else {
      DroppedMagnitude(b, value, roundUp);
    }
  }

  // U(0) - u, modulo the width
  function UnsignedNegation(u: int, negLimit: int): int
    requires negLimit > 0
  {
    (0 - u) % (2 * negLimit)
  }

  // The signed value of the same bits
  function ToSigned(u: int, negLimit: int): int
  {
    if u >= negLimit then u - 2 * negLimit else u
  }

  lemma SignedResult(value: int, negLimit: int)
    requires 0 <= value <= negLimit && negLimit > 0
    ensures ToSigned(UnsignedNegation(value, negLimit), negLimit) == -value
    ensures value < negLimit ==> ToSigned(value, negLimit) == value
  {
    if value > 0 { UniqueRemainder(0 - value, 2 * negLimit, -1, 2 * negLimit - value); }
    else { UniqueRemainder(0, 2 * negLimit, 0, 0); }
  }

  lemma CharFacts(c: char)
    ensures IsDigit(c) <==> '0' <= c <= '9'
    ensures DigitOf(c) == c as int - '0' as int
  {
  }

  // Reads the characters from `start` on, one state change each
  method Scan(s: string, start: nat, negLimit: int)
    returns (ok: bool, value: int, decimals: int, anyDigit: bool, roundUp: bool)
    requires negLimit >= 10 && start <= |s| && Body(s) == s[start..]
    ensures ok ==> Scanned(Body(s), value, decimals, anyDigit, roundUp) && 0 <= value <= negLimit
    ensures !ok ==> !Acceptable(s, negLimit)
  {
    StartScan(s);
    hide *;
    ghost var b := s[start..];
    value, decimals, anyDigit, roundUp := 0, -1, false, false;
    var i := start;
    assert b[..0] == "";
    while i < |s|
      invariant start <= i <= |s|
      invariant Scanned(b[..i - start], value, decimals, anyDigit, roundUp)
      invariant 0 <= value <= negLimit
    {
      ghost var p, sawDigit := b[..i - start], anyDigit;
      var c := s[i];
      Onward(s, b, start, i);
      CharFacts(c);
      if c == '.' {
        if decimals >= 0 {
          RejectPoint(s, p, value, decimals, anyDigit, roundUp, negLimit);
          return false, value, decimals, anyDigit, roundUp;
        }
        ScanPoint(p, value, anyDigit, roundUp);
        decimals := 0;
        i := i + 1;
        continue;
      }
      if c < '0' || c > '9' {
        RejectChar(s, p, c, negLimit);
        return false, value, decimals, anyDigit, roundUp;
      }
      anyDigit := true;
      if decimals >= FIXED_DIGITS {
        ScanDropped(p, c, value, decimals, sawDigit, roundUp);
        if decimals == FIXED_DIGITS {
          roundUp := c >= '5';
        }
        decimals := decimals + 1;
        i := i + 1;
        continue;
      }
      var digit := c as int - '0' as int;
      NotYetRounding(p, value, decimals, sawDigit, roundUp);
      RoomForDigit(value, digit, negLimit);
      if value > Tenth(negLimit - digit) {
        RejectLarge(s, p, c, value, decimals, sawDigit, negLimit);
        return false, value, decimals, anyDigit, roundUp;
      }
      ScanKept(p, c, value, decimals, sawDigit);
      value := value * 10 + digit;
      if decimals >= 0 {
        decimals := decimals + 1;
      }
      i := i + 1;
    }
    assert b[..i - start] == b;
    ok := true;
  }

  /** Accepts a string exactly when it is well formed and its value, rounded half away from zero at
      the eighth decimal, fits the type; the result is that value. The unsigned accumulator never
      exceeds negLimit, and a rejected string leaves `out` as it was. */
  method ParseFixed(s: string, out: int, negLimit: int) returns (ok: bool, out': int)
    requires negLimit >= 10
    ensures ok <==> Acceptable(s, negLimit)
    ensures out' == if ok then Value(s) else out
  {
    out' := out;
    var i, negative := 0, false;
    if i < |s| && (s[i] == '-' || s[i] == '+') {
      negative := s[i] == '-';
      i := i + 1;
    }
    ghost var b := Body(s);
    StartScan(s);
    hide *;
    var value, decimals, anyDigit, roundUp;
    ok, value, decimals, anyDigit, roundUp := Scan(s, i, negLimit);
    if !ok {
      return;
    }
    StartFill(s, value, decimals, anyDigit, roundUp, negLimit);
    if !anyDigit {
      return false, out;
    }
    ghost var scanned := value;
    var k := if decimals < 0 then 0 else decimals;
    while k < FIXED_DIGITS
      invariant Filled(b, scanned, value, k) && 0 <= value <= negLimit
      decreases FIXED_DIGITS - k
    {
      if value > Tenth(negLimit) {
        RejectFill(b, scanned, value, k, negLimit);
        TooLarge(s, negLimit);
        return false, out;
      }
      OverTenth(value, negLimit);
      FillPlace(b, scanned, value, k);
      value := value * 10;
      k := k + 1;
    }
    FilledMagnitude(b, scanned, value, roundUp, k);
    if roundUp {
      if value >= negLimit {
        TooLarge(s, negLimit);
        return false, out;
      }
      value := value + 1;
    }
    Judge(s, value, negLimit);
    if value > negLimit || (!negative && value == negLimit) {
      return false, out;
    }
    SignedResult(value, negLimit);
    out' := if negative then ToSigned(UnsignedNegation(value, negLimit), negLimit) else ToSigned(value, negLimit);
    ok := true;
  }
}
