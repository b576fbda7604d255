/** What the accepted strings are and what they mean, from their parts: a sign, digits, a point and
    more digits. Also the values the source's comments give as examples. */
module FixedMeaning {
  import opened Arithmetic
  import opened Decimals
  import opened FixedPoint
  import opened FixedPrinting

  predicate Sign(sign: string)
  {
    sign == "" || sign == "+" || sign == "-"
  }

  predicate DecimalDigits(w: string)
  {
    forall i :: 0 <= i < |w| ==> 48 <= w[i] as int <= 57
  }

  // A sign, digits, and after a point, if there is one, more digits
  function Composed(sign: string, w: string, point: bool, f: string): string
  {
    sign + w + if point then "." + f else ""
  }

  lemma ComposedBody(sign: string, w: string, point: bool, f: string)
    requires Sign(sign) && DecimalDigits(w)
    ensures var b := w + if point then "." + f else "";
            Body(Composed(sign, w, point, f)) == b && (Negative(Composed(sign, w, point, f)) <==> sign == "-")
  {
    var b := w + if point then "." + f else "";
    var s := Composed(sign, w, point, f);
    assert s == sign + b;
    if sign == "" {
      assert s == b;
      if |b| > 0 { assert b[0] == if |w| > 0 then w[0] else '.'; }
    } else {
      assert s[1..] == b;
    }
  }

  /** Every string of these parts is well formed when there is a digit at all. */
  lemma PartsAreWellFormed(sign: string, w: string, point: bool, f: string)
    requires Sign(sign) && DecimalDigits(w) && DecimalDigits(f) && |w| + (if point then |f| else 0) > 0
    ensures WellFormed(Body(Composed(sign, w, point, f)))
  {
    ComposedBody(sign, w, point, f);
    var b := w + if point then "." + f else "";
    forall i | 0 <= i < |b|
      ensures if i == |w| then b[i] == '.' else IsDigit(b[i])
    {
      if i < |w| { assert b[i] == w[i]; }
      if i > |w| { assert b[i] == f[i - |w| - 1]; }
    }
    assert IsDigit(b[if |w| > 0 then 0 else 1]);
  }

  lemma OnePoint(b: string, k: int)
    requires Numeral(b) && 0 <= k < |b| && b[k] == '.'
    ensures DecimalDigits(b[..k]) && DecimalDigits(b[k + 1..]) && b == b[..k] + ("." + b[k + 1..])
  {
  }

  lemma NoPoint(b: string)
    requires Numeral(b) && '.' !in b
    ensures DecimalDigits(b)
  {
  }

  lemma SomeDigit(b: string)
    requires WellFormed(b)
    ensures |b| >= 1 && (b[0] == '.' ==> |b| >= 2)
  {
    var d :| 0 <= d < |b| && IsDigit(b[d]);
  }

  lemma BodyHasParts(b: string) returns (w: string, point: bool, f: string)
    requires WellFormed(b)
    ensures DecimalDigits(w) && DecimalDigits(f) && |w| + (if point then |f| else 0) > 0
    ensures b == w + if point then "." + f else ""
  {
    SomeDigit(b);
    hide DecimalDigits;
    if '.' in b {
      var k :| 0 <= k < |b| && b[k] == '.';
      OnePoint(b, k);
      w, point, f := b[..k], true, b[k + 1..];
    } else {
      NoPoint(b);
      w, point, f := b, false, "";
    }
  }

  /** And no other string is. */
  lemma WellFormedHasParts(s: string) returns (sign: string, w: string, point: bool, f: string)
    requires WellFormed(Body(s))
    ensures Sign(sign) && DecimalDigits(w) && DecimalDigits(f) && |w| + (if point then |f| else 0) > 0
    ensures s == Composed(sign, w, point, f)
  {
    hide WellFormed;
    hide DecimalDigits;
    sign := if |s| > 0 && (s[0] == '-' || s[0] == '+') then [s[0]] else "";
    assert s == sign + Body(s);
    w, point, f := BodyHasParts(Body(s));
    assert sign + (w + if point then "." + f else "") == sign + w + if point then "." + f else "";
  }

  /** A string is accepted exactly when it has that form and its value is one the type has. */
  lemma AcceptableIff(s: string, negLimit: int)
    requires negLimit > 0
    ensures Acceptable(s, negLimit) <==> WellFormed(Body(s)) && -negLimit <= Value(s) <= negLimit - 1
  {
    if WellFormed(Body(s)) { MagnitudeNotNegative(Body(s)); }
  }

  lemma MagnitudeNotNegative(b: string)
    requires Numeral(b)
    ensures Magnitude(b) >= 0
  {
    hide *;
    NotNegative(b);
    var m, p := Magnitude(b), Pow10(Places(b));
    MagnitudeIsNearest(b, m);
    if m < 0 { MulMonotone(2 * m + 1, -1, p); }
  }

  /** The value of a string is, up to its sign, the count of hundred-millionths nearest to the number
      its digits spell over ten to the number of those after the point; of two equally near, the
      one further from zero. */
  lemma ValueOfParts(sign: string, w: string, f: string, m: int)
    requires Sign(sign) && DecimalDigits(w) && DecimalDigits(f)
    requires (2 * m - 1) * Pow10(|f|) <= 2 * NumberOf(w + f) * 100000000 < (2 * m + 1) * Pow10(|f|)
    ensures Value(Composed(sign, w, true, f)) == if sign == "-" then -m else m
  {
    ComposedBody(sign, w, true, f);
    assert w + ("." + f) == w + "." + f;
    AfterPoint(w, f);
    Concatenated(w, f);
    MagnitudeIsNearest(w + "." + f, m);
  }

  /** Without a point, the number itself. */
  lemma ValueOfWhole(sign: string, w: string)
    requires Sign(sign) && DecimalDigits(w)
    ensures Value(Composed(sign, w, false, "")) == (if sign == "-" then -1 else 1) * NumberOf(w) * 100000000
  {
    ComposedBody(sign, w, false, "");
    assert w + "" == w;
    NoPointNoPlaces(w);
    MagnitudeIsNearest(w, NumberOf(w) * 100000000);
  }

  /** Digits read from the left, ten times what came before each time. */
  lemma ReadDigit(b: string, c: char, k: nat)
    requires 48 <= c as int <= 57
    ensures NumberOf("") == 0 && NumberOf(b + [c]) == 10 * NumberOf(b) + (c as int - 48)
    ensures Pow10(0) == 1 && Pow10(k + 1) == 10 * Pow10(k)
  {
    AppendDigit(b, c);
  }

  // ----- the examples

  lemma Read845231()
    ensures NumberOf("84523" + "1") == 845231
  {
    assert [] + ['8'] == "8" && "8" + ['4'] == "84" && "84" + ['5'] == "845" && "845" + ['2'] == "8452";
    assert "8452" + ['3'] == "84523" && "84523" + ['1'] == "84523" + "1";
    AppendDigit([], '8');
    AppendDigit("8", '4');
    AppendDigit("84", '5');
    AppendDigit("845", '2');
    AppendDigit("8452", '3');
    AppendDigit("84523", '1');
  }

  lemma SmallPowers()
    ensures Pow10(1) == 10 && Pow10(3) == 1000 && Pow10(9) == 1000000000 && Pow10(10) == 10000000000
  {
    assert Pow10(5) == 100000;
  }

  lemma ZerosThen(zeros: string, c: char)
    requires IsDigit(c) && forall i :: 0 <= i < |zeros| ==> zeros[i] == '0'
    ensures NumberOf(zeros + [c]) == DigitOf(c)
  {
    AllZeros(zeros);
    AppendDigit(zeros, c);
  }

  // One nonzero digit in the last of so many decimals
  lemma LastDecimal(f: string, c: char, zeros: string)
    requires IsDigit(c) && f == zeros + [c] && forall i :: 0 <= i < |zeros| ==> zeros[i] == '0'
    ensures DecimalDigits(f) && NumberOf("0" + f) == DigitOf(c)
  {
    assert "0" + f == ("0" + zeros) + [c];
    ZerosThen("0" + zeros, c);
  }

  /** "84523.1" is 8452310000000 and "0.001" is 100000. */
  lemma DocumentedValues()
    ensures Value(Composed("", "84523", true, "1")) == 8452310000000
    ensures Value(Composed("", "0", true, "001")) == 100000
  {
    Read845231();
    SmallPowers();
    LastDecimal("001", '1', "00");
    assert |"1"| == 1 && |"001"| == 3 && DigitOf('1') == 1;
    hide NumberOf;
    hide Pow10;
    hide Value;
    hide Composed;
    ValueOfParts("", "84523", "1", 8452310000000);
    ValueOfParts("", "0", "001", 100000);
  }

  /** Half a hundred-millionth counts as one, on either side of zero, and anything less as none. */
  lemma HalfRoundsAway()
    ensures Value(Composed("", "0", true, "000000005")) == 1 && Value(Composed("-", "0", true, "000000005")) == -1
    ensures Value(Composed("", "0", true, "000000004")) == 0
  {
    SmallPowers();
    LastDecimal("000000005", '5', "00000000");
    LastDecimal("000000004", '4', "00000000");
    assert |"000000005"| == 9 && |"000000004"| == 9 && DigitOf('5') == 5 && DigitOf('4') == 4;
    hide NumberOf;
    hide Pow10;
    hide Value;
    hide Composed;
    ValueOfParts("", "0", "000000005", 1);
    ValueOfParts("-", "0", "000000005", 1);
    ValueOfParts("", "0", "000000004", 0);
  }

  /** And values are printed back: "84523.1", "0", "-0.5". */
  lemma DocumentedPrints()
    ensures Printed(8452310000000) == "84523" + "." + "1" && Printed(0) == "0"
    ensures Printed(-50000000) == "-" + ("0" + "." + "5")
  {
    PrintsLong();
    PrintsHalf();
    assert Decimal(0) == "0" && Printed(0) == "" + "0" + "";
  }

  lemma PrintsLong()
    ensures Printed(8452310000000) == "84523" + "." + "1"
  {
    DocumentedValues();
    var s := "84523" + "." + "1";
    assert Composed("", "84523", true, "1") == s && Signed(false, Joined("84523", "1")) == s;
    assert CanonicalParts(false, "84523", "1");
    PrintParsed(s);
  }

  lemma PrintsHalf()
    ensures Printed(-50000000) == "-" + ("0" + "." + "5")
  {
    SmallPowers();
    LastDecimal("5", '5', "");
    ValueOfParts("-", "0", "5", 50000000);
    var s := "-" + ("0" + "." + "5");
    assert Composed("-", "0", true, "5") == s && Signed(true, Joined("0", "5")) == s;
    assert CanonicalParts(true, "0", "5");
    PrintParsed(s);
  }
}
