/** Unsigned machine words as naturals, with the bitwise operators and bit scans that the
    order book's level bitmaps use. Bit 0 is the least significant binary digit. */
module Words {

  function Pow2(n: nat): (p: nat)
    ensures p > 0
  {
    if n == 0 then 1 else 2 * Pow2(n - 1)
  }

  predicate Bit(w: nat, i: nat)
  {
    if i == 0 then w % 2 == 1 else Bit(w / 2, i - 1)
  }

  function And(a: nat, b: nat): nat
  {
    if a == 0 then 0 else 2 * And(a / 2, b / 2) + (if a % 2 == 1 && b % 2 == 1 then 1 else 0)
  }

  function Or(a: nat, b: nat): nat
    decreases a + b
  {
    if a == 0 && b == 0 then 0 else 2 * Or(a / 2, b / 2) + (if a % 2 == 1 || b % 2 == 1 then 1 else 0)
  }

  // a & ~b
  function AndNot(a: nat, b: nat): nat
  {
    if a == 0 then 0 else 2 * AndNot(a / 2, b / 2) + (if a % 2 == 1 && b % 2 == 0 then 1 else 0)
  }

  // __builtin_ctzll: the number of trailing zero bits
  function TrailingZeros(w: nat): nat
    requires w != 0
  {
    if w % 2 == 1 then 0 else 1 + TrailingZeros(w / 2)
  }

  // 63 - __builtin_clzll: the index of the highest set bit
  function HighestBit(w: nat): nat
    requires w != 0
  {
    if w == 1 then 0 else 1 + HighestBit(w / 2)
  }

  lemma {:induction false} ZeroHasNoBits(i: nat)
    ensures !Bit(0, i)
  {
    if i > 0 { ZeroHasNoBits(i - 1); }
  }

  lemma {:induction false} PowerBit(n: nat, i: nat)
    ensures Bit(Pow2(n), i) <==> i == n
  {
    if n == 0 {
      if i > 0 { ZeroHasNoBits(i - 1); }
    } else if i > 0 {
      PowerBit(n - 1, i - 1);
    }
  }

  lemma {:induction false} OrBit(a: nat, b: nat, i: nat)
    ensures Bit(Or(a, b), i) <==> Bit(a, i) || Bit(b, i)
  {
    if a == 0 && b == 0 {
      ZeroHasNoBits(i);
    } else if i > 0 {
      OrBit(a / 2, b / 2, i - 1);
    }
  }

  lemma {:induction false} AndNotBit(a: nat, b: nat, i: nat)
    ensures Bit(AndNot(a, b), i) <==> Bit(a, i) && !Bit(b, i)
  {
    if a == 0 {
      ZeroHasNoBits(i);
    } else if i > 0 {
      AndNotBit(a / 2, b / 2, i - 1);
    }
  }

  lemma {:induction false} OrFits(a: nat, b: nat, n: nat)
    requires a < Pow2(n) && b < Pow2(n)
    ensures Or(a, b) < Pow2(n)
  {
    if n > 0 && (a != 0 || b != 0) { OrFits(a / 2, b / 2, n - 1); }
  }

  lemma {:induction false} AndNotShrinks(a: nat, b: nat)
    ensures AndNot(a, b) <= a
  {
    if a != 0 { AndNotShrinks(a / 2, b / 2); }
  }

  lemma {:induction false} PowerFits(i: nat, n: nat)
    requires i < n
    ensures Pow2(i) < Pow2(n)
  {
    if i > 0 { PowerFits(i - 1, n - 1); }
  }

  // A word below 2^n has bits only below n
  lemma {:induction false} BitsBelow(w: nat, n: nat, i: nat)
    requires w < Pow2(n) && Bit(w, i)
    ensures i < n
  {
    if n == 0 {
      ZeroHasNoBits(i);
    } else if i > 0 {
      BitsBelow(w / 2, n - 1, i - 1);
    }
  }

  lemma {:induction false} AndSelf(w: nat)
    ensures And(w, w) == w
  {
    if w != 0 { AndSelf(w / 2); }
  }

  lemma BitOfDouble(x: nat, i: nat)
    ensures Bit(2 * x, i) <==> i > 0 && Bit(x, i - 1)
  {
    assert 2 * x / 2 == x;
  }

  // `w & (w - 1)` one binary digit at a time
  lemma AndPredecessor(w: nat)
    requires w != 0
    ensures And(w, w - 1) == 2 * (if w % 2 == 1 then w / 2 else And(w / 2, w / 2 - 1))
  {
    if w % 2 == 1 {
      assert (w - 1) / 2 == w / 2;
      AndSelf(w / 2);
    } else {
      assert (w - 1) / 2 == w / 2 - 1;
    }
  }

  /** `w & (w - 1)` clears exactly the bit that the trailing-zero count names, and that bit is
      the lowest one set. */
  lemma {:induction false} LowestBit(w: nat, i: nat)
    requires w != 0
    ensures var k := TrailingZeros(w);
            && Bit(w, k)
            && (Bit(w, i) ==> k <= i)
            && (Bit(And(w, w - 1), i) <==> Bit(w, i) && i != k)
  {
    AndPredecessor(w);
    hide And;
    if w % 2 == 1 {
      BitOfDouble(w / 2, i);
    } else {
      BitOfDouble(And(w / 2, w / 2 - 1), i);
      LowestBit(w / 2, if i == 0 then 0 else i - 1);
    }
  }

  lemma {:induction false} AndShrinks(a: nat, b: nat)
    ensures And(a, b) <= a && And(a, b) <= b
  {
    if a != 0 { AndShrinks(a / 2, b / 2); }
  }

  lemma {:induction false} HighestBitIsTop(w: nat, i: nat)
    requires w != 0
    ensures Bit(w, HighestBit(w))
    ensures Bit(w, i) ==> i <= HighestBit(w)
  {
    if w == 1 {
      if i > 0 { ZeroHasNoBits(i - 1); }
    } else {
      HighestBitIsTop(w / 2, if i == 0 then 0 else i - 1);
    }
  }
}
