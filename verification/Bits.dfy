/** Fixed-width bit arithmetic on unsigned integers, as the CIDR masks use it. */
module Bits {
  import opened Arithmetic
  import opened Positional

  /** Bit `i`, counted from the least significant one. */
  predicate Bit(x: nat, i: nat) {
    if i == 0 then x % 2 == 1 else Bit(x / 2, i - 1)
  }

  /** `x & y`. */
  function And(x: nat, y: nat): nat {
    if x == 0 || y == 0 then 0
    else 2 * And(x / 2, y / 2) + (if x % 2 == 1 && y % 2 == 1 then 1 else 0)
  }

  /** `x << n` on a `width`-bit integer. */
  function Shl(x: nat, n: nat, width: nat): nat {
    (x * Pow(2, n)) % Pow(2, width)
  }

  lemma {:induction false} ZeroHasNoBits(i: nat)
    ensures !Bit(0, i)
  {
    if i > 0 {
      ZeroHasNoBits(i - 1);
    }
  }

  lemma {:induction false} BitOfAnd(x: nat, y: nat, i: nat)
    ensures Bit(And(x, y), i) <==> Bit(x, i) && Bit(y, i)
    decreases i
  {
    if x == 0 || y == 0 {
      ZeroHasNoBits(i);
    } else if i > 0 {
      BitOfAnd(x / 2, y / 2, i - 1);
    }
  }

  lemma {:induction false} AndIsBounded(x: nat, y: nat)
    ensures And(x, y) <= x
    decreases x
  {
    if x != 0 && y != 0 {
      AndIsBounded(x / 2, y / 2);
    }
  }

  lemma {:induction false} BitsDetermine(x: nat, y: nat, width: nat)
    requires x < Pow(2, width) && y < Pow(2, width)
    requires forall i | 0 <= i < width :: Bit(x, i) == Bit(y, i)
    ensures x == y
    decreases width
  {
    if width > 0 {
      assert Bit(x, 0) == Bit(y, 0);
      forall i | 0 <= i < width - 1 ensures Bit(x / 2, i) == Bit(y / 2, i) {
        assert Bit(x, i + 1) == Bit(y, i + 1);
      }
      BitsDetermine(x / 2, y / 2, width - 1);
    }
  }

  lemma {:induction false} Pow2Grows(k: nat, width: nat)
    requires k <= width
    ensures Pow(2, k) <= Pow(2, width)
  {
    if k < width {
      Pow2Grows(k, width - 1);
    }
  }

  /** The mask with all bits from `k` up set. */
  lemma {:induction false} MaskBits(width: nat, k: nat, i: nat)
    requires k <= width && i < width
    ensures Pow(2, width) >= Pow(2, k)
    ensures Bit(Pow(2, width) - Pow(2, k), i) <==> k <= i
    decreases width
  {
    hide Pow;
    Pow2Grows(k, width);
    PowStep(2, width - 1);
    var m := Pow(2, width) - Pow(2, k);
    if k == 0 {
      assert m / 2 == Pow(2, width - 1) - 1;
      if i > 0 {
        MaskBits(width - 1, 0, i - 1);
      }
    } else {
      PowStep(2, k - 1);
      assert m == 2 * (Pow(2, width - 1) - Pow(2, k - 1));
      if i > 0 {
        MaskBits(width - 1, k - 1, i - 1);
      }
    }
  }

  lemma OnesTimesPower(w: nat, p: nat)
    requires 1 <= p <= w
    ensures (w - 1) * p == w * (p - 1) + (w - p)
  {
  }

  /** Shifting the all-ones word left by `k` leaves the mask of the bits from `k` up. */
  lemma ShiftedOnes(width: nat, k: nat)
    requires k <= width
    ensures Pow(2, width) >= Pow(2, k)
    ensures Shl(Pow(2, width) - 1, k, width) == Pow(2, width) - Pow(2, k)
  {
    hide Pow;
    Pow2Grows(k, width);
    OnesTimesPower(Pow(2, width), Pow(2, k));
    ModuloOf(Pow(2, width), Pow(2, k) - 1, Pow(2, width) - Pow(2, k));
  }

  /** The first `n` of `width` bits, counted from the most significant one, agree. */
  ghost predicate LeadingBitsAgree(x: nat, y: nat, n: nat, width: nat)
    requires n <= width
  {
    forall i | width - n <= i < width :: Bit(x, i) == Bit(y, i)
  }

  /** Comparing under the mask compares the leading bits. */
  lemma MaskComparesLeadingBits(x: nat, y: nat, n: nat, width: nat)
    requires n <= width && x < Pow(2, width) && y < Pow(2, width)
    ensures var m := Shl(Pow(2, width) - 1, width - n, width);
            And(x, m) == And(y, m) <==> LeadingBitsAgree(x, y, n, width)
  {
    hide Pow, And, Shl;
    var k := width - n;
    ShiftedOnes(width, k);
    var m := Pow(2, width) - Pow(2, k);
    AndIsBounded(x, m);
    AndIsBounded(y, m);
    forall i | 0 <= i < width
      ensures Bit(And(x, m), i) <==> Bit(x, i) && k <= i
      ensures Bit(And(y, m), i) <==> Bit(y, i) && k <= i
    {
      MaskBits(width, k, i);
      BitOfAnd(x, m, i);
      BitOfAnd(y, m, i);
    }
    if LeadingBitsAgree(x, y, n, width) {
      BitsDetermine(And(x, m), And(y, m), width);
    }
  }

  // ----- Leading bits without bits -----

  lemma {:induction false} BitShift(x: nat, k: nat, i: nat)
    ensures Bit(x, k + i) == Bit(Quotient(x, Pow(2, k)), i)
    decreases k
  {
    hide Pow;
    PowStep(2, 0);
    if k > 0 {
      BitShift(x / 2, k - 1, i);
      PowStep(2, k - 1);
      DivTwice(x, 2, Pow(2, k - 1));
    }
  }

  lemma QuotientBound(x: nat, k: nat, n: nat)
    requires x < Pow(2, k + n)
    ensures Quotient(x, Pow(2, k)) < Pow(2, n)
  {
    hide Pow;
    PowSum(2, k, n);
    var v, w := Pow(2, k), Pow(2, n);
    DivMod(x, v);
    if x / v > w {
      MultiplesApart(v, w, x / v);
    }
  }

  /** The leading bits of two numbers agree exactly when the numbers do without their other bits. */
  lemma LeadingBitsAreQuotients(x: nat, y: nat, n: nat, width: nat)
    requires n <= width && x < Pow(2, width) && y < Pow(2, width)
    ensures LeadingBitsAgree(x, y, n, width) <==>
            Quotient(x, Pow(2, width - n)) == Quotient(y, Pow(2, width - n))
  {
    hide Pow, Quotient, Bit;
    var k := width - n;
    QuotientBound(x, k, n);
    QuotientBound(y, k, n);
    var u, v := Quotient(x, Pow(2, k)), Quotient(y, Pow(2, k));
    forall i | k <= i < width ensures Bit(x, i) == Bit(u, i - k) && Bit(y, i) == Bit(v, i - k) {
      BitShift(x, k, i - k);
      BitShift(y, k, i - k);
    }
    if LeadingBitsAgree(x, y, n, width) {
      forall i | 0 <= i < n ensures Bit(u, i) == Bit(v, i) {
        assert Bit(x, k + i) == Bit(y, k + i);
      }
      BitsDetermine(u, v, n);
    }
  }
}
