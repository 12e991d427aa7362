/** Constants and facts about multiples that several parts share. */
module Arithmetic {

  const NANOS_PER_SEC := 1_000_000_000
  const TWO_64 := 0x1_0000_0000_0000_0000

  function Pow(base: nat, k: nat): (p: nat)
    ensures base >= 1 ==> p >= 1
  {
    if k == 0 then 1 else base * Pow(base, k - 1)
  }

  lemma PowStep(base: nat, k: nat)
    ensures Pow(base, k + 1) == base * Pow(base, k) && Pow(base, 0) == 1
  {
  }

  lemma {:induction false} PowSum(base: nat, a: nat, b: nat)
    ensures Pow(base, a + b) == Pow(base, a) * Pow(base, b)
  {
    if b > 0 {
      PowSum(base, a, b - 1);
      SwapFactors(base, Pow(base, a), Pow(base, b - 1));
    }
  }

  lemma SwapFactors(x: nat, y: nat, z: nat)
    ensures x * (y * z) == y * (x * z)
  {
    assert (x * y) * z == (y * x) * z;
  }

  lemma MultiplesApart(w: nat, q: int, q': int)
    requires q < q'
    ensures w * q + w <= w * q'
  {
    var k: nat := q' - q - 1;
    assert w * k >= 0;
    assert w * (q + k + 1) == w * q + w * k + w;
  }

  lemma RemainderIsUnique(w: nat, q: int, r: nat, q': int, r': nat)
    requires r < w && r' < w && w * q + r == w * q' + r'
    ensures q == q' && r == r'
  {
    if q < q' {
      MultiplesApart(w, q, q');
    } else if q' < q {
      MultiplesApart(w, q', q);
    }
  }

  lemma DivMod(x: nat, w: nat)
    requires w >= 1
    ensures x / w >= 0 && 0 <= x % w < w && x == w * (x / w) + x % w
  {
  }

  lemma ModuloOf(w: nat, q: nat, r: nat)
    requires r < w
    ensures (w * q + r) % w == r && (w * q + r) / w == q
  {
    var x := w * q + r;
    DivMod(x, w);
    RemainderIsUnique(w, q, r, x / w, x % w);
  }

  /** Dividing in two steps is dividing once. */
  lemma DivTwice(x: nat, a: nat, b: nat)
    requires a >= 1 && b >= 1
    ensures a * b >= 1 && (x / a) / b == x / (a * b)
  {
    var q, r := x / a, x % a;
    var q', r' := q / b, q % b;
    DivMod(x, a);
    DivMod(q, b);
    Regroup(a, b, q', r', r);
    SmallRemainder(a, b, r', r);
    var rest := a * r' + r;
    assert x == (a * b) * q' + rest;
    DivMod(x, a * b);
    RemainderIsUnique(a * b, x / (a * b), x % (a * b), q', rest);
  }

  lemma Regroup(a: nat, b: nat, q: nat, r: nat, s: nat)
    ensures a * (b * q + r) + s == (a * b) * q + (a * r + s)
  {
    assert a * (b * q) == (a * b) * q;
  }

  lemma SmallRemainder(a: nat, b: nat, r: nat, s: nat)
    requires r < b && s < a
    ensures a * b >= 1 && 0 <= a * r + s < a * b
  {
    MultiplesApart(a, r, b);
  }
}
