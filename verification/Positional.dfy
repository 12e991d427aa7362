/** Numbers written in digits of a fixed number of bits, and their leading bits. */
module Positional {
  import opened Arithmetic

  /** The number with these digits, of `b` bits each, most significant first. */
  function FromDigits(ds: seq<nat>, b: nat): nat {
    if ds == [] then 0 else Pow(2, b) * FromDigits(ds[..|ds| - 1], b) + ds[|ds| - 1]
  }

  ghost predicate Digits(ds: seq<nat>, b: nat) {
    forall i | 0 <= i < |ds| :: ds[i] < Pow(2, b)
  }

  lemma {:induction false} DigitsBounded(ds: seq<nat>, b: nat)
    requires Digits(ds, b)
    ensures FromDigits(ds, b) < Pow(2, b * |ds|)
    decreases |ds|
  {
    hide Pow;
    PowStep(2, 0);
    if ds == [] {
      assert b * |ds| == 0;
    } else {
      var n := |ds| - 1;
      DigitsBounded(ds[..n], b);
      assert b * |ds| == b + b * n;
      PowSum(2, b, b * n);
      SmallRemainder(Pow(2, b), Pow(2, b * n), FromDigits(ds[..n], b), ds[n]);
    }
  }

  /** Numbers with the same count of digits are equal digit by digit. */
  lemma {:induction false} DigitsDetermined(ds: seq<nat>, es: seq<nat>, b: nat)
    requires Digits(ds, b) && Digits(es, b) && |ds| == |es| && FromDigits(ds, b) == FromDigits(es, b)
    ensures ds == es
    decreases |ds|
  {
    if ds != [] {
      var n := |ds| - 1;
      RemainderIsUnique(Pow(2, b), FromDigits(ds[..n], b), ds[n], FromDigits(es[..n], b), es[n]);
      DigitsDetermined(ds[..n], es[..n], b);
      assert ds == ds[..n] + [ds[n]] && es == es[..n] + [es[n]];
    }
  }

  /** A division to be reasoned about by its laws only. */
  function Quotient(x: nat, v: nat): nat
    requires v >= 1
  {
    x / v
  }

  lemma DropLastDigit(ds: seq<nat>, b: nat)
    requires Digits(ds, b) && ds != []
    ensures Digits(ds[..|ds| - 1], b)
    ensures Quotient(FromDigits(ds, b), Pow(2, b)) == FromDigits(ds[..|ds| - 1], b)
  {
    hide Pow;
    ModuloOf(Pow(2, b), FromDigits(ds[..|ds| - 1], b), ds[|ds| - 1]);
  }

  /** The bits of the digits from `q` on, of `n`. */
  function BitsBehind(b: nat, n: nat, q: nat): nat
    requires q <= n
  {
    b * (n - q)
  }

  /** Dropping the last digits leaves the number of the first ones. */
  lemma {:induction false} FirstDigits(ds: seq<nat>, b: nat, q: nat)
    requires Digits(ds, b) && q <= |ds|
    ensures Quotient(FromDigits(ds, b), Pow(2, BitsBehind(b, |ds|, q))) == FromDigits(ds[..q], b)
    decreases |ds|
  {
    hide Pow, FromDigits, Digits, Quotient;
    if q == |ds| {
      assert ds[..q] == ds;
      DropNothing(FromDigits(ds, b), b);
    } else {
      var n := |ds| - 1;
      DropLastDigit(ds, b);
      FirstDigits(ds[..n], b, q);
      assert ds[..n][..q] == ds[..q];
      DropBits(FromDigits(ds, b), b, n - q);
    }
  }

  lemma DropNothing(x: nat, b: nat)
    ensures Quotient(x, Pow(2, b * 0)) == x
  {
    PowStep(2, 0);
  }

  lemma DropBits(x: nat, b: nat, k: nat)
    ensures Quotient(Quotient(x, Pow(2, b)), Pow(2, b * k)) == Quotient(x, Pow(2, b * (k + 1)))
  {
    hide Pow;
    PowSum(2, b, b * k);
    assert b * (k + 1) == b + b * k;
    DivTwice(x, Pow(2, b), Pow(2, b * k));
  }

  /** The first `p` bits of two equally long digit lists agree: whole digits first, and the leading bits of the next. */
  ghost predicate FirstBitsAgree(ds: seq<nat>, es: seq<nat>, b: nat, p: nat)
    requires b >= 1 && |ds| == |es| && p <= b * |ds|
  {
    FitsDigits(b, |ds|, p);
    ds[..p / b] == es[..p / b] && (p % b != 0 ==> ds[p / b] / Pow(2, b - p % b) == es[p / b] / Pow(2, b - p % b))
  }

  lemma FitsDigits(b: nat, n: nat, p: nat)
    requires b >= 1 && p <= b * n
    ensures 0 <= p / b <= n && 0 <= p % b < b && (p % b != 0 ==> p / b < n)
  {
    DivMod(p, b);
    if p / b > n {
      MultiplesApart(b, n, p / b);
    } else if p / b == n {
      assert p % b == 0;
    }
  }

  /** That is agreement of the numbers after dropping all but the first `p` bits. */
  lemma FirstBitsAreQuotients(ds: seq<nat>, es: seq<nat>, b: nat, p: nat)
    requires b >= 1 && |ds| == |es| && p <= b * |ds| && Digits(ds, b) && Digits(es, b)
    ensures FirstBitsAgree(ds, es, b, p) <==>
            Quotient(FromDigits(ds, b), Pow(2, b * |ds| - p)) == Quotient(FromDigits(es, b), Pow(2, b * |ds| - p))
  {
    hide Pow, FromDigits, Digits, Behind, BitsBehind;
    FitsDigits(b, |ds|, p);
    var q, r := p / b, p % b;
    BitsLeft(b, |ds|, p, q, r);
    if r == 0 {
      WholeDigits(ds, es, b, q);
    } else {
      PartOfDigit(ds, es, b, q, r, b * |ds| - p);
    }
  }

  /** `k` bits stand behind the first `r` bits of digit `q` of `n`. */
  predicate Behind(b: nat, n: nat, q: nat, r: nat, k: nat) {
    q < n && r <= b && k == BitsBehind(b, n, q + 1) + (b - r)
  }

  lemma BitsLeft(b: nat, n: nat, p: nat, q: nat, r: nat)
    requires b >= 1 && p <= b * n && q == p / b && r == p % b && q <= n
    ensures b * n - p == BitsBehind(b, n, q) - r && (q < n ==> Behind(b, n, q, r, b * n - p))
  {
    DivMod(p, b);
    assert b * n == b * q + b * (n - q);
    assert q < n ==> b * (n - q) == b * (n - (q + 1)) + b;
  }

  lemma WholeDigits(ds: seq<nat>, es: seq<nat>, b: nat, q: nat)
    requires |ds| == |es| && q <= |ds| && Digits(ds, b) && Digits(es, b)
    ensures ds[..q] == es[..q] <==>
            Quotient(FromDigits(ds, b), Pow(2, BitsBehind(b, |ds|, q))) == Quotient(FromDigits(es, b), Pow(2, BitsBehind(b, |ds|, q)))
  {
    hide Pow, FromDigits, Quotient, BitsBehind;
    FirstDigits(ds, b, q);
    FirstDigits(es, b, q);
    if FromDigits(ds[..q], b) == FromDigits(es[..q], b) {
      DigitsDetermined(ds[..q], es[..q], b);
    }
  }

  lemma PartOfDigit(ds: seq<nat>, es: seq<nat>, b: nat, q: nat, r: nat, k: nat)
    requires |ds| == |es| && q < |ds| && 0 < r < b && Digits(ds, b) && Digits(es, b)
    requires Behind(b, |ds|, q, r, k)
    ensures ds[..q] == es[..q] && Quotient(ds[q], Pow(2, b - r)) == Quotient(es[q], Pow(2, b - r)) <==>
            Quotient(FromDigits(ds, b), Pow(2, k)) == Quotient(FromDigits(es, b), Pow(2, k))
  {
    hide Pow, FromDigits, Behind, Quotient;
    QuotientSplits(ds, b, q, r, k);
    QuotientSplits(es, b, q, r, k);
    if FromDigits(ds[..q], b) == FromDigits(es[..q], b) {
      DigitsDetermined(ds[..q], es[..q], b);
    }
    SameParts(Pow(2, r), FromDigits(ds[..q], b), Quotient(ds[q], Pow(2, b - r)),
              FromDigits(es[..q], b), Quotient(es[q], Pow(2, b - r)));
  }

  lemma SameParts(w: nat, x: nat, d: nat, y: nat, e: nat)
    requires d < w && e < w
    ensures w * x + d == w * y + e <==> x == y && d == e
  {
    if w * x + d == w * y + e {
      RemainderIsUnique(w, x, d, y, e);
    }
  }

  lemma QuotientSplits(ds: seq<nat>, b: nat, q: nat, r: nat, k: nat)
    requires 0 < r < b && q < |ds| && Digits(ds, b) && Behind(b, |ds|, q, r, k)
    ensures Quotient(FromDigits(ds, b), Pow(2, k)) == Pow(2, r) * FromDigits(ds[..q], b) + Quotient(ds[q], Pow(2, b - r))
    ensures Quotient(ds[q], Pow(2, b - r)) < Pow(2, r)
  {
    hide Pow, FromDigits, Quotient, BitsBehind;
    FirstDigits(ds, b, q + 1);
    NextDigit(ds, b, q);
    DropMoreBits(FromDigits(ds, b), BitsBehind(b, |ds|, q + 1), b - r, k);
    SplitDigit(FromDigits(ds[..q], b), ds[q], b, r);
  }

  lemma NextDigit(ds: seq<nat>, b: nat, q: nat)
    requires q < |ds|
    ensures FromDigits(ds[..q + 1], b) == Pow(2, b) * FromDigits(ds[..q], b) + ds[q]
  {
    assert ds[..q + 1][..q] == ds[..q];
  }

  lemma SplitDigit(x: nat, d: nat, b: nat, r: nat)
    requires 0 < r < b && d < Pow(2, b)
    ensures Quotient(Pow(2, b) * x + d, Pow(2, b - r)) == Pow(2, r) * x + Quotient(d, Pow(2, b - r))
    ensures Quotient(d, Pow(2, b - r)) < Pow(2, r)
  {
    hide Pow, Quotient;
    PowSum(2, r, b - r);
    assert r + (b - r) == b;
    QuotientOfSum(Pow(2, r), Pow(2, b - r), x, d);
  }

  lemma DropMoreBits(x: nat, k: nat, l: nat, all: nat)
    requires all == k + l
    ensures Quotient(Quotient(x, Pow(2, k)), Pow(2, l)) == Quotient(x, Pow(2, all))
  {
    hide Pow;
    PowSum(2, k, l);
    DivTwice(x, Pow(2, k), Pow(2, l));
  }

  lemma QuotientOfSum(w: nat, v: nat, x: nat, d: nat)
    requires w >= 1 && v >= 1 && d < w * v
    ensures Quotient((w * v) * x + d, v) == w * x + Quotient(d, v) && Quotient(d, v) < w
  {
    DivMod(d, v);
    var e, f := d / v, d % v;
    Regroup(v, w, x, e, f);
    SameProduct(v, w, x);
    ModuloOf(v, w * x + e, f);
    if e >= w {
      NotSmall(w, v, e);
    }
  }

  lemma SameProduct(v: nat, w: nat, x: nat)
    ensures (v * w) * x == (w * v) * x
  {
  }

  lemma NotSmall(w: nat, v: nat, e: nat)
    requires e >= w
    ensures v * e >= w * v
  {
  }
}
