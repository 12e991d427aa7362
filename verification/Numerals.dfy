/** Printing and reading of unsigned numerals, as the formatting macros `{}`, `{:x}` and `{:02}`/`{:04}`
    do it and as the readers of the emitted text undo it. */
module Numerals {
  import opened Arithmetic

  predicate ValidBase(base: nat) {
    base == 10 || base == 16
  }

  function DigitChar(d: nat): char
    requires d < 16
  {
    if d < 10 then '0' + d as char else 'a' + (d - 10) as char
  }

  predicate IsDigit(c: char, base: nat) {
    '0' <= c <= '9' || (base == 16 && 'a' <= c <= 'f')
  }

  function DigitValue(c: char): nat
    requires IsDigit(c, 16)
  {
    if c <= '9' then c as nat - '0' as nat else 10 + (c as nat - 'a' as nat)
  }

  lemma DigitRoundTrip(d: nat, base: nat)
    requires ValidBase(base) && d < base
    ensures IsDigit(DigitChar(d), base) && DigitValue(DigitChar(d)) == d
    ensures DigitChar(d) == '0' <==> d == 0
  {
  }

  /** The digits, spelled out. */
  lemma DigitsAre(c: char, d: nat)
    ensures d < 16 ==> DigitChar(d) == "0123456789abcdef"[d]
    ensures IsDigit(c, 10) <==> c in "0123456789"
    ensures IsDigit(c, 16) <==> c in "0123456789abcdef"
  {
    if IsDigit(c, 16) {
      var v := DigitValue(c);
      assert "0123456789abcdef"[v] == c;
      assert v < 10 ==> "0123456789"[v] == c;
    }
  }

  predicate AllDigits(s: string, base: nat) {
    forall i | 0 <= i < |s| :: IsDigit(s[i], base)
  }

  /** `{}` and `{:x}`: most significant digit first, no leading zero. */
  function Numeral(n: nat, base: nat): string
    requires ValidBase(base)
    decreases n
  {
    if n < base then [DigitChar(n)] else Numeral(n / base, base) + [DigitChar(n % base)]
  }

  function Decimal(n: nat): string {
    Numeral(n, 10)
  }

  /** The number a digit string denotes. */
  function Value(s: string, base: nat): nat
    requires ValidBase(base) && AllDigits(s, base)
  {
    if s == [] then 0
    else Value(s[..|s| - 1], base) * base + DigitValue(s[|s| - 1])
  }

  lemma {:induction false} NumeralDenotes(n: nat, base: nat)
    requires ValidBase(base)
    ensures |Numeral(n, base)| >= 1
    ensures AllDigits(Numeral(n, base), base)
    ensures Value(Numeral(n, base), base) == n
    ensures Numeral(n, base)[0] == '0' ==> n == 0 && |Numeral(n, base)| == 1
    decreases n
  {
    if n < base {
      DigitRoundTrip(n, base);
      var s := Numeral(n, base);
      assert s[..|s| - 1] == [];
    } else {
      NumeralDenotes(n / base, base);
      DigitRoundTrip(n % base, base);
      var s, t := Numeral(n, base), Numeral(n / base, base);
      assert s[..|s| - 1] == t;
      assert s[|s| - 1] == DigitChar(n % base);
      assert (n / base) * base + n % base == n;
    }
  }

  lemma {:induction false} ValueIsPositive(s: string, base: nat)
    requires ValidBase(base) && AllDigits(s, base) && s != [] && s[0] != '0'
    ensures Value(s, base) >= 1
    decreases |s|
  {
    if |s| > 1 {
      ValueIsPositive(s[..|s| - 1], base);
    }
  }

  lemma LastDigitSplits(v: nat, d: nat, base: nat)
    requires ValidBase(base) && d < base
    ensures (v * base + d) / base == v && (v * base + d) % base == d && (v >= 1 ==> v * base + d >= base)
  {
    if base == 10 {
      assert (v * 10 + d) / 10 == v;
    } else {
      assert (v * 16 + d) / 16 == v;
    }
  }

  /** A digit string without a leading zero is the numeral of the number it denotes. */
  lemma {:induction false} NumeralOfValue(s: string, base: nat)
    requires ValidBase(base) && AllDigits(s, base) && s != [] && (|s| == 1 || s[0] != '0')
    ensures Numeral(Value(s, base), base) == s
    decreases |s|
  {
    var n := |s| - 1;
    var v, d := Value(s[..n], base), DigitValue(s[n]);
    assert DigitChar(d) == s[n] && d < base;
    if n > 0 {
      ValueIsPositive(s[..n], base);
      NumeralOfValue(s[..n], base);
      LastDigitSplits(v, d, base);
    }
  }

  lemma {:induction false} NumeralLength(n: nat, base: nat, k: nat)
    requires ValidBase(base) && k >= 1 && n < Pow(base, k)
    ensures 1 <= |Numeral(n, base)| <= k
    decreases k
  {
    if n >= base {
      assert k > 1;
      assert n / base < Pow(base, k - 1);
      NumeralLength(n / base, base, k - 1);
    }
  }

  /** A numeral has at most `k` digits exactly when the number is below the `k`-th power of the base. */
  lemma {:induction false} NumeralLengthExactly(n: nat, base: nat, k: nat)
    requires ValidBase(base) && k >= 1
    ensures |Numeral(n, base)| <= k <==> n < Pow(base, k)
    decreases k
  {
    if n < Pow(base, k) {
      NumeralLength(n, base, k);
    } else {
      assert base * Pow(base, k - 1) == Pow(base, k);
      if k > 1 && n >= base {
        assert n / base >= Pow(base, k - 1);
        NumeralLengthExactly(n / base, base, k - 1);
      } else {
        NumeralDenotes(n / base, base);
      }
    }
  }

  /** Widths of the integer types the probe prints. */
  lemma WidthBounds(n: nat)
    ensures n < 0x100 ==> |Decimal(n)| <= 3
    ensures n < 0x1_0000 ==> |Decimal(n)| <= 5 && |Numeral(n, 16)| <= 4
    ensures n < 0x1_0000_0000 ==> |Decimal(n)| <= 10
    ensures n < 0x1_0000_0000_0000_0000 ==> |Decimal(n)| <= 20
  {
    PowValues();
    if n < 0x100 { NumeralLength(n, 10, 3); }
    if n < 0x1_0000 { NumeralLength(n, 10, 5); NumeralLength(n, 16, 4); }
    if n < 0x1_0000_0000 { NumeralLength(n, 10, 10); }
    if n < 0x1_0000_0000_0000_0000 { NumeralLength(n, 10, 20); }
  }

  lemma PowValues()
    ensures Pow(10, 2) == 100 && Pow(10, 3) == 1000 && Pow(10, 4) == 10_000 && Pow(10, 5) == 100_000
    ensures Pow(10, 10) == 10_000_000_000 && Pow(10, 20) == 100_000_000_000_000_000_000
    ensures Pow(16, 4) == 0x1_0000
  {
    assert Pow(10, 2) == 100;
    assert Pow(10, 4) == 10_000;
    assert Pow(10, 6) == 1_000_000;
    assert Pow(10, 8) == 100_000_000;
    assert Pow(10, 10) == 10_000_000_000;
    assert Pow(10, 12) == 1_000_000_000_000;
    assert Pow(10, 14) == 100_000_000_000_000;
    assert Pow(10, 16) == 10_000_000_000_000_000;
    assert Pow(10, 18) == 1_000_000_000_000_000_000;
    assert Pow(16, 2) == 256;
  }

  /** `{:0width}`: left-padded with zeros to at least `width` characters. */
  function Padded(n: nat, width: nat): string {
    var s := Decimal(n);
    seq(if |s| < width then width - |s| else 0, _ => '0') + s
  }

  lemma {:induction false} LeadingZeros(z: nat, s: string)
    requires AllDigits(s, 10)
    ensures AllDigits(seq(z, _ => '0') + s, 10)
    ensures Value(seq(z, _ => '0') + s, 10) == Value(s, 10)
    decreases z + |s|
  {
    var t := seq(z, _ => '0') + s;
    if s != [] {
      LeadingZeros(z, s[..|s| - 1]);
      assert t[..|t| - 1] == seq(z, _ => '0') + s[..|s| - 1];
    } else if z > 0 {
      LeadingZeros(z - 1, []);
      assert t[..|t| - 1] == seq(z - 1, _ => '0') + [];
    }
  }

  lemma PaddedDenotes(n: nat, width: nat)
    requires width >= 1 && n < Pow(10, width)
    ensures |Padded(n, width)| == width
    ensures AllDigits(Padded(n, width), 10)
    ensures Value(Padded(n, width), 10) == n
  {
    NumeralDenotes(n, 10);
    NumeralLength(n, 10, width);
    LeadingZeros(width - |Decimal(n)|, Decimal(n));
  }
}
