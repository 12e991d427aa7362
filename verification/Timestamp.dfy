/** `ts_ns_to_rfc3339` of asg-common/src/timeutil.rs: what it prints, read back and compared. */
module Timestamp {
  import opened Options
  import opened Arithmetic
  import opened Numerals
  import opened Calendar

  lemma PrintedYears(tsNs: nat)
    requires tsNs < TWO_64
    ensures 1970 <= CivilFromDays(tsNs / 1_000_000_000 / 86_400).year <= 2554
  {
    hide CivilFromDays;
    var days := tsNs / NANOS_PER_SEC / 86_400;
    CivilFromDaysCorrect(days);
    EpochDay();
    CivilFromDaysIsMonotone(days, 0);
    assert DaysFromCivil(Date(2555, 1, 1)) == 213_667;
    DaysOfValidDateRoundTrip(Date(2555, 1, 1));
    CivilFromDaysIsMonotone(days, 213_667);
  }

  function ToRfc3339(tsNs: nat): string
    requires tsNs < TWO_64
  {
    PrintedYears(tsNs);
    var secs := tsNs / NANOS_PER_SEC;
    var sod := secs % 86_400;
    var date := CivilFromDays(secs / 86_400);
    CivilFromDaysCorrect(secs / 86_400);
    Format(date.year, date.month, date.day, sod / 3_600, (sod % 3_600) / 60, sod % 60)
  }

  function Format(year: nat, month: nat, day: nat, hour: nat, minute: nat, second: nat): string {
    Padded(year, 4) + "-" + Padded(month, 2) + "-" + Padded(day, 2) + "T" +
    Padded(hour, 2) + ":" + Padded(minute, 2) + ":" + Padded(second, 2) + "Z"
  }

  // ----- Reading a UTC date-time of section 5.6 of RFC 3339, without a fraction -----

  function ReadField(s: string, from: nat, width: nat): Option<nat>
    requires from + width <= |s|
  {
    if AllDigits(s[from..from + width], 10) then Some(Value(s[from..from + width], 10)) else None
  }

  /** Seconds since the epoch, or `None` when `s` is not such a date-time. */
  function ReadRfc3339(s: string): Option<int> {
    if |s| != 20 || s[4] != '-' || s[7] != '-' || s[10] != 'T' || s[13] != ':' || s[16] != ':' || s[19] != 'Z' then None
    else
      match (ReadField(s, 0, 4), ReadField(s, 5, 2), ReadField(s, 8, 2),
             ReadField(s, 11, 2), ReadField(s, 14, 2), ReadField(s, 17, 2))
      case (Some(y), Some(mo), Some(d), Some(h), Some(mi), Some(sec)) =>
        if ValidDate(Date(y, mo, d)) && h < 24 && mi < 60 && sec < 60
        then Some(DaysFromCivil(Date(y, mo, d)) * 86_400 + h * 3_600 + mi * 60 + sec)
        else None
      case _ => None
  }

  lemma PiecesLayout(y: string, mo: string, d: string, h: string, mi: string, sec: string)
    requires |y| == 4 && |mo| == 2 && |d| == 2 && |h| == 2 && |mi| == 2 && |sec| == 2
    ensures var s := y + "-" + mo + "-" + d + "T" + h + ":" + mi + ":" + sec + "Z";
            |s| == 20 && s[4] == '-' && s[7] == '-' && s[10] == 'T' && s[13] == ':' && s[16] == ':' && s[19] == 'Z' &&
            s[0..4] == y && s[5..7] == mo && s[8..10] == d && s[11..13] == h && s[14..16] == mi && s[17..19] == sec
  {
    var s := y + "-" + mo + "-" + d + "T" + h + ":" + mi + ":" + sec + "Z";
    assert s[5] == mo[0] && s[6] == mo[1] && s[8] == d[0] && s[9] == d[1];
    assert s[11] == h[0] && s[12] == h[1] && s[14] == mi[0] && s[15] == mi[1] && s[17] == sec[0] && s[18] == sec[1];
  }

  lemma FormatLayout(y: nat, mo: nat, d: nat, h: nat, mi: nat, sec: nat)
    requires y < 10_000 && mo < 100 && d < 100 && h < 100 && mi < 100 && sec < 100
    ensures var s := Format(y, mo, d, h, mi, sec);
            |s| == 20 && s[4] == '-' && s[7] == '-' && s[10] == 'T' && s[13] == ':' && s[16] == ':' && s[19] == 'Z' &&
            s[0..4] == Padded(y, 4) && s[5..7] == Padded(mo, 2) && s[8..10] == Padded(d, 2) &&
            s[11..13] == Padded(h, 2) && s[14..16] == Padded(mi, 2) && s[17..19] == Padded(sec, 2)
  {
    hide Padded, Value, AllDigits, Pow;
    PowValues();
    PaddedDenotes(y, 4);
    PaddedDenotes(mo, 2);
    PaddedDenotes(d, 2);
    PaddedDenotes(h, 2);
    PaddedDenotes(mi, 2);
    PaddedDenotes(sec, 2);
    PiecesLayout(Padded(y, 4), Padded(mo, 2), Padded(d, 2), Padded(h, 2), Padded(mi, 2), Padded(sec, 2));
  }

  lemma FieldReadsBack(s: string, from: nat, width: nat, n: nat)
    requires 1 <= width && from + width <= |s| && n < Pow(10, width)
    requires s[from..from + width] == Padded(n, width)
    ensures ReadField(s, from, width) == Some(n)
  {
    PaddedDenotes(n, width);
  }

  lemma FormatReadsBack(date: Date, h: nat, mi: nat, sec: nat)
    requires ValidDate(date) && 0 <= date.year < 10_000 && h < 24 && mi < 60 && sec < 60
    ensures ReadRfc3339(Format(date.year, date.month, date.day, h, mi, sec)) ==
            Some(DaysFromCivil(date) * 86_400 + h * 3_600 + mi * 60 + sec)
  {
    hide Format, Padded, DaysFromCivil, ReadField, Pow, Numeral;
    var s := Format(date.year, date.month, date.day, h, mi, sec);
    FormatLayout(date.year, date.month, date.day, h, mi, sec);
    PowValues();
    FieldReadsBack(s, 0, 4, date.year);
    FieldReadsBack(s, 5, 2, date.month);
    FieldReadsBack(s, 8, 2, date.day);
    FieldReadsBack(s, 11, 2, h);
    FieldReadsBack(s, 14, 2, mi);
    FieldReadsBack(s, 17, 2, sec);
  }

  /** Reading the printed string gives back the whole seconds, for every `u64`; the string has 20 characters. */
  lemma PrintedTimestampReadsBack(tsNs: nat)
    requires tsNs < TWO_64
    ensures ReadRfc3339(ToRfc3339(tsNs)) == Some(tsNs / 1_000_000_000)
    ensures |ToRfc3339(tsNs)| == 20 && ToRfc3339(tsNs)[4] == '-'
  {
    hide CivilFromDays, DaysFromCivil, ReadRfc3339, Format;
    PrintedYears(tsNs);
    var secs := tsNs / NANOS_PER_SEC;
    var sod := secs % 86_400;
    CivilFromDaysCorrect(secs / 86_400);
    var date := CivilFromDays(secs / 86_400);
    var h, mi, sec := sod / 3_600, (sod % 3_600) / 60, sod % 60;
    assert sod == h * 3_600 + mi * 60 + sec;
    FormatReadsBack(date, h, mi, sec);
    FormatLayout(date.year, date.month, date.day, h, mi, sec);
  }

  // ----- Lexicographic order -----

  predicate LexLess(a: string, b: string) {
    b != [] && (a == [] || a[0] < b[0] || (a[0] == b[0] && LexLess(a[1..], b[1..])))
  }

  lemma {:induction false} ValueFromLeft(s: string)
    requires s != [] && AllDigits(s, 10)
    ensures Value(s, 10) == DigitValue(s[0]) * Pow(10, |s| - 1) + Value(s[1..], 10)
    ensures Value(s[1..], 10) < Pow(10, |s| - 1)
    decreases |s|
  {
    if |s| == 1 {
      assert s[..0] == [] && s[1..] == [];
    } else {
      var n := |s| - 1;
      var p, q := s[..n], s[1..];
      ValueFromLeft(p);
      assert q[..n - 1] == p[1..] && q[n - 1] == s[n];
      ValueStep(s);
      ValueStep(q);
      hide Value, Pow, AllDigits;
      PowStep(10, n - 1);
      ShiftDigits(DigitValue(s[0]), Pow(10, n - 1), Value(p[1..], 10), DigitValue(s[n]));
    }
  }

  lemma ValueStep(s: string)
    requires s != [] && AllDigits(s, 10)
    ensures AllDigits(s[..|s| - 1], 10)
    ensures Value(s, 10) == Value(s[..|s| - 1], 10) * 10 + DigitValue(s[|s| - 1])
  {
  }

  lemma ShiftDigits(d: nat, p: nat, v: nat, e: nat)
    ensures (d * p + v) * 10 + e == d * (10 * p) + (v * 10 + e)
  {
  }

  /** Equal-width digit strings in front of `s` and `t` compare by the numbers they denote. */
  lemma {:induction false} DigitsDecideOrder(a: string, b: string, s: string, t: string)
    requires |a| == |b| && AllDigits(a, 10) && AllDigits(b, 10)
    ensures LexLess(a + s, b + t) <==>
            Value(a, 10) < Value(b, 10) || (Value(a, 10) == Value(b, 10) && LexLess(s, t))
    decreases |a|
  {
    if a == [] {
      assert a + s == s && b + t == t;
    } else {
      hide Value, Pow, LexLess;
      DigitsDecideOrder(a[1..], b[1..], s, t);
      LexHead(a + s, b + t);
      assert (a + s)[1..] == a[1..] + s && (b + t)[1..] == b[1..] + t;
      ValueFromLeft(a);
      ValueFromLeft(b);
      var p := Pow(10, |a| - 1);
      PlaceValue(DigitValue(a[0]), DigitValue(b[0]), p, Value(a[1..], 10), Value(b[1..], 10));
      PlaceValue(DigitValue(b[0]), DigitValue(a[0]), p, Value(b[1..], 10), Value(a[1..], 10));
    }
  }

  lemma LexHead(a: string, b: string)
    requires a != [] && b != []
    ensures LexLess(a, b) <==> a[0] < b[0] || (a[0] == b[0] && LexLess(a[1..], b[1..]))
  {
  }

  lemma PlaceValue(x: nat, y: nat, p: nat, u: nat, v: nat)
    requires u < p && v < p
    ensures x < y ==> x * p + u < y * p + v
    ensures x == y ==> x * p + u - (y * p + v) == u - v
  {
    if x < y {
      assert (x + 1) * p <= y * p;
    }
  }

  lemma FieldDecidesOrder(m: nat, n: nat, width: nat, sep: char, s: string, t: string)
    requires width >= 1 && m < Pow(10, width) && n < Pow(10, width)
    ensures LexLess(Padded(m, width) + ([sep] + s), Padded(n, width) + ([sep] + t)) <==>
            m < n || (m == n && LexLess(s, t))
  {
    PaddedDenotes(m, width);
    PaddedDenotes(n, width);
    DigitsDecideOrder(Padded(m, width), Padded(n, width), [sep] + s, [sep] + t);
    assert ([sep] + s)[1..] == s && ([sep] + t)[1..] == t;
  }

  /** `Format`, bracketed to the right so that its fields can be compared one after another. */
  lemma FormatFromRight(y: nat, mo: nat, d: nat, h: nat, mi: nat, sec: nat)
    ensures Format(y, mo, d, h, mi, sec) ==
            Padded(y, 4) + (['-'] + (Padded(mo, 2) + (['-'] + (Padded(d, 2) + (['T'] +
            (Padded(h, 2) + ([':'] + (Padded(mi, 2) + ([':'] + (Padded(sec, 2) + (['Z'] + [])))))))))))
  {
    hide Padded;
    var r6 := Padded(sec, 2) + (['Z'] + []);
    var r5 := Padded(mi, 2) + ([':'] + r6);
    var r4 := Padded(h, 2) + ([':'] + r5);
    var r3 := Padded(d, 2) + (['T'] + r4);
    var p2 := Padded(y, 4) + "-" + Padded(mo, 2);
    var p3 := p2 + "-" + Padded(d, 2);
    var p4 := p3 + "T" + Padded(h, 2);
    var p5 := p4 + ":" + Padded(mi, 2);
    assert p5 + ":" + Padded(sec, 2) + "Z" == p5 + ([':'] + r6);
    MoveBracket(p4, ":", Padded(mi, 2), [':'] + r6);
    MoveBracket(p3, "T", Padded(h, 2), [':'] + r5);
    MoveBracket(p2, "-", Padded(d, 2), ['T'] + r4);
    MoveBracket(Padded(y, 4), "-", Padded(mo, 2), ['-'] + r3);
  }

  lemma MoveBracket(a: string, b: string, c: string, d: string)
    ensures (a + b + c) + d == a + (b + (c + d))
  {
  }

  lemma FormatOrder(a: Date, h: nat, mi: nat, sec: nat, b: Date, h': nat, mi': nat, sec': nat)
    requires 0 <= a.year < 10_000 && 0 <= a.month < 100 && 0 <= a.day < 100 && h < 100 && mi < 100 && sec < 100
    requires 0 <= b.year < 10_000 && 0 <= b.month < 100 && 0 <= b.day < 100 && h' < 100 && mi' < 100 && sec' < 100
    ensures LexLess(Format(a.year, a.month, a.day, h, mi, sec), Format(b.year, b.month, b.day, h', mi', sec')) <==>
            Before(a, b) || (a == b && (h < h' || (h == h' && (mi < mi' || (mi == mi' && sec < sec')))))
  {
    PowValues();
    FormatFromRight(a.year, a.month, a.day, h, mi, sec);
    FormatFromRight(b.year, b.month, b.day, h', mi', sec');
    var s6, t6 := Padded(sec, 2) + (['Z'] + []), Padded(sec', 2) + (['Z'] + []);
    FieldDecidesOrder(sec, sec', 2, 'Z', [], []);
    var s5, t5 := Padded(mi, 2) + ([':'] + s6), Padded(mi', 2) + ([':'] + t6);
    FieldDecidesOrder(mi, mi', 2, ':', s6, t6);
    var s4, t4 := Padded(h, 2) + ([':'] + s5), Padded(h', 2) + ([':'] + t5);
    FieldDecidesOrder(h, h', 2, ':', s5, t5);
    var s3, t3 := Padded(a.day, 2) + (['T'] + s4), Padded(b.day, 2) + (['T'] + t4);
    FieldDecidesOrder(a.day, b.day, 2, 'T', s4, t4);
    var s2, t2 := Padded(a.month, 2) + (['-'] + s3), Padded(b.month, 2) + (['-'] + t3);
    FieldDecidesOrder(a.month, b.month, 2, '-', s3, t3);
    FieldDecidesOrder(a.year, b.year, 4, '-', s2, t2);
  }

  lemma TimeFields(x: nat)
    requires x < 86_400
    ensures x == x / 3_600 * 3_600 + (x % 3_600) / 60 * 60 + x % 60
    ensures x / 3_600 < 24 && (x % 3_600) / 60 < 60
  {
  }

  /** Days, hours, minutes and seconds compare from the left. */
  lemma TimeOrder(p: nat, q: nat)
    ensures var x, y := p % 86_400, q % 86_400;
            p < q <==>
            p / 86_400 < q / 86_400 ||
            (p / 86_400 == q / 86_400 &&
             (x / 3_600 < y / 3_600 ||
              (x / 3_600 == y / 3_600 &&
               ((x % 3_600) / 60 < (y % 3_600) / 60 || ((x % 3_600) / 60 == (y % 3_600) / 60 && x % 60 < y % 60)))))
  {
    var x, y := p % 86_400, q % 86_400;
    TimeFields(x);
    TimeFields(y);
    FieldsOrder(p / 86_400, x / 3_600, (x % 3_600) / 60, x % 60, q / 86_400, y / 3_600, (y % 3_600) / 60, y % 60);
  }

  lemma FieldsOrder(d: nat, h: nat, m: nat, s: nat, d': nat, h': nat, m': nat, s': nat)
    requires h < 24 && m < 60 && s < 60 && h' < 24 && m' < 60 && s' < 60
    ensures d * 86_400 + (h * 3_600 + m * 60 + s) < d' * 86_400 + (h' * 3_600 + m' * 60 + s') <==>
            d < d' || (d == d' && (h < h' || (h == h' && (m < m' || (m == m' && s < s')))))
  {
  }

  /** Comparing printed timestamps as strings is comparing the whole seconds they stand for. */
  lemma PrintedOrderIsTimeOrder(s: nat, t: nat)
    requires s < TWO_64 && t < TWO_64
    ensures LexLess(ToRfc3339(s), ToRfc3339(t)) <==> s / 1_000_000_000 < t / 1_000_000_000
  {
    hide CivilFromDays, Format, LexLess, DaysFromCivil;
    PrintedYears(s);
    PrintedYears(t);
    SecondsOrder(s / NANOS_PER_SEC, t / NANOS_PER_SEC);
  }

  lemma SecondsOrder(p: nat, q: nat)
    requires 0 <= CivilFromDays(p / 86_400).year < 10_000 && 0 <= CivilFromDays(q / 86_400).year < 10_000
    ensures var a, b, x, y := CivilFromDays(p / 86_400), CivilFromDays(q / 86_400), p % 86_400, q % 86_400;
            0 <= a.month && 0 <= a.day && 0 <= b.month && 0 <= b.day &&
            var s, t := Format(a.year, a.month, a.day, x / 3_600, (x % 3_600) / 60, x % 60),
                        Format(b.year, b.month, b.day, y / 3_600, (y % 3_600) / 60, y % 60);
            (LexLess(s, t) <==> p < q)
  {
    hide CivilFromDays, Format, LexLess, DaysFromCivil, Before;
    var a, b, x, y := CivilFromDays(p / 86_400), CivilFromDays(q / 86_400), p % 86_400, q % 86_400;
    CivilFromDaysCorrect(p / 86_400);
    CivilFromDaysCorrect(q / 86_400);
    CivilFromDaysIsMonotone(p / 86_400, q / 86_400);
    TimeOrder(p, q);
    TimeFields(x);
    TimeFields(y);
    FormatOrder(a, x / 3_600, (x % 3_600) / 60, x % 60, b, y / 3_600, (y % 3_600) / 60, y % 60);
    SameDate(p / 86_400, q / 86_400);
  }

  lemma SameDate(m: int, n: int)
    ensures CivilFromDays(m) == CivilFromDays(n) <==> m == n
  {
    hide CivilFromDays, DaysFromCivil;
    CivilFromDaysCorrect(m);
    CivilFromDaysCorrect(n);
  }
}
