/** Which texts the standard library reads as addresses and prefix lengths, and what they denote. */
module Addresses {
  import opened Options
  import opened Arithmetic
  import opened Positional
  import opened Numerals
  import opened Glob
  import opened Network
  import opened HostRules
  import Paths

  // ----- IPv4 -----

  /** The texts that are IPv4 addresses: four numerals below 256, without leading zeros, between dots. */
  lemma V4TextExactly(s: string, bits: nat)
    ensures ReadV4(s) == Some(bits) <==>
            exists o | ValidOctets(o) :: bits == FromDigits(o, 8) &&
              s == Decimal(o[0]) + "." + Decimal(o[1]) + "." + Decimal(o[2]) + "." + Decimal(o[3])
  {
    hide FromOctets, FromDigits, Numeral, Pow, ReadV4;
    if ReadV4(s) == Some(bits) {
      var o := OctetsOf(s);
      V4TextIsPrinted(s, o);
      Dotted(o);
      OctetsAreDigits(o);
    }
    if o :| ValidOctets(o) && bits == FromDigits(o, 8) &&
            s == Decimal(o[0]) + "." + Decimal(o[1]) + "." + Decimal(o[2]) + "." + Decimal(o[3]) {
      Dotted(o);
      OctetsAreDigits(o);
      PrintedV4Reads(o);
    }
  }

  lemma OctetsOf(s: string) returns (o: seq<nat>)
    requires ReadV4(s).Some?
    ensures ValidOctets(o) && ReadV4(s) == Some(FromOctets(o))
  {
    hide FromOctets, Split, Value;
    var segs := Split(s, '.');
    o := [ReadOctet(segs[0]).value, ReadOctet(segs[1]).value, ReadOctet(segs[2]).value, ReadOctet(segs[3]).value];
  }

  lemma Dotted(o: seq<nat>)
    requires |o| == 4
    ensures PrintV4(o) == Decimal(o[0]) + "." + Decimal(o[1]) + "." + Decimal(o[2]) + "." + Decimal(o[3])
  {
    hide Numeral;
    var segs := Printed(o, 10);
    JoinTwo(segs);
    JoinTwo(segs[1..]);
    JoinTwo(segs[2..]);
    assert segs[1..][1..] == segs[2..] && segs[2..][1..] == segs[3..] && Join(segs[3..], '.') == segs[3];
  }

  lemma JoinTwo(segs: seq<string>)
    requires |segs| >= 2
    ensures Join(segs, '.') == segs[0] + "." + Join(segs[1..], '.')
  {
  }

  lemma PrintedV4Reads(o: seq<nat>)
    requires ValidOctets(o)
    ensures ReadV4(PrintV4(o)) == Some(FromOctets(o))
  {
    hide ReadV4, ReadV6, PrintV4, FromOctets, Pow;
    PrintedV4ReadsBack(o);
  }

  // ----- IPv6 -----

  const HEX := "0123456789abcdef"

  /** A group: one to four hexadecimal digits in lower case, with the digits' values. */
  ghost predicate IsGroup(text: string, digits: seq<nat>) {
    1 <= |text| == |digits| <= 4 && forall i | 0 <= i < |text| :: digits[i] < 16 && text[i] == HEX[digits[i]]
  }

  lemma GroupDigits(text: string) returns (digits: seq<nat>)
    requires 1 <= |text| <= 4 && AllDigits(text, 16)
    ensures IsGroup(text, digits)
  {
    digits := seq(|text|, i requires 0 <= i < |text| => DigitValue(text[i]));
  }

  lemma HexDigit(c: char, d: nat)
    requires d < 16 && c == HEX[d]
    ensures IsDigit(c, 16) && DigitValue(c) == d
  {
  }

  lemma {:induction false} GroupValue(text: string, digits: seq<nat>)
    requires |text| == |digits| && forall i | 0 <= i < |text| :: digits[i] < 16 && text[i] == HEX[digits[i]]
    ensures AllDigits(text, 16) && Value(text, 16) == FromDigits(digits, 4)
    decreases |text|
  {
    hide Pow, IsDigit, DigitValue, HEX;
    assert Pow(2, 4) == 16 by { HexBase(); }
    forall i | 0 <= i < |text| ensures IsDigit(text[i], 16) && DigitValue(text[i]) == digits[i] {
      HexDigit(text[i], digits[i]);
    }
    if text != [] {
      GroupValue(text[..|text| - 1], digits[..|text| - 1]);
    }
  }

  lemma HexBase()
    ensures Pow(2, 4) == 16
  {
  }

  /** These texts denote these 16-bit groups, one each; a last one that is an IPv4 address denotes two. */
  ghost predicate Denote(texts: seq<string>, groups: seq<nat>, v4Allowed: bool) {
    if texts == [] then groups == []
    else if v4Allowed && |texts| == 1 && '.' in texts[0] then
      exists bits :: ReadV4(texts[0]) == Some(bits) && groups == [bits / 0x1_0000, bits % 0x1_0000]
    else groups != [] && (exists digits :: IsGroup(texts[0], digits) && groups[0] == FromDigits(digits, 4)) &&
         Denote(texts[1..], groups[1..], v4Allowed)
  }

  lemma GroupReads(text: string, group: nat)
    ensures 1 <= |text| <= 4 && AllDigits(text, 16) && group == Value(text, 16) <==>
            exists digits :: IsGroup(text, digits) && group == FromDigits(digits, 4)
  {
    hide FromDigits, Value;
    if 1 <= |text| <= 4 && AllDigits(text, 16) && group == Value(text, 16) {
      var digits := GroupDigits(text);
      GroupValue(text, digits);
    }
    if digits :| IsGroup(text, digits) && group == FromDigits(digits, 4) {
      GroupValue(text, digits);
    }
  }

  lemma V4HasDot(text: string)
    requires ReadV4(text).Some?
    ensures '.' in text && ':' !in text
  {
    hide ReadOctet, FromOctets;
    if '.' !in text {
      SplitOneSegment(text, '.');
    }
    if ':' in text {
      V4HasNoForeign(text, ':');
    }
  }

  lemma {:induction false} ReadGroupsExactly(texts: seq<string>, groups: seq<nat>, v4Allowed: bool)
    ensures ReadGroups(texts, v4Allowed) == Some(groups) <==> Denote(texts, groups, v4Allowed)
    decreases |texts|
  {
    hide ReadV4, Value, FromDigits, IsGroup, AllDigits;
    if texts != [] {
      var text := texts[0];
      if '.' in text {
        DotIsNoDigit(text);
      } else if ReadV4(text).Some? {
        V4HasDot(text);
      }
      if groups != [] {
        GroupReads(text, groups[0]);
        ReadGroupsExactly(texts[1..], groups[1..], v4Allowed);
        forall rest: seq<nat> ensures [groups[0]] + rest == groups <==> rest == groups[1..] {
          assert groups == [groups[0]] + groups[1..];
          assert ([groups[0]] + rest)[1..] == rest;
        }
      }
    }
  }

  lemma DotIsNoDigit(text: string)
    requires '.' in text
    ensures !AllDigits(text, 16)
  {
  }

  /** Nothing between two colons is written as nothing. */
  function Text(texts: seq<string>): string {
    if texts == [] then "" else Join(texts, ':')
  }

  /** Eight groups between colons. */
  ghost predicate IsPlainV6(s: string, groups: seq<nat>, texts: seq<string>) {
    texts != [] && s == Text(texts) && Denote(texts, groups, true) && |groups| == 8
  }

  /** At most seven groups around one `::`, which stands for the missing zeros. */
  ghost predicate IsGappedV6(s: string, groups: seq<nat>, head: seq<string>, tail: seq<string>,
                             before: seq<nat>, after: seq<nat>)
  {
    s == Text(head) + "::" + Text(tail) && Denote(head, before, false) && Denote(tail, after, true) &&
    |before| + |after| <= 7 && groups == before + seq(8 - |before| - |after|, _ => 0) + after
  }

  ghost predicate IsV6(s: string, groups: seq<nat>) {
    (exists texts :: IsPlainV6(s, groups, texts)) ||
    (exists head, tail, before, after :: IsGappedV6(s, groups, head, tail, before, after))
  }

  // ----- The first `::` -----

  /** No `::` inside and no colon at the end, so that a `::` put behind is the first one. */
  predicate NoGap(s: string) {
    (s != [] ==> s[|s| - 1] != ':') && forall i | 0 <= i < |s| - 1 :: !(s[i] == ':' && s[i + 1] == ':')
  }

  lemma {:induction false} FirstDoubleColon(s: string, t: string)
    requires NoGap(s)
    ensures FindDoubleColon(s + "::" + t) == Some(|s|)
    decreases |s|
  {
    var all := s + "::" + t;
    if s != [] {
      assert !(all[0] == ':' && all[1] == ':') by {
        assert all[0] == s[0];
        if |s| > 1 {
          assert all[1] == s[1] && !(s[0] == ':' && s[0 + 1] == ':');
        }
      }
      assert NoGap(s[1..]) by {
        forall i | 0 <= i < |s[1..]| - 1 ensures !(s[1..][i] == ':' && s[1..][i + 1] == ':') {
          assert !(s[i + 1] == ':' && s[i + 1 + 1] == ':');
        }
      }
      FirstDoubleColon(s[1..], t);
      assert all[1..] == s[1..] + "::" + t;
    }
  }

  ghost predicate Clean(texts: seq<string>) {
    forall text | text in texts :: text != "" && ':' !in text && NoCapitals(text)
  }

  predicate NoCapitals(s: string) {
    forall i | 0 <= i < |s| :: !('A' <= s[i] <= 'Z')
  }

  lemma V4HasNoCapitals(text: string)
    requires ReadV4(text).Some?
    ensures NoCapitals(text)
  {
    hide ReadV4;
    forall i | 0 <= i < |text| ensures !('A' <= text[i] <= 'Z') {
      if 'A' <= text[i] <= 'Z' {
        V4HasNoForeign(text, text[i]);
      }
    }
  }

  lemma GroupIsClean(text: string, digits: seq<nat>)
    requires IsGroup(text, digits)
    ensures text != "" && ':' !in text && NoCapitals(text)
  {
  }

  lemma {:induction false} DenoteIsClean(texts: seq<string>, groups: seq<nat>, v4Allowed: bool)
    requires Denote(texts, groups, v4Allowed)
    ensures Clean(texts)
    decreases |texts|
  {
    hide ReadV4, FromDigits, IsGroup, NoCapitals;
    if texts != [] {
      var text := texts[0];
      if v4Allowed && |texts| == 1 && '.' in text {
        V4HasDot(text);
        V4HasNoCapitals(text);
      } else {
        var digits :| IsGroup(text, digits);
        GroupIsClean(text, digits);
        DenoteIsClean(texts[1..], groups[1..], v4Allowed);
        assert texts == [text] + texts[1..];
      }
    }
  }

  lemma {:induction false} JoinedHasNoGap(texts: seq<string>)
    requires Clean(texts) && texts != []
    ensures var s := Join(texts, ':'); s != "" && s[0] != ':' && NoGap(s) && NoCapitals(s)
    decreases |texts|
  {
    var s, text := Join(texts, ':'), texts[0];
    assert text in texts;
    if |texts| > 1 {
      JoinedHasNoGap(texts[1..]);
      var rest := Join(texts[1..], ':');
      assert s == text + [':'] + rest;
      forall i | 0 <= i < |s| - 1 ensures !(s[i] == ':' && s[i + 1] == ':') {
        if i < |text| {
          assert s[i] == text[i];
        } else if i == |text| {
          assert s[i + 1] == rest[0];
        } else {
          var j := i - |text| - 1;
          assert s[i] == rest[j] && s[i + 1] == rest[j + 1];
        }
      }
    }
  }

  lemma NoGapNoDoubleColon(s: string)
    requires NoGap(s)
    ensures FindDoubleColon(s) == None
  {
    DoubleColonFound(s);
  }

  lemma TextSplits(texts: seq<string>)
    requires Clean(texts)
    ensures NoCapitals(Text(texts)) && NoGap(Text(texts))
    ensures Segments(Text(texts)) == texts && (texts != [] ==> Split(Text(texts), ':') == texts)
  {
    if texts != [] {
      JoinedHasNoGap(texts);
      SplitJoin(texts, ':');
    }
  }

  lemma SegmentsJoin(s: string)
    ensures Text(Segments(s)) == s && Text(Split(s, ':')) == s
  {
    JoinSplit(s, ':');
  }

  lemma PlainV6Reads(s: string, groups: seq<nat>, texts: seq<string>)
    requires IsPlainV6(s, groups, texts)
    ensures ReadV6(s) == Some(FromGroups(groups))
  {
    hide FromGroups, ReadGroups, Denote, Text, NoGap;
    DenoteIsClean(texts, groups, true);
    TextSplits(texts);
    NoGapNoDoubleColon(s);
    ReadGroupsExactly(texts, groups, true);
  }

  lemma GappedV6Reads(s: string, groups: seq<nat>, head: seq<string>, tail: seq<string>,
                      before: seq<nat>, after: seq<nat>)
    requires IsGappedV6(s, groups, head, tail, before, after)
    ensures ReadV6(s) == Some(FromGroups(groups))
  {
    hide FromGroups, ReadGroups, Denote, Text, NoGap, Segments;
    DenoteIsClean(head, before, false);
    DenoteIsClean(tail, after, true);
    TextSplits(head);
    TextSplits(tail);
    FirstDoubleColon(Text(head), Text(tail));
    ReadGroupsExactly(head, before, false);
    ReadGroupsExactly(tail, after, true);
    assert s[..|Text(head)|] == Text(head) && s[|Text(head)| + 2..] == Text(tail);
  }

  lemma PlainV6Parts(s: string) returns (groups: seq<nat>)
    requires ReadV6(s).Some? && FindDoubleColon(s) == None
    ensures IsPlainV6(s, groups, Split(s, ':')) && ReadV6(s) == Some(FromGroups(groups))
  {
    hide FromGroups, ReadGroups, Denote, Text, Segments, Split;
    SegmentsJoin(s);
    groups := ReadGroups(Split(s, ':'), true).value;
    ReadGroupsExactly(Split(s, ':'), groups, true);
  }

  lemma GappedV6Parts(s: string)
    returns (groups: seq<nat>, head: seq<string>, tail: seq<string>, before: seq<nat>, after: seq<nat>)
    requires ReadV6(s).Some? && FindDoubleColon(s).Some?
    ensures IsGappedV6(s, groups, head, tail, before, after) && ReadV6(s) == Some(FromGroups(groups))
  {
    hide FromGroups, ReadGroups, Denote, Text, Segments, FindDoubleColon;
    DoubleColonFound(s);
    var i := FindDoubleColon(s).value;
    head, tail := Segments(s[..i]), Segments(s[i + 2..]);
    before, after := ReadGroups(head, false).value, ReadGroups(tail, true).value;
    groups := before + seq(8 - |before| - |after|, _ => 0) + after;
    ReadGroupsExactly(head, before, false);
    ReadGroupsExactly(tail, after, true);
    SegmentsJoin(s[..i]);
    SegmentsJoin(s[i + 2..]);
    assert s == s[..i] + "::" + s[i + 2..];
  }

  /** The texts that are IPv6 addresses, in lower case. */
  lemma V6TextExactly(s: string, bits: nat)
    ensures ReadV6(s) == Some(bits) <==> exists groups :: IsV6(s, groups) && bits == FromDigits(groups, 16)
  {
    hide ReadV6, FromGroups, FromDigits, IsPlainV6, IsGappedV6;
    if ReadV6(s) == Some(bits) {
      if FindDoubleColon(s) == None {
        var groups := PlainV6Parts(s);
        GroupsAreDigits(groups);
        assert IsV6(s, groups);
      } else {
        var groups, head, tail, before, after := GappedV6Parts(s);
        GroupsAreDigits(groups);
        assert IsV6(s, groups);
      }
    }
    if groups :| IsV6(s, groups) && bits == FromDigits(groups, 16) {
      V6Reads(s, groups);
      GroupsAreDigits(groups);
    }
  }

  lemma V6Reads(s: string, groups: seq<nat>)
    requires IsV6(s, groups)
    ensures ReadV6(s) == Some(FromGroups(groups))
  {
    hide ReadV6, FromGroups, IsPlainV6, IsGappedV6;
    if texts :| IsPlainV6(s, groups, texts) {
      PlainV6Reads(s, groups, texts);
    } else {
      var head, tail, before, after :| IsGappedV6(s, groups, head, tail, before, after);
      GappedV6Reads(s, groups, head, tail, before, after);
    }
  }

  // ----- Either family, in either case -----

  lemma V4HasNoLetters(s: string, t: string)
    requires Paths.SameLetters(s, t) && ReadV4(s).Some?
    ensures s == t
  {
    hide ReadV4;
    forall i | 0 <= i < |s| ensures s[i] == t[i] {
      if s[i] != t[i] {
        assert s[i] in s;
        V4HasNoForeign(s, s[i]);
      }
    }
  }

  /** Addresses are read the same in either case of their letters. */
  lemma AddressCaseIgnored(s: string, t: string)
    requires Paths.SameLetters(s, t)
    ensures ReadIp(s) == ReadIp(t)
  {
    hide ReadV4, ReadV6, Paths.Lower;
    Paths.LowerIsSameLetters(s, t);
    if ReadV4(s).Some? {
      V4HasNoLetters(s, t);
    } else if ReadV4(t).Some? {
      assert Paths.SameLetters(t, s);
      V4HasNoLetters(t, s);
    }
  }

  // ----- Prefix lengths -----

  function Zeros(n: nat): string {
    seq(n, _ => '0')
  }

  lemma {:induction false} ZerosInFront(s: string) returns (n: nat)
    requires s != [] && AllDigits(s, 10)
    ensures s == Zeros(n) + Decimal(Value(s, 10))
    decreases |s|
  {
    hide Numeral, Value;
    if |s| == 1 || s[0] != '0' {
      NumeralOfValue(s, 10);
      n := 0;
      assert Zeros(0) + s == s;
    } else {
      var k := ZerosInFront(s[1..]);
      LeadingZeros(1, s[1..]);
      n := k + 1;
      assert s == seq(1, _ => '0') + s[1..];
      assert Zeros(n) == seq(1, _ => '0') + Zeros(k);
    }
  }

  /** The texts that are prefix lengths: below 256, with any zeros and one plus sign allowed in front. */
  lemma PrefixTextExactly(s: string, p: nat)
    ensures ReadU8(s) == Some(p) <==>
            p < 256 && exists n: nat :: s == Zeros(n) + Decimal(p) || s == "+" + (Zeros(n) + Decimal(p))
  {
    hide Numeral, Value, Zeros, AllDigits;
    if ReadU8(s) == Some(p) {
      var sign := if s[0] == '+' then "+" else "";
      var digits := s[|sign|..];
      var n := ZerosInFront(digits);
      assert s == sign + digits;
    }
    if p < 256 {
      if n: nat :| s == Zeros(n) + Decimal(p) || s == "+" + (Zeros(n) + Decimal(p)) {
        ZerosDenote(n, p);
        assert s[0] == '+' ==> s[1..] == Zeros(n) + Decimal(p);
      }
    }
  }

  lemma ZerosDenote(n: nat, p: nat)
    ensures var digits := Zeros(n) + Decimal(p);
            digits != [] && digits[0] != '+' && AllDigits(digits, 10) && Value(digits, 10) == p
  {
    hide Numeral, Value;
    NumeralDenotes(p, 10);
    LeadingZeros(n, Decimal(p));
    assert IsDigit((Zeros(n) + Decimal(p))[0], 10);
  }
}
