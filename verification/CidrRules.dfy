/** CIDR rules as an operator writes them, against destinations as text. */
module CidrRules {
  import opened Options
  import opened Arithmetic
  import opened Positional
  import opened Numerals
  import opened Bits
  import opened Glob
  import opened GlobLaws
  import opened Network
  import opened HostRules
  import opened Addresses
  import Paths

  // ----- Texts of addresses -----

  ghost predicate WritesV4(s: string, octets: seq<nat>) {
    ValidOctets(octets) &&
    s == Decimal(octets[0]) + "." + Decimal(octets[1]) + "." + Decimal(octets[2]) + "." + Decimal(octets[3])
  }

  /** In either case of the letters. */
  ghost predicate WritesV6(s: string, groups: seq<nat>) {
    exists t :: Paths.SameLetters(s, t) && IsV6(t, groups)
  }

  lemma V4Denoted(s: string, octets: seq<nat>)
    requires WritesV4(s, octets)
    ensures ReadIp(s) == Some(V4(FromDigits(octets, 8)))
  {
    hide ReadV4, ReadV6, FromDigits, Numeral;
    V4TextExactly(s, FromDigits(octets, 8));
  }

  lemma DenoteIsSmall(texts: seq<string>, groups: seq<nat>, v4Allowed: bool)
    requires Denote(texts, groups, v4Allowed)
    ensures SmallGroups(groups)
  {
    hide Denote, ReadGroups;
    ReadGroupsExactly(texts, groups, v4Allowed);
    ReadGroupsBounded(texts, v4Allowed);
  }

  lemma GappedIsSmall(s: string, groups: seq<nat>, head: seq<string>, tail: seq<string>,
                       before: seq<nat>, after: seq<nat>)
    requires IsGappedV6(s, groups, head, tail, before, after)
    ensures ValidGroups(groups)
  {
    hide Denote, Text;
    DenoteIsSmall(head, before, false);
    DenoteIsSmall(tail, after, true);
    ZeroFilledIsSmall(before, after);
  }

  lemma V6IsValid(s: string, groups: seq<nat>)
    requires IsV6(s, groups)
    ensures ValidGroups(groups) && NoCapitals(s) && ':' in s
  {
    hide IsPlainV6, IsGappedV6, SmallGroups;
    if texts :| IsPlainV6(s, groups, texts) {
      PlainIsValid(s, groups, texts);
    } else {
      var head, tail, before, after :| IsGappedV6(s, groups, head, tail, before, after);
      GappedIsSmall(s, groups, head, tail, before, after);
      GappedChars(s, groups, head, tail, before, after);
    }
  }

  lemma PlainIsValid(s: string, groups: seq<nat>, texts: seq<string>)
    requires IsPlainV6(s, groups, texts)
    ensures ValidGroups(groups) && NoCapitals(s) && ':' in s
  {
    hide IsGroup, ReadV4, SmallGroups, NoGap, NoCapitals, Clean;
    DenoteIsSmall(texts, groups, true);
    DenoteIsClean(texts, groups, true);
    TextSplits(texts);
    if |texts| > 1 {
      assert s == texts[0] + [':'] + Join(texts[1..], ':');
      assert s[|texts[0]|] == ':';
    }
  }

  lemma GappedChars(s: string, groups: seq<nat>, head: seq<string>, tail: seq<string>,
                       before: seq<nat>, after: seq<nat>)
    requires IsGappedV6(s, groups, head, tail, before, after)
    ensures NoCapitals(s) && ':' in s
  {
    hide Denote, Text, NoGap, Clean, Segments, Split;
    DenoteIsClean(head, before, false);
    DenoteIsClean(tail, after, true);
    TextSplits(head);
    TextSplits(tail);
    assert s[|Text(head)|] == ':';
  }

  lemma V6Denoted(s: string, groups: seq<nat>)
    requires WritesV6(s, groups)
    ensures ValidGroups(groups) && ReadIp(s) == Some(V6(FromDigits(groups, 16)))
  {
    hide ReadV4, ReadV6, IsV6, FromDigits, FromGroups, SmallGroups;
    var t :| Paths.SameLetters(s, t) && IsV6(t, groups);
    V6IsValid(t, groups);
    assert Paths.Lower(t) == t;
    if ReadV4(t).Some? {
      V4HasDot(t);
    }
    V6TextExactly(t, FromDigits(groups, 16));
    AddressCaseIgnored(s, t);
  }

  // ----- The text of a rule -----

  lemma {:induction false} SlashSplits(a: string, b: string)
    requires '/' !in a
    ensures SplitOnce(a + "/" + b, '/') == Some((a, b))
  {
    var s := a + "/" + b;
    if a == [] {
      assert s[1..] == b;
    } else {
      assert a[0] in a && s[0] == a[0] && s[1..] == a[1..] + "/" + b;
      SlashSplits(a[1..], b);
      assert [a[0]] + a[1..] == a;
    }
  }

  lemma PrefixReads(p: nat)
    ensures ReadU8(Decimal(p)) == if p < 256 then Some(p) else None
    ensures Literal(Decimal(p))
  {
    hide Numeral, Value;
    NumeralDenotes(p, 10);
    assert IsDigit(Decimal(p)[0], 10);
  }

  /** With a prefix length too long for a byte the rule is read as a pattern, which holds of no address. */
  lemma OverlongPrefix(network: string, destination: string, p: nat)
    requires ReadIp(network).Some? && ReadIp(destination).Some? && p >= 256
    ensures !DestinationMatches(network + "/" + Decimal(p), destination)
  {
    hide ReadIp, ReadU8, Matches, MaskedEqual, Numeral, Decimal, SplitOnce;
    AddressIsLiteral(network);
    AddressIsLiteral(destination);
    SlashSplits(network, Decimal(p));
    PrefixReads(p);
    var rule := network + "/" + Decimal(p);
    assert rule[|network|] == '/';
    LiteralPatternMatchesItself(rule, destination);
  }

  lemma WrittenRuleIsBlock(network: string, destination: string, p: nat)
    requires ReadIp(network).Some? && ReadIp(destination).Some?
    ensures DestinationMatches(network + "/" + Decimal(p), destination) <==>
            InBlock(ReadIp(network).value, p, ReadIp(destination).value)
  {
    hide ReadIp, ReadU8, DestinationMatches, LeadingBitsAgree, Numeral, Decimal, SplitOnce;
    if p < 256 {
      AddressIsLiteral(network);
      SlashSplits(network, Decimal(p));
      PrefixReads(p);
      CidrIsBlockMembership(network + "/" + Decimal(p), destination, network, Decimal(p));
    } else {
      OverlongPrefix(network, destination, p);
    }
  }

  // ----- What the rule says -----

  lemma SameBlock(n: seq<nat>, a: seq<nat>, b: nat, p: nat, width: nat)
    requires b >= 1 && |n| == |a| && Digits(n, b) && Digits(a, b) && width == b * |n| && p <= width
    ensures LeadingBitsAgree(FromDigits(n, b), FromDigits(a, b), p, width) <==> FirstBitsAgree(n, a, b, p)
  {
    hide FromDigits, Pow, Digits, Quotient, LeadingBitsAgree, FirstBitsAgree;
    DigitsBounded(n, b);
    DigitsBounded(a, b);
    LeadingBitsAreQuotients(FromDigits(n, b), FromDigits(a, b), p, width);
    FirstBitsAreQuotients(n, a, b, p);
  }

  /** The rule `a.b.c.d/p` holds of the addresses whose first `p` bits are those of `a.b.c.d`. */
  lemma WrittenV4Rule(network: string, n: seq<nat>, destination: string, a: seq<nat>, p: nat)
    requires WritesV4(network, n) && WritesV4(destination, a)
    ensures DestinationMatches(network + "/" + Decimal(p), destination) <==> p <= 32 && FirstBitsAgree(n, a, 8, p)
  {
    hide DestinationMatches, FirstBitsAgree, LeadingBitsAgree, WritesV4, FromDigits, ReadIp, Numeral, Decimal;
    V4Denoted(network, n);
    V4Denoted(destination, a);
    WrittenRuleIsBlock(network, destination, p);
    OctetsAreSmall(network, n);
    OctetsAreSmall(destination, a);
    if p <= 32 {
      SameBlock(n, a, 8, p, 32);
    }
  }

  lemma OctetsAreSmall(s: string, octets: seq<nat>)
    requires WritesV4(s, octets)
    ensures |octets| == 4 && Digits(octets, 8)
  {
    assert Pow(2, 8) == 0x100;
  }

  /** The same for IPv6, in whatever form the two addresses are written. */
  lemma WrittenV6Rule(network: string, n: seq<nat>, destination: string, a: seq<nat>, p: nat)
    requires WritesV6(network, n) && WritesV6(destination, a)
    ensures |n| == |a| == 8
    ensures DestinationMatches(network + "/" + Decimal(p), destination) <==> p <= 128 && FirstBitsAgree(n, a, 16, p)
  {
    hide DestinationMatches, FirstBitsAgree, LeadingBitsAgree, WritesV6, FromDigits, ReadIp, Numeral, Decimal, SmallGroups;
    V6Denoted(network, n);
    V6Denoted(destination, a);
    WrittenRuleIsBlock(network, destination, p);
    GroupsAreSmall(n);
    GroupsAreSmall(a);
    if p <= 128 {
      SameBlock(n, a, 16, p, 128);
    }
  }

  lemma GroupsAreSmall(groups: seq<nat>)
    requires ValidGroups(groups)
    ensures |groups| == 8 && Digits(groups, 16)
  {
    hide Pow;
    Pow2Values();
  }

  /** A rule of one family holds of no address of the other. */
  lemma WrittenFamiliesDiffer(v4: string, octets: seq<nat>, v6: string, groups: seq<nat>, p: nat)
    requires WritesV4(v4, octets) && WritesV6(v6, groups)
    ensures !DestinationMatches(v4 + "/" + Decimal(p), v6) && !DestinationMatches(v6 + "/" + Decimal(p), v4)
  {
    hide DestinationMatches, LeadingBitsAgree, WritesV4, WritesV6, FromDigits, ReadIp, Numeral, Decimal;
    V4Denoted(v4, octets);
    V6Denoted(v6, groups);
    WrittenRuleIsBlock(v4, v6, p);
    WrittenRuleIsBlock(v6, v4, p);
  }

  // ----- What the probe prints -----

  /** The destinations the probe prints are such texts. */
  lemma PrintedIsWritten(octets: seq<nat>, groups: seq<nat>)
    requires ValidOctets(octets) && ValidGroups(groups)
    ensures WritesV4(PrintV4(octets), octets) && WritesV6(PrintV6(groups), groups)
  {
    hide Numeral, ReadGroups, Denote, Join, SmallGroups;
    Dotted(octets);
    var texts := Printed(groups, 16);
    GroupsReadBack(groups, true);
    ReadGroupsExactly(texts, groups, true);
    assert IsPlainV6(PrintV6(groups), groups, texts);
    assert Paths.SameLetters(PrintV6(groups), PrintV6(groups));
  }
}
