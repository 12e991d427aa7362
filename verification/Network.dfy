/** Network destinations: address text, CIDR blocks and `destination_matches` of asg-policy/src/rules.rs. */
module Network {
  import opened Options
  import opened Arithmetic
  import opened Positional
  import opened Numerals
  import opened Bits
  import opened Glob
  import Paths

  datatype IpAddr = V4(bits: nat) | V6(bits: nat)

  // ----- Reading addresses, as the standard library's `parse::<IpAddr>` does -----

  /** An octet: one to three digits without a leading zero, at most 255. */
  function ReadOctet(s: string): Option<nat> {
    if 1 <= |s| <= 3 && AllDigits(s, 10) && (|s| == 1 || s[0] != '0') && Value(s, 10) < 256
    then Some(Value(s, 10)) else None
  }

  function FromOctets(o: seq<nat>): nat
    requires |o| == 4
  {
    ((o[0] * 256 + o[1]) * 256 + o[2]) * 256 + o[3]
  }

  function ReadV4(s: string): Option<nat> {
    var segs := Split(s, '.');
    if |segs| != 4 then None
    else match (ReadOctet(segs[0]), ReadOctet(segs[1]), ReadOctet(segs[2]), ReadOctet(segs[3]))
      case (Some(a), Some(b), Some(c), Some(d)) => Some(FromOctets([a, b, c, d]))
      case _ => None
  }

  /** Colon-separated groups of one to four hexadecimal digits; the last may be an IPv4 address,
      which counts as two groups, where `v4Allowed`. */
  function ReadGroups(segs: seq<string>, v4Allowed: bool): Option<seq<nat>> {
    if segs == [] then Some([])
    else if 1 <= |segs[0]| <= 4 && AllDigits(segs[0], 16) then
      match ReadGroups(segs[1..], v4Allowed)
      case Some(rest) => Some([Value(segs[0], 16)] + rest)
      case None => None
    else if v4Allowed && |segs| == 1 && ReadV4(segs[0]).Some? then
      var bits := ReadV4(segs[0]).value;
      Some([bits / 0x1_0000, bits % 0x1_0000])
    else None
  }

  function FromGroups(groups: seq<nat>): nat {
    if groups == [] then 0 else FromGroups(groups[..|groups| - 1]) * 0x1_0000 + groups[|groups| - 1]
  }

  function FindDoubleColon(s: string): Option<nat> {
    if |s| < 2 then None
    else if s[0] == ':' && s[1] == ':' then Some(0)
    else match FindDoubleColon(s[1..])
      case Some(i) => Some(i + 1)
      case None => None
  }

  lemma {:induction false} DoubleColonFound(s: string)
    ensures match FindDoubleColon(s)
            case Some(i) => i + 2 <= |s| && s[i] == ':' && s[i + 1] == ':'
            case None => true
  {
    if |s| >= 2 {
      DoubleColonFound(s[1..]);
    }
  }

  function Segments(s: string): seq<string> {
    if s == "" then [] else Split(s, ':')
  }

  /** `s` in lower case: eight groups, or at most seven with one `::` standing for the missing zeros. */
  function ReadV6(s: string): Option<nat> {
    DoubleColonFound(s);
    match FindDoubleColon(s)
    case None =>
      (match ReadGroups(Split(s, ':'), true)
       case Some(groups) => if |groups| == 8 then Some(FromGroups(groups)) else None
       case None => None)
    case Some(i) =>
      match (ReadGroups(Segments(s[..i]), false), ReadGroups(Segments(s[i + 2..]), true))
      case (Some(head), Some(tail)) =>
        if |head| + |tail| <= 7
        then Some(FromGroups(head + seq(8 - |head| - |tail|, _ => 0) + tail))
        else None
      case _ => None
  }

  function ReadIp(s: string): Option<IpAddr> {
    match ReadV4(s)
    case Some(bits) => Some(V4(bits))
    case None =>
      match ReadV6(Paths.Lower(s))
      case Some(bits) => Some(V6(bits))
      case None => None
  }

  /** `parse::<u8>`: an optional plus sign and decimal digits. */
  function ReadU8(s: string): Option<nat> {
    var digits := if s != [] && s[0] == '+' then s[1..] else s;
    if digits != [] && AllDigits(digits, 10) && Value(digits, 10) < 256 then Some(Value(digits, 10)) else None
  }

  // ----- Printing addresses, as the probe does -----

  function Printed(ns: seq<nat>, base: nat): seq<string>
    requires ValidBase(base)
  {
    seq(|ns|, i requires 0 <= i < |ns| => Numeral(ns[i], base))
  }

  ghost predicate ValidOctets(octets: seq<nat>) {
    |octets| == 4 && forall i | 0 <= i < 4 :: octets[i] < 0x100
  }

  /** The dotted form. */
  function PrintV4(octets: seq<nat>): string
    requires |octets| == 4
  {
    Join(Printed(octets, 10), '.')
  }

  ghost predicate ValidGroups(groups: seq<nat>) {
    |groups| == 8 && SmallGroups(groups)
  }

  /** Form 1 of section 2.2 of RFC 4291: eight groups, no `::`. */
  function PrintV6(groups: seq<nat>): string
    requires |groups| == 8
  {
    Join(Printed(groups, 16), ':')
  }

  lemma OctetsFit(octets: seq<nat>)
    requires ValidOctets(octets)
    ensures FromOctets(octets) < Pow(2, 32)
  {
    Pow2Values();
  }

  lemma Pow2Values()
    ensures Pow(2, 16) == 0x1_0000 && Pow(2, 32) == 0x1_0000_0000
  {
    assert Pow(2, 8) == 0x100;
    assert Pow(2, 16) == 0x1_0000;
    assert Pow(2, 24) == 0x100_0000;
  }

  lemma PrintedV4ReadsBack(octets: seq<nat>)
    requires ValidOctets(octets)
    ensures ReadIp(PrintV4(octets)) == Some(V4(FromOctets(octets))) && FromOctets(octets) < Pow(2, 32)
  {
    hide ReadOctet, Numeral, Split, Join, Pow, FromOctets, ReadV6;
    var segs := Printed(octets, 10);
    forall i | 0 <= i < 4 ensures '.' !in segs[i] && ReadOctet(segs[i]) == Some(octets[i]) {
      OctetReadsBack(octets[i]);
    }
    SplitJoin(segs, '.');
    assert [octets[0], octets[1], octets[2], octets[3]] == octets;
    OctetsFit(octets);
  }

  lemma OctetReadsBack(n: nat)
    requires n < 0x100
    ensures '.' !in Numeral(n, 10) && ReadOctet(Numeral(n, 10)) == Some(n)
  {
    hide Numeral, Value;
    NumeralDenotes(n, 10);
    WidthBounds(n);
  }

  lemma {:induction false} GroupsReadBack(groups: seq<nat>, v4Allowed: bool)
    requires SmallGroups(groups)
    ensures ReadGroups(Printed(groups, 16), v4Allowed) == Some(groups)
    decreases |groups|
  {
    if groups != [] {
      GroupsReadBack(groups[1..], v4Allowed);
      assert Printed(groups, 16)[1..] == Printed(groups[1..], 16);
      NumeralDenotes(groups[0], 16);
      WidthBounds(groups[0]);
      assert [groups[0]] + groups[1..] == groups;
    }
  }

  lemma DoubleColonLeavesEmptySegment(s: string)
    ensures FindDoubleColon(s).Some? ==> "" in Split(s, ':')
  {
    DoubleColonFound(s);
    if FindDoubleColon(s).Some? {
      var i := FindDoubleColon(s).value;
      var tail := s[i + 1..];
      assert s == s[..i] + [':'] + tail;
      SplitConcat(s[..i], tail, ':');
      assert Split(tail, ':')[0] == "";
    }
  }

  ghost predicate SmallGroups(groups: seq<nat>) {
    forall i | 0 <= i < |groups| :: groups[i] < 0x1_0000
  }

  // ----- Addresses as numbers -----

  lemma OctetsAreDigits(o: seq<nat>)
    requires |o| == 4
    ensures FromOctets(o) == FromDigits(o, 8)
  {
    assert Pow(2, 8) == 256;
    assert o[..4] == o && o[..4][..3] == o[..3] && o[..3][..2] == o[..2] && o[..2][..1] == o[..1] && o[..1][..0] == [];
    assert FromDigits(o[..1], 8) == o[0];
    assert FromDigits(o[..2], 8) == 256 * o[0] + o[1];
    assert FromDigits(o[..3], 8) == 256 * FromDigits(o[..2], 8) + o[2];
    assert FromDigits(o, 8) == 256 * FromDigits(o[..3], 8) + o[3];
  }

  lemma {:induction false} GroupsAreDigits(groups: seq<nat>)
    ensures FromGroups(groups) == FromDigits(groups, 16)
    decreases |groups|
  {
    hide Pow;
    Pow2Values();
    if groups != [] {
      GroupsAreDigits(groups[..|groups| - 1]);
    }
  }

  lemma GroupsBounded(groups: seq<nat>)
    requires SmallGroups(groups)
    ensures FromGroups(groups) < Pow(2, 16 * |groups|)
  {
    hide Pow, FromGroups, FromDigits;
    Pow2Values();
    GroupsAreDigits(groups);
    DigitsBounded(groups, 16);
  }

  lemma PrintedV6ReadsBack(groups: seq<nat>)
    requires ValidGroups(groups)
    ensures ReadIp(PrintV6(groups)) == Some(V6(FromGroups(groups))) && FromGroups(groups) < Pow(2, 128)
  {
    hide ReadGroups, FromGroups, Split, Join, Numeral, Pow, FindDoubleColon;
    var s, segs := PrintV6(groups), Printed(groups, 16);
    forall i | 0 <= i < 8 ensures segs[i] != "" && AllDigits(segs[i], 16) {
      NumeralDenotes(groups[i], 16);
    }
    JoinedDigits(segs);
    SplitJoin(segs, ':');
    NoDotNoV4(s);
    DoubleColonLeavesEmptySegment(s);
    GroupsReadBack(groups, true);
    GroupsBounded(groups);
  }

  lemma NoDotNoV4(s: string)
    requires forall c | c in s :: IsDigit(c, 16) || c == ':'
    ensures ReadV4(s) == None && Paths.Lower(s) == s
  {
    SplitOneSegment(s, '.');
    assert forall i | 0 <= i < |s| :: s[i] in s;
  }

  lemma {:induction false} JoinedDigits(segs: seq<string>)
    requires |segs| >= 1 && forall i | 0 <= i < |segs| :: AllDigits(segs[i], 16)
    ensures forall c | c in Join(segs, ':') :: IsDigit(c, 16) || c == ':'
  {
    if |segs| > 1 {
      JoinedDigits(segs[1..]);
    }
  }

  // ----- `destination_matches` -----

  function SplitOnce(s: string, sep: char): Option<(string, string)> {
    if s == [] then None
    else if s[0] == sep then Some(([], s[1..]))
    else match SplitOnce(s[1..], sep)
      case Some((a, b)) => Some(([s[0]] + a, b))
      case None => None
  }

  /** The comparison under the network mask for one address width. */
  predicate MaskedEqual(network: nat, destination: nat, prefix: nat, width: nat)
    requires prefix <= width
  {
    var mask := if prefix == 0 then 0 else Shl(Pow(2, width) - 1, width - prefix, width);
    And(network, mask) == And(destination, mask)
  }

  predicate DestinationMatches(pattern: string, destination: string) {
    match SplitOnce(pattern, '/')
    case None => Matches(pattern, destination)
    case Some((network, prefix)) =>
      match (ReadIp(network), ReadIp(destination), ReadU8(prefix))
      case (Some(V4(n)), Some(V4(d)), Some(p)) => p <= 32 && MaskedEqual(n, d, p, 32)
      case (Some(V6(n)), Some(V6(d)), Some(p)) => p <= 128 && MaskedEqual(n, d, p, 128)
      case (Some(_), Some(_), Some(_)) => false
      case _ => Matches(pattern, destination)
  }

  // ----- Blocks -----

  function Width(a: IpAddr): nat {
    if a.V4? then 32 else 128
  }

  ghost predicate ValidIp(a: IpAddr) {
    a.bits < Pow(2, Width(a))
  }

  /** Section 3.1 of RFC 4632: the block of `network` holds the addresses of its family
      that share its first `prefix` bits. */
  ghost predicate InBlock(network: IpAddr, prefix: nat, a: IpAddr) {
    prefix <= Width(network) && a.V4? == network.V4? &&
    LeadingBitsAgree(network.bits, a.bits, prefix, Width(network))
  }

  lemma {:induction false} ValueBound(s: string, base: nat)
    requires ValidBase(base) && AllDigits(s, base)
    ensures Value(s, base) < Pow(base, |s|)
    decreases |s|
  {
    if s != [] {
      ValueBound(s[..|s| - 1], base);
      var v, d := Value(s[..|s| - 1], base), DigitValue(s[|s| - 1]);
      assert (v + 1) * base <= Pow(base, |s| - 1) * base;
    }
  }

  lemma ReadV4IsValid(s: string)
    ensures ReadV4(s).Some? ==> ReadV4(s).value < Pow(2, 32)
  {
    Pow2Values();
  }

  lemma GroupValueBound(s: string)
    requires 1 <= |s| <= 4 && AllDigits(s, 16)
    ensures Value(s, 16) < 0x1_0000
  {
    ValueBound(s, 16);
    assert Pow(16, 1) == 16 && Pow(16, 2) == 0x100;
    assert Pow(16, 3) == 0x1000 && Pow(16, 4) == 0x1_0000;
  }

  lemma {:induction false} ReadGroupsBounded(segs: seq<string>, v4Allowed: bool)
    ensures ReadGroups(segs, v4Allowed).Some? ==> SmallGroups(ReadGroups(segs, v4Allowed).value)
    decreases |segs|
  {
    hide ReadV4, Pow, Value;
    if segs != [] {
      ReadGroupsBounded(segs[1..], v4Allowed);
      if 1 <= |segs[0]| <= 4 && AllDigits(segs[0], 16) {
        GroupValueBound(segs[0]);
      } else {
        ReadV4IsValid(segs[0]);
        Pow2Values();
      }
    }
  }

  lemma ReadV6IsValid(t: string)
    ensures ReadV6(t).Some? ==> ReadV6(t).value < Pow(2, 128)
  {
    hide ReadGroups, FromGroups, Split, SmallGroups, Segments, Pow;
    DoubleColonFound(t);
    match FindDoubleColon(t)
    case None =>
      ReadGroupsBounded(Split(t, ':'), true);
      if ReadV6(t).Some? {
        GroupsBounded(ReadGroups(Split(t, ':'), true).value);
      }
    case Some(i) =>
      ReadGroupsBounded(Segments(t[..i]), false);
      ReadGroupsBounded(Segments(t[i + 2..]), true);
      if ReadV6(t).Some? {
        FilledIsBounded(ReadGroups(Segments(t[..i]), false).value, ReadGroups(Segments(t[i + 2..]), true).value);
      }
  }

  lemma FilledIsBounded(head: seq<nat>, tail: seq<nat>)
    requires SmallGroups(head) && SmallGroups(tail) && |head| + |tail| <= 7
    ensures FromGroups(head + seq(8 - |head| - |tail|, _ => 0) + tail) < Pow(2, 128)
  {
    hide FromGroups, Pow;
    ZeroFilledIsSmall(head, tail);
    GroupsBounded(head + seq(8 - |head| - |tail|, _ => 0) + tail);
  }

  lemma ZeroFilledIsSmall(head: seq<nat>, tail: seq<nat>)
    requires SmallGroups(head) && SmallGroups(tail) && |head| + |tail| <= 7
    ensures SmallGroups(head + seq(8 - |head| - |tail|, _ => 0) + tail)
  {
  }

  /** Whatever text is read as an address is one: the bits fit its width. */
  lemma ReadIpIsValid(s: string)
    ensures ReadIp(s).Some? ==> ValidIp(ReadIp(s).value)
  {
    ReadV4IsValid(s);
    ReadV6IsValid(Paths.Lower(s));
  }

  lemma AndZero(x: nat)
    ensures And(x, 0) == 0
  {
  }

  lemma MaskedEqualIsLeadingBits(n: nat, d: nat, prefix: nat, width: nat)
    requires prefix <= width && n < Pow(2, width) && d < Pow(2, width)
    ensures MaskedEqual(n, d, prefix, width) <==> LeadingBitsAgree(n, d, prefix, width)
  {
    MaskComparesLeadingBits(n, d, prefix, width);
    AndZero(n);
    AndZero(d);
  }

  /** A CIDR pattern against an address: membership of the block, and nothing at all when the prefix
      is longer than the address or the families differ. */
  lemma CidrIsBlockMembership(pattern: string, destination: string, network: string, prefix: string)
    requires SplitOnce(pattern, '/') == Some((network, prefix))
    requires ReadIp(network).Some? && ReadIp(destination).Some? && ReadU8(prefix).Some?
    ensures DestinationMatches(pattern, destination) <==>
            InBlock(ReadIp(network).value, ReadU8(prefix).value, ReadIp(destination).value)
  {
    hide ReadIp, ReadU8, MaskedEqual, LeadingBitsAgree, Matches, SplitOnce, Pow;
    var n, d, p := ReadIp(network).value, ReadIp(destination).value, ReadU8(prefix).value;
    ReadIpIsValid(network);
    ReadIpIsValid(destination);
    if n.V4? == d.V4? && p <= Width(n) {
      MaskedEqualIsLeadingBits(n.bits, d.bits, p, Width(n));
    }
  }

  /** Prefix 0 is the whole family. */
  lemma ZeroPrefixIsTheFamily(pattern: string, destination: string, network: string, prefix: string)
    requires SplitOnce(pattern, '/') == Some((network, prefix))
    requires ReadIp(network).Some? && ReadIp(destination).Some? && ReadU8(prefix) == Some(0)
    ensures DestinationMatches(pattern, destination) <==> ReadIp(network).value.V4? == ReadIp(destination).value.V4?
  {
    hide DestinationMatches, ReadIp, ReadU8;
    CidrIsBlockMembership(pattern, destination, network, prefix);
  }

  /** Two blocks of one family are nested or disjoint. */
  lemma BlocksNestOrAreDisjoint(n1: IpAddr, p1: nat, n2: IpAddr, p2: nat)
    requires n1.V4? == n2.V4? && p1 <= p2 <= Width(n1)
    ensures (forall a | InBlock(n2, p2, a) :: InBlock(n1, p1, a)) ||
            (forall a :: !(InBlock(n1, p1, a) && InBlock(n2, p2, a)))
  {
    var w := Width(n1);
    if LeadingBitsAgree(n1.bits, n2.bits, p1, w) {
      forall a | InBlock(n2, p2, a) ensures InBlock(n1, p1, a) {
        forall i | w - p1 <= i < w ensures Bit(n1.bits, i) == Bit(a.bits, i) {
          assert Bit(n1.bits, i) == Bit(n2.bits, i);
        }
      }
    } else {
      var i :| w - p1 <= i < w && Bit(n1.bits, i) != Bit(n2.bits, i);
      forall a ensures !(InBlock(n1, p1, a) && InBlock(n2, p2, a)) {
        assert Bit(n1.bits, i) == Bit(a.bits, i) ==> Bit(n2.bits, i) != Bit(a.bits, i);
      }
    }
  }
}
