/** What `destination_matches` of asg-policy/src/rules.rs makes of host patterns that are no CIDR blocks, against
    the addresses the probe prints: exact addresses are compared as text, names never match. */
module HostRules {
  import opened Options
  import opened Arithmetic
  import opened Positional
  import opened Numerals
  import opened Glob
  import opened GlobLaws
  import opened Network
  import Paths

  // ----- Text without wildcards -----

  /** A pattern without wildcards and without a separator is compared as text, even where it is an address. */
  lemma LiteralHostIsText(host: string, destination: string)
    requires Literal(host) && '/' !in host
    ensures DestinationMatches(host, destination) <==> host == destination
  {
    SplitOnceMisses(host, '/');
    LiteralPatternMatchesItself(host, destination);
  }

  lemma {:induction false} SplitOnceMisses(s: string, sep: char)
    ensures SplitOnce(s, sep) == None <==> sep !in s
  {
    if s != [] {
      SplitOnceMisses(s[1..], sep);
    }
  }

  // ----- The characters of an address -----

  /** Not part of any address, in either case. */
  predicate Foreign(c: char) {
    !('0' <= c <= '9') && !('a' <= c <= 'f') && !('A' <= c <= 'F') && c != '.' && c != ':'
  }

  lemma {:induction false} CharInSegment(s: string, sep: char, c: char) returns (seg: string)
    requires c in s && c != sep
    ensures seg in Split(s, sep) && c in seg
  {
    var rest := Split(s[1..], sep);
    if s[0] == c {
      seg := [c] + rest[0];
      assert Split(s, sep)[0] == seg;
    } else {
      assert c in s[1..];
      seg := CharInSegment(s[1..], sep, c);
      if s[0] == sep {
        assert seg in [[]] + rest;
      } else if seg == rest[0] {
        seg := [s[0]] + seg;
        assert Split(s, sep)[0] == seg && seg[1..] == rest[0];
        assert forall k | 0 <= k < |rest[0]| :: rest[0][k] == seg[k + 1];
      } else {
        var k :| 0 <= k < |rest| && rest[k] == seg;
        assert Split(s, sep)[k] == seg;
      }
    }
  }

  lemma V4HasNoForeign(s: string, c: char)
    requires c in s && !IsDigit(c, 10) && c != '.'
    ensures ReadV4(s) == None
  {
    var seg := CharInSegment(s, '.', c);
    var k :| 0 <= k < |seg| && seg[k] == c;
    assert ReadOctet(seg) == None;
    var i :| 0 <= i < |Split(s, '.')| && Split(s, '.')[i] == seg;
  }

  lemma {:induction false} GroupsHaveNoForeign(segs: seq<string>, v4Allowed: bool, seg: string, c: char)
    requires seg in segs && c in seg && Foreign(c)
    ensures ReadGroups(segs, v4Allowed) == None
    decreases |segs|
  {
    hide ReadV4;
    if segs[0] == seg {
      var k :| 0 <= k < |seg| && seg[k] == c;
      V4HasNoForeign(seg, c);
    } else {
      GroupsHaveNoForeign(segs[1..], v4Allowed, seg, c);
      assert |segs| > 1;
    }
  }

  lemma SegmentsHaveNoForeign(s: string, v4Allowed: bool, c: char)
    requires c in s && Foreign(c)
    ensures ReadGroups(Segments(s), v4Allowed) == None && ReadGroups(Split(s, ':'), v4Allowed) == None
  {
    var seg := CharInSegment(s, ':', c);
    GroupsHaveNoForeign(Split(s, ':'), v4Allowed, seg, c);
  }

  lemma V6HasNoForeign(s: string, c: char)
    requires c in s && Foreign(c)
    ensures ReadV6(s) == None
  {
    hide ReadGroups, Segments, FromGroups, Split;
    DoubleColonFound(s);
    match FindDoubleColon(s)
    case None => SegmentsHaveNoForeign(s, true, c);
    case Some(i) =>
      assert s == s[..i] + [':', ':'] + s[i + 2..];
      if c in s[..i] {
        SegmentsHaveNoForeign(s[..i], false, c);
      } else {
        assert c in s[i + 2..];
        SegmentsHaveNoForeign(s[i + 2..], true, c);
      }
  }

  /** An address holds digits, dots and colons only. */
  lemma AddressHasNoForeign(s: string, c: char)
    requires c in s && Foreign(c)
    ensures ReadIp(s) == None
  {
    hide ReadV4, ReadV6;
    V4HasNoForeign(s, c);
    var k :| 0 <= k < |s| && s[k] == c;
    assert Paths.Lower(s)[k] == Paths.LowerChar(c);
    V6HasNoForeign(Paths.Lower(s), Paths.LowerChar(c));
  }

  lemma AddressIsLiteral(host: string)
    requires ReadIp(host).Some?
    ensures Literal(host) && '/' !in host
  {
    hide ReadIp;
    if '*' in host { AddressHasNoForeign(host, '*'); }
    if '?' in host { AddressHasNoForeign(host, '?'); }
    if '/' in host { AddressHasNoForeign(host, '/'); }
  }

  // ----- IPv4: one address, one text -----

  lemma OctetsDetermined(a: seq<nat>, b: seq<nat>)
    requires ValidOctets(a) && ValidOctets(b) && FromOctets(a) == FromOctets(b)
    ensures a == b
  {
    hide FromOctets, FromDigits;
    OctetsAreDigits(a);
    OctetsAreDigits(b);
    assert Pow(2, 8) == 0x100;
    DigitsDetermined(a, b, 8);
  }

  /** Any text that reads as an IPv4 address is the one the probe prints for it. */
  lemma V4TextIsPrinted(s: string, octets: seq<nat>)
    requires ValidOctets(octets) && ReadV4(s) == Some(FromOctets(octets))
    ensures s == PrintV4(octets)
  {
    var segs := Split(s, '.');
    var read := [ReadOctet(segs[0]).value, ReadOctet(segs[1]).value, ReadOctet(segs[2]).value, ReadOctet(segs[3]).value];
    forall i | 0 <= i < 4 ensures Numeral(read[i], 10) == segs[i] {
      NumeralOfValue(segs[i], 10);
    }
    hide ReadOctet, Numeral, Split, FromOctets;
    OctetsDetermined(read, octets);
    assert Printed(octets, 10) == segs;
    JoinSplit(s, '.');
  }

  /** Against an IPv4 connection an exact address is the address. */
  lemma ExactAddressAgainstV4(host: string, octets: seq<nat>)
    requires ReadIp(host).Some? && ValidOctets(octets)
    ensures DestinationMatches(host, PrintV4(octets)) <==> ReadIp(host) == Some(V4(FromOctets(octets)))
  {
    AddressIsLiteral(host);
    LiteralHostIsText(host, PrintV4(octets));
    PrintedV4ReadsBack(octets);
    if ReadIp(host) == Some(V4(FromOctets(octets))) {
      V4TextIsPrinted(host, octets);
    }
  }

  // ----- IPv6: one of many texts -----

  predicate PlainGroup(seg: string) {
    1 <= |seg| <= 4 && AllDigits(seg, 16) && (|seg| == 1 || seg[0] != '0')
  }

  /** Form 1 of section 2.2 of RFC 4291 as the probe writes it: eight groups in lower case, none compressed,
      none padded. */
  predicate PlainForm(s: string) {
    var segs := Split(s, ':');
    |segs| == 8 && forall i | 0 <= i < 8 :: PlainGroup(segs[i])
  }

  lemma PrintedIsPlainForm(groups: seq<nat>)
    requires ValidGroups(groups)
    ensures PlainForm(PrintV6(groups))
  {
    var segs := Printed(groups, 16);
    forall i | 0 <= i < 8 ensures PlainGroup(segs[i]) && ':' !in segs[i] {
      NumeralDenotes(groups[i], 16);
      WidthBounds(groups[i]);
    }
    SplitJoin(segs, ':');
  }

  lemma PlainFormIsPrinted(s: string) returns (groups: seq<nat>)
    requires PlainForm(s)
    ensures ValidGroups(groups) && s == PrintV6(groups)
  {
    var segs := Split(s, ':');
    groups := seq(8, i requires 0 <= i < 8 => Value(segs[i], 16));
    forall i | 0 <= i < 8 ensures groups[i] < 0x1_0000 && Numeral(groups[i], 16) == segs[i] {
      GroupValueBound(segs[i]);
      NumeralOfValue(segs[i], 16);
    }
    hide Numeral, Value, Split;
    assert Printed(groups, 16) == segs;
    JoinSplit(s, ':');
  }

  lemma GroupsDetermined(a: seq<nat>, b: seq<nat>)
    requires SmallGroups(a) && SmallGroups(b) && |a| == |b| && FromGroups(a) == FromGroups(b)
    ensures a == b
  {
    hide Pow, FromGroups, FromDigits;
    Pow2Values();
    GroupsAreDigits(a);
    GroupsAreDigits(b);
    DigitsDetermined(a, b, 16);
  }

  /** Against an IPv6 connection an exact address is the address only where it is written as the probe writes it. */
  lemma ExactAddressAgainstV6(host: string, groups: seq<nat>)
    requires ReadIp(host).Some? && ValidGroups(groups)
    ensures DestinationMatches(host, PrintV6(groups)) <==> ReadIp(host) == Some(V6(FromGroups(groups))) && PlainForm(host)
  {
    hide ReadIp, DestinationMatches, PlainForm, PrintV6, FromGroups;
    AddressIsLiteral(host);
    LiteralHostIsText(host, PrintV6(groups));
    PrintedV6ReadsBack(groups);
    PrintedIsPlainForm(groups);
    if ReadIp(host) == Some(V6(FromGroups(groups))) && PlainForm(host) {
      var own := PlainFormIsPrinted(host);
      PrintedV6ReadsBack(own);
      GroupsDetermined(own, groups);
    }
  }

  /** The loopback address as one would write it in a rule does not match the connection to it. */
  lemma CompressedAddressIsMissed()
    ensures ReadIp("::1") == Some(V6(FromGroups([0, 0, 0, 0, 0, 0, 0, 1])))
    ensures !DestinationMatches("::1", PrintV6([0, 0, 0, 0, 0, 0, 0, 1]))
  {
    hide FromGroups, PlainForm, DestinationMatches;
    var loopback := [0, 0, 0, 0, 0, 0, 0, 1];
    assert ReadV4("::1") == None by { SplitOneSegment("::1", '.'); }
    assert Paths.Lower("::1") == "::1";
    CompressedReads(loopback);
    CompressedIsNotPlain();
    ExactAddressAgainstV6("::1", loopback);
  }

  lemma CompressedReads(loopback: seq<nat>)
    requires loopback == [0, 0, 0, 0, 0, 0, 0, 1]
    ensures ReadV6("::1") == Some(FromGroups(loopback))
  {
    hide FromGroups, ReadGroups;
    assert "::1"[..0] == "" && "::1"[2..] == "1" && FindDoubleColon("::1") == Some(0);
    SplitOneSegment("1", ':');
    ReadOne();
    var none: seq<nat> := [];
    assert ReadGroups([], false) == Some(none) by { ReadNone(); }
    assert none + seq(7, _ => 0) + [1] == loopback;
  }

  lemma ReadNone()
    ensures ReadGroups([], false) == Some([])
  {
  }

  lemma ReadOne()
    ensures ReadGroups(["1"], true) == Some([1])
  {
    var segs := ["1"];
    assert "1"[..0] == "" && AllDigits("1", 16) && Value("1", 16) == 1;
    var none: seq<nat> := [];
    assert segs[1..] == [] && ReadGroups(segs[1..], true) == Some(none);
    assert ReadGroups(segs, true) == Some([1] + none) && [1] + none == [1];
  }

  lemma CompressedIsNotPlain()
    ensures !PlainForm("::1")
  {
    assert "" + ":" + ":1" == "::1";
    SplitConcat("", ":1", ':');
    assert Split("::1", ':')[0] == "";
  }

  // ----- Names -----

  lemma {:induction false} LiteralCharsAppear(p: string, t: string, c: char)
    requires MatchChars(p, t) && c in p && c != '*' && c != '?'
    ensures c in t
    decreases |p|
  {
    if p[0] == '*' {
      var i :| 0 <= i <= |t| && MatchChars(p[1..], t[i..]);
      LiteralCharsAppear(p[1..], t[i..], c);
    } else if p[0] != c {
      LiteralCharsAppear(p[1..], t[1..], c);
    }
  }

  lemma {:induction false} LiteralCharsAppearIn(pat: seq<string>, txt: seq<string>, p: string, c: char) returns (t: string)
    requires MatchSegments(pat, txt) && p in pat && c in p && c != '*' && c != '?'
    ensures t in txt && c in t
    decreases |pat|
  {
    assert forall d | d in "**" :: d == '*';
    if pat[0] == "**" {
      var i :| 0 <= i <= |txt| && MatchSegments(pat[1..], txt[i..]);
      t := LiteralCharsAppearIn(pat[1..], txt[i..], p, c);
    } else if pat[0] == p {
      LiteralCharsAppear(p, txt[0], c);
      t := txt[0];
    } else {
      t := LiteralCharsAppearIn(pat[1..], txt[1..], p, c);
    }
  }

  lemma SegmentCharsAreOfText(s: string, sep: char, seg: string, c: char)
    requires seg in Split(s, sep) && c in seg
    ensures c in s
  {
    if c !in s {
      SplitKeepsChars(s, sep, c);
    }
  }

  lemma GlobNeedsItsChars(pattern: string, text: string, c: char)
    requires Matches(pattern, text) && c in pattern && c != '*' && c != '?' && c != '/'
    ensures c in text
  {
    var p := CharInSegment(pattern, '/', c);
    var t := LiteralCharsAppearIn(Split(pattern, '/'), Split(text, '/'), p, c);
    SegmentCharsAreOfText(text, '/', t, c);
  }

  /** A pattern with a character that belongs to no address, such as a letter beyond `f`, never matches text that is
      an address: host names in a rule do not fire on connections captured by the probe. */
  lemma NamesNeverMatchAddresses(pattern: string, destination: string, c: char)
    requires c in pattern && Foreign(c) && c !in {'*', '?', '/', '+'}
    requires ReadIp(destination).Some?
    ensures !DestinationMatches(pattern, destination)
  {
    hide ReadIp, Matches, MaskedEqual;
    if c in destination {
      AddressHasNoForeign(destination, c);
    }
    if Matches(pattern, destination) {
      GlobNeedsItsChars(pattern, destination, c);
    }
    if SplitOnce(pattern, '/').Some? {
      var (network, prefix) := SplitOnce(pattern, '/').value;
      SplitOnceParts(pattern, '/');
      if c in network {
        AddressHasNoForeign(network, c);
      } else {
        assert c in prefix;
        PrefixHasNoForeign(prefix, c);
      }
    }
  }

  lemma {:induction false} SplitOnceParts(s: string, sep: char)
    requires SplitOnce(s, sep).Some?
    ensures s == SplitOnce(s, sep).value.0 + [sep] + SplitOnce(s, sep).value.1
  {
    if s[0] != sep {
      SplitOnceParts(s[1..], sep);
    }
  }

  lemma PrefixHasNoForeign(prefix: string, c: char)
    requires c in prefix && Foreign(c) && c != '+'
    ensures ReadU8(prefix) == None
  {
    var k :| 0 <= k < |prefix| && prefix[k] == c;
    var digits := if prefix[0] == '+' then prefix[1..] else prefix;
    assert digits[if prefix[0] == '+' then k - 1 else k] == c;
  }
}
