/** How long a record is, and so which captures fit the 512-byte slot. */
module RecordSize {
  import opened Options
  import opened Numerals
  import opened Events
  import opened Json
  import opened Network
  import opened Probe
  import RoundTrip
  import Glob

  // ----- Escaped strings -----

  /** Characters that take a backslash. */
  function Quoted(s: string): nat {
    if s == [] then 0 else Quoted(s[1..]) + (if s[0] == '\"' || s[0] == '\\' then 1 else 0)
  }

  /** Characters that take the long escape `\u00XX`. */
  function Unprintable(s: string): nat {
    if s == [] then 0 else Unprintable(s[1..]) + (if ' ' <= s[0] <= '~' then 0 else 1)
  }

  function EscapedSize(s: string): nat {
    |s| + Quoted(s) + 5 * Unprintable(s)
  }

  lemma {:induction false} EscapedSizeExactly(s: string)
    requires Bytes(s)
    ensures |Escaped(s)| == EscapedSize(s)
  {
    if s != [] {
      EscapedSizeExactly(s[1..]);
    }
  }

  lemma {:induction false} PlainSize(s: string)
    requires RoundTrip.PlainText(s)
    ensures EscapedSize(s) == |s|
  {
    if s != [] {
      assert forall i | 0 <= i < |s[1..]| :: s[1..][i] == s[i + 1];
      PlainSize(s[1..]);
    }
  }

  lemma {:induction false} UnprintableSize(s: string)
    requires forall i | 0 <= i < |s| :: !(' ' <= s[i] <= '~')
    ensures EscapedSize(s) == 6 * |s|
  {
    if s != [] {
      assert forall i | 0 <= i < |s[1..]| :: s[1..][i] == s[i + 1];
      UnprintableSize(s[1..]);
    }
  }

  // ----- Addresses -----

  function TotalWidth(ns: seq<nat>, base: nat): nat
    requires ValidBase(base)
  {
    if ns == [] then 0 else |Numeral(ns[0], base)| + TotalWidth(ns[1..], base)
  }

  lemma {:induction false} JoinedWidth(ns: seq<nat>, base: nat, sep: char)
    requires ValidBase(base) && |ns| >= 1
    ensures |Glob.Join(Network.Printed(ns, base), sep)| == TotalWidth(ns, base) + |ns| - 1
    decreases |ns|
  {
    hide Numeral;
    if |ns| > 1 {
      JoinedWidth(ns[1..], base, sep);
      assert Network.Printed(ns, base)[1..] == Network.Printed(ns[1..], base);
    }
  }

  lemma {:induction false} TotalWidthBound(ns: seq<nat>, base: nat, k: nat)
    requires ValidBase(base) && forall i | 0 <= i < |ns| :: |Numeral(ns[i], base)| <= k
    ensures TotalWidth(ns, base) <= k * |ns|
    decreases |ns|
  {
    hide Numeral;
    if ns != [] {
      assert forall i | 0 <= i < |ns[1..]| :: ns[1..][i] == ns[i + 1];
      TotalWidthBound(ns[1..], base, k);
      assert k * |ns| == k * |ns[1..]| + k;
    }
  }

  // ----- Whole records -----

  function IdentitySize(id: Identity): nat {
    |Decimal(id.pid)| + |Decimal(id.tgid)| + |Decimal(id.tsNs)| + EscapedSize(UpToNul(id.comm))
  }

  function DestinationSize(destination: Option<Destination>): nat {
    match destination
    case Some(DestV4(octets, port)) => 36 + |Decimal(port)| + TotalWidth(octets, 10) + 3
    case Some(DestV6(segments, port)) => 36 + |Decimal(port)| + TotalWidth(segments, 16) + 7
    case Some(DestOther(family)) => 15 + |Decimal(family)|
    case None => 0
  }

  function EvidenceSize(ev: Evidence): nat {
    match ev
    case Exec(uid, cgroupId, filename) =>
      20 + |Decimal(uid)| + |Decimal(cgroupId)| + (if filename == [] then 0 else 12 + EscapedSize(filename))
    case Open(path, flags, truncated) =>
      if path == [] then 0 else 19 + EscapedSize(path) + |Decimal(flags)| + (if truncated then 22 else 0)
    case Connect(destination) => DestinationSize(destination)
  }

  /** The length of a record, counted without rendering it. */
  function RecordLength(id: Identity, ev: Evidence): nat {
    45 + |KindOf(ev)| + IdentitySize(id) + EvidenceSize(ev)
  }

  lemma FmtTwo(a: string, b: string)
    ensures |Fmt([a, b])| == |a| + |b|
  {
    RoundTrip.FmtPair(a, b);
  }

  lemma FmtFour(a: string, b: string, c: string, d: string)
    ensures |Fmt([a, b, c, d])| == |a| + |b| + |c| + |d|
  {
    hide Fmt;
    FmtTwo(a, b);
    FmtTwo(c, d);
    assert [a, b] + [c, d] == [a, b, c, d];
    RoundTrip.FmtConcat([a, b], [c, d]);
  }

  lemma PrefixSize(id: Identity, kind: string)
    requires ValidIdentity(id)
    ensures |PrefixText(id, kind)| == 44 + |kind| + IdentitySize(id)
  {
    hide Decimal, Escaped, EscapedSize, Fmt, UpToNul;
    EscapedSizeExactly(UpToNul(id.comm));
    var a, b := ["{\"type\":\"", kind, "\",\"pid\":", Decimal(id.pid)], [",\"tgid\":", Decimal(id.tgid)];
    var c := ",\"comm\":";
    FmtFour("{\"type\":\"", kind, "\",\"pid\":", Decimal(id.pid));
    FmtTwo(",\"tgid\":", Decimal(id.tgid));
    RoundTrip.FmtSingle(c);
    RoundTrip.FmtConcat(a, b);
    RoundTrip.FmtConcat(a + b, [c]);
    assert a + b + [c] == ["{\"type\":\"", kind, "\",\"pid\":", Decimal(id.pid), ",\"tgid\":", Decimal(id.tgid), c];
    FmtTwo(",\"ts_ns\":", Decimal(id.tsNs));
  }

  lemma ExecSize(uid: U32, cgroupId: U64, filename: string)
    requires Bytes(filename)
    ensures |ExecText(uid, cgroupId, filename)| == EvidenceSize(Exec(uid, cgroupId, filename))
  {
    hide Decimal, Escaped, EscapedSize, Fmt;
    FmtFour(",\"uid\":", Decimal(uid), ",\"cgroup_id\":", Decimal(cgroupId));
    EscapedSizeExactly(filename);
  }

  lemma OpenSize(path: string, flags: U32, truncated: bool)
    requires Bytes(path)
    ensures |OpenText(path, flags, truncated)| == EvidenceSize(Open(path, flags, truncated))
  {
    hide Decimal, Escaped, EscapedSize, Fmt;
    FmtTwo(",\"flags\":", Decimal(flags));
    EscapedSizeExactly(path);
  }

  lemma AddressSize(parts: seq<nat>, base: nat, sep: char, port: U16, tail: string)
    requires |parts| >= 1 && ValidBase(base) && |tail| == 16
    ensures |Fmt(AddressPieces(Separated(Network.Printed(parts, base), sep), port, tail))| ==
            36 + |Decimal(port)| + TotalWidth(parts, base) + |parts| - 1
  {
    hide Decimal, Numeral, Fmt, AddressPieces, Separated, TotalWidth, Glob.Join;
    var segs := Network.Printed(parts, base);
    RoundTrip.AddressPiecesText(Separated(segs, sep), port, tail);
    RoundTrip.SeparatedIsJoined(segs, sep);
    JoinedWidth(parts, base, sep);
  }

  lemma ConnectSize(destination: Option<Destination>)
    requires ValidEvidence(Connect(destination))
    ensures |Fmt(ConnectPieces(destination))| == DestinationSize(destination)
  {
    hide Decimal, Numeral, Fmt, AddressPieces, Separated, TotalWidth;
    match destination
    case Some(DestV4(octets, port)) => AddressSize(octets, 10, '.', port, ",\"family\":\"IPv4\"");
    case Some(DestV6(segments, port)) => AddressSize(segments, 16, ':', port, ",\"family\":\"IPv6\"");
    case Some(DestOther(family)) =>
      var lead, name := ",\"family\":\"AF_", Decimal(family);
      FmtTwo(lead, name);
      RoundTrip.FmtSingle("\"");
      RoundTrip.FmtConcat([lead, name], ["\""]);
      assert [lead, name] + ["\""] == [lead, name, "\""];
    case None => RoundTrip.EmptyTail();
  }

  /** The length of every record is exactly its fixed text, the digits of its numbers, one byte for every plain
      captured byte, two for a quote or backslash, and six for any other. */
  lemma RecordLengthExactly(id: Identity, ev: Evidence)
    requires ValidIdentity(id) && ValidEvidence(ev)
    ensures |RecordText(id, ev)| == RecordLength(id, ev)
  {
    hide PrefixText, ExecText, OpenText, ConnectPieces, Fmt, IdentitySize, KindOf;
    PrefixSize(id, KindOf(ev));
    match ev
    case Exec(uid, cgroupId, filename) => ExecSize(uid, cgroupId, filename);
    case Open(path, flags, truncated) => OpenSize(path, flags, truncated);
    case Connect(destination) => ConnectSize(destination);
  }

  // ----- What fits -----

  lemma IdentityBound(id: Identity)
    requires ValidIdentity(id)
    ensures IdentitySize(id) <= 40 + 96
  {
    hide Decimal, EscapedSize, Escaped, UpToNul;
    WidthBounds(id.pid);
    WidthBounds(id.tgid);
    WidthBounds(id.tsNs);
    EscapedSizeExactly(UpToNul(id.comm));
    EscapedLength(UpToNul(id.comm));
  }

  /** A connect record always fits, whatever the destination: at most 272 bytes. */
  lemma ConnectRecordFits(id: Identity, destination: Option<Destination>)
    requires ValidIdentity(id) && ValidEvidence(Connect(destination))
    ensures |RecordText(id, Connect(destination))| <= 272
  {
    hide RecordText, IdentitySize, Decimal, Numeral, TotalWidth;
    RecordLengthExactly(id, Connect(destination));
    IdentityBound(id);
    match destination
    case Some(DestV4(octets, port)) =>
      WidthBounds(port);
      forall i | 0 <= i < 4 ensures |Numeral(octets[i], 10)| <= 3 { DecimalIsNumeral(octets[i]); WidthBounds(octets[i]); }
      TotalWidthBound(octets, 10, 3);
    case Some(DestV6(segments, port)) =>
      WidthBounds(port);
      forall i | 0 <= i < 8 ensures |Numeral(segments[i], 16)| <= 4 { WidthBounds(segments[i]); }
      TotalWidthBound(segments, 16, 4);
    case Some(DestOther(family)) => WidthBounds(family);
    case None =>
  }

  lemma DecimalIsNumeral(n: nat)
    ensures Decimal(n) == Numeral(n, 10)
  {
  }

  /** An exec record whose file name of at most 255 bytes needs no escape fits. */
  lemma PlainExecRecordFits(id: Identity, uid: U32, cgroupId: U64, filename: string)
    requires ValidIdentity(id) && |filename| <= 255 && RoundTrip.PlainText(filename)
    ensures Bytes(filename) && |RecordText(id, Exec(uid, cgroupId, filename))| <= 507
  {
    RoundTrip.PlainPrints(filename);
    PlainSize(filename);
    hide RecordText, IdentitySize, EscapedSize, Decimal;
    RecordLengthExactly(id, Exec(uid, cgroupId, filename));
    IdentityBound(id);
    WidthBounds(uid);
    WidthBounds(cgroupId);
  }

  /** An open record whose path of at most 255 bytes needs no escape fits, truncation marker included. */
  lemma PlainOpenRecordFits(id: Identity, path: string, flags: U32, truncated: bool)
    requires ValidIdentity(id) && |path| <= 255 && RoundTrip.PlainText(path)
    ensures Bytes(path) && |RecordText(id, Open(path, flags, truncated))| <= 496
  {
    RoundTrip.PlainPrints(path);
    PlainSize(path);
    hide RecordText, IdentitySize, EscapedSize, Decimal;
    RecordLengthExactly(id, Open(path, flags, truncated));
    IdentityBound(id);
    WidthBounds(flags);
  }

  /** Escaping can push a record over the limit: 86 bytes that all need `\u00XX` are too many for every identity. */
  lemma EscapedRecordIsDiscarded(id: Identity, uid: U32, cgroupId: U64, filename: string)
    requires ValidIdentity(id) && Bytes(filename) && |filename| >= 86
    requires forall i | 0 <= i < |filename| :: !(' ' <= filename[i] <= '~')
    ensures |RecordText(id, Exec(uid, cgroupId, filename))| > RECORD_MAX
  {
    UnprintableSize(filename);
    hide RecordText, EscapedSize, Decimal;
    RecordLengthExactly(id, Exec(uid, cgroupId, filename));
  }
}
