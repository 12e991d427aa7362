/** The record writer of bpf/asg-ebpf/src/main.rs: an imperative JSON printer over a zeroed ring slot. */
module Probe {
  import opened Options
  import opened Events
  import opened Numerals
  import opened Json
  import opened Network

  const RECORD_MAX := 512

  // ----- What a probe captures -----

  /** `comm` is the kernel's 16-byte buffer. */
  datatype Identity = Identity(pid: U32, tgid: U32, tsNs: U64, comm: string)

  datatype Destination =
    | DestV4(octets: seq<nat>, port: U16)
    | DestV6(segments: seq<nat>, port: U16)
    | DestOther(family: U16)

  datatype Evidence =
    | Exec(uid: U32, cgroupId: U64, filename: string)
    | Open(path: string, flags: U32, truncated: bool)
    | Connect(destination: Option<Destination>)

  ghost predicate ValidIdentity(id: Identity) {
    |id.comm| == 16 && Bytes(id.comm)
  }

  ghost predicate ValidEvidence(ev: Evidence) {
    match ev
    case Exec(_, _, filename) => Bytes(filename)
    case Open(path, _, _) => Bytes(path)
    case Connect(None) => true
    case Connect(Some(DestV4(octets, _))) => ValidOctets(octets)
    case Connect(Some(DestV6(segments, _))) => ValidGroups(segments)
    case Connect(Some(DestOther(_))) => true
  }

  /** The bytes before the first NUL, or all of them. */
  function UpToNul(s: string): (t: string)
    ensures t <= s
    ensures '\0' !in t && (|t| < |s| ==> s[|t|] == '\0')
  {
    if s == [] || s[0] == '\0' then [] else [s[0]] + UpToNul(s[1..])
  }

  // ----- The text of a record, piece after piece -----

  function KindOf(ev: Evidence): string {
    match ev
    case Exec(_, _, _) => "proc_exec"
    case Open(_, _, _) => "file_open"
    case Connect(_) => "net_connect"
  }

  /** The text of one `write!`: its literal pieces and formatted arguments, in order. */
  function Fmt(pieces: seq<string>): string {
    if pieces == [] then [] else pieces[0] + Fmt(pieces[1..])
  }

  function PrefixText(id: Identity, kind: string): string
    requires Bytes(id.comm)
  {
    Fmt(["{\"type\":\"", kind, "\",\"pid\":", Decimal(id.pid), ",\"tgid\":", Decimal(id.tgid), ",\"comm\":"]) +
    PrintString(UpToNul(id.comm)) +
    Fmt([",\"ts_ns\":", Decimal(id.tsNs)])
  }

  function ExecText(uid: U32, cgroupId: U64, filename: string): string
    requires Bytes(filename)
  {
    Fmt([",\"uid\":", Decimal(uid), ",\"cgroup_id\":", Decimal(cgroupId)]) +
    (if filename == [] then "" else ",\"args\":[" + PrintString(filename) + "]")
  }

  function OpenText(path: string, flags: U32, truncated: bool): string
    requires Bytes(path)
  {
    if path == [] then ""
    else ",\"path\":" + PrintString(path) + FlagsText(flags, truncated)
  }

  function FlagsText(flags: U32, truncated: bool): string {
    Fmt([",\"flags\":", Decimal(flags)]) + (if truncated then ",\"path_truncated\":true" else "")
  }

  /** The arguments of an address with the literal separator between them. */
  function Separated(parts: seq<string>, sep: char): seq<string>
    requires |parts| >= 1
  {
    if |parts| == 1 then parts else [parts[0], [sep]] + Separated(parts[1..], sep)
  }

  function AddressPieces(address: seq<string>, port: U16, family: string): seq<string> {
    [",\"daddr\":\""] + address + ["\",\"dport\":", Decimal(port), family]
  }

  function ConnectPieces(destination: Option<Destination>): seq<string>
    requires ValidEvidence(Connect(destination))
  {
    match destination
    case Some(DestV4(octets, port)) =>
      AddressPieces(Separated(Printed(octets, 10), '.'), port, ",\"family\":\"IPv4\"")
    case Some(DestV6(segments, port)) =>
      AddressPieces(Separated(Printed(segments, 16), ':'), port, ",\"family\":\"IPv6\"")
    case Some(DestOther(family)) => [",\"family\":\"AF_", Decimal(family), "\""]
    case None => []
  }

  function EvidenceText(ev: Evidence): string
    requires ValidEvidence(ev)
  {
    match ev
    case Exec(uid, cgroupId, filename) => ExecText(uid, cgroupId, filename)
    case Open(path, flags, truncated) => OpenText(path, flags, truncated)
    case Connect(destination) => Fmt(ConnectPieces(destination))
  }

  /** The full rendering of one record. */
  function RecordText(id: Identity, ev: Evidence): string
    requires ValidIdentity(id) && ValidEvidence(ev)
  {
    PrefixText(id, KindOf(ev)) + EvidenceText(ev) + "}"
  }

  // ----- The writer -----

  class RecordWriter {
    const buf: array<char>
    var pos: nat

    /** Everything from `pos` on is still zero. */
    ghost predicate Valid()
      reads this, buf
    {
      pos <= buf.Length && forall i | pos <= i < buf.Length :: buf[i] == '\0'
    }

    ghost function Written(): (s: string)
      requires Valid()
      reads this, buf
      ensures |s| <= buf.Length
    {
      buf[..pos]
    }

    constructor (buf: array<char>)
      requires forall i | 0 <= i < buf.Length :: buf[i] == '\0'
      ensures this.buf == buf && Valid() && Written() == []
    {
      this.buf := buf;
      pos := 0;
    }

    method WriteByte(b: char) returns (ok: bool)
      requires Valid()
      modifies `pos, buf
      ensures Valid()
      ensures ok <==> |old(Written())| + 1 <= buf.Length
      ensures Written() == old(Written()) + (if ok then [b] else [])
    {
      if pos >= buf.Length {
        return false;
      }
      buf[pos] := b;
      pos := pos + 1;
      return true;
    }

    /** All of `value` or nothing. */
    method WriteStr(value: string) returns (ok: bool)
      requires Valid()
      modifies `pos, buf
      ensures Valid()
      ensures ok <==> |old(Written())| + |value| <= buf.Length
      ensures Written() == old(Written()) + (if ok then value else [])
    {
      var end := pos + |value|;
      if end > buf.Length {
        return false;
      }
      forall i | 0 <= i < |value| {
        buf[pos + i] := value[i];
      }
      pos := end;
      return true;
    }

    /** One escaped byte. */
    method WriteEscaped(b: char) returns (ok: bool)
      requires Valid() && IsByte(b)
      modifies `pos, buf
      ensures Valid()
      ensures ok <==> |old(Written())| + |EscapeByte(b)| <= buf.Length
      ensures ok ==> Written() == old(Written()) + EscapeByte(b)
    {
      if b == '\"' {
        ok := WriteStr("\\\"");
      } else if b == '\\' {
        ok := WriteStr("\\\\");
      } else if ' ' <= b <= '~' {
        ok := WriteByte(b);
      } else {
        ok := WriteStr("\\u00");
        if ok {
          ok := WriteByte(DigitChar(b as int / 16));
        }
        if ok {
          ok := WriteByte(DigitChar(b as int % 16));
        }
      }
    }

    method WriteJsonString(bytes: string) returns (ok: bool)
      requires Valid() && Bytes(bytes)
      modifies `pos, buf
      ensures Valid()
      ensures ok <==> |old(Written())| + |PrintString(bytes)| <= buf.Length
      ensures ok ==> Written() == old(Written()) + PrintString(bytes)
    {
      hide Valid, Written, Escaped, EscapeByte;
      EscapedFrom(bytes, 0);
      ghost var before := Written() + "\"";
      ok := WriteByte('\"');
      if !ok {
        return;
      }
      var i := 0;
      while i < |bytes|
        invariant 0 <= i <= |bytes| && Valid()
        invariant Written() == before + Escaped(bytes[..i])
      {
        EscapedFrom(bytes, i);
        EscapedStep(bytes, i);
        ok := WriteEscaped(bytes[i]);
        if !ok {
          return;
        }
        i := i + 1;
      }
      assert bytes[..i] == bytes;
      ok := WriteByte('\"');
    }

    /** `write!`: the pieces one after another, stopping at the first that does not fit. */
    method WriteFmt(pieces: seq<string>) returns (ok: bool)
      requires Valid()
      modifies `pos, buf
      ensures Valid()
      ensures ok <==> |old(Written())| + |Fmt(pieces)| <= buf.Length
      ensures ok ==> Written() == old(Written()) + Fmt(pieces)
    {
      hide Valid, Written;
      var i := 0;
      while i < |pieces|
        invariant 0 <= i <= |pieces| && Valid()
        invariant Written() + Fmt(pieces[i..]) == old(Written()) + Fmt(pieces)
        invariant |Written()| <= buf.Length
      {
        ghost var rest := Fmt(pieces[i + 1..]);
        assert pieces[i..][1..] == pieces[i + 1..];
        assert Written() + (pieces[i] + rest) == (Written() + pieces[i]) + rest;
        ok := WriteStr(pieces[i]);
        if !ok {
          return;
        }
        i := i + 1;
      }
      assert Written() + [] == Written();
      return true;
    }

    method WritePrefix(id: Identity, kind: string) returns (ok: bool)
      requires Valid() && Bytes(id.comm)
      modifies `pos, buf
      ensures Valid()
      ensures ok <==> |old(Written())| + |PrefixText(id, kind)| <= buf.Length
      ensures ok ==> Written() == old(Written()) + PrefixText(id, kind)
    {
      hide Valid, Written, Fmt, PrintString, Decimal;
      ok := WriteFmt(["{\"type\":\"", kind, "\",\"pid\":", Decimal(id.pid), ",\"tgid\":", Decimal(id.tgid), ",\"comm\":"]);
      if ok { ok := WriteJsonString(UpToNul(id.comm)); }
      if ok { ok := WriteFmt([",\"ts_ns\":", Decimal(id.tsNs)]); }
    }

    method WriteExec(uid: U32, cgroupId: U64, filename: string) returns (ok: bool)
      requires Valid() && Bytes(filename)
      modifies `pos, buf
      ensures Valid()
      ensures ok <==> |old(Written())| + |ExecText(uid, cgroupId, filename)| <= buf.Length
      ensures ok ==> Written() == old(Written()) + ExecText(uid, cgroupId, filename)
    {
      hide Valid, Written, Fmt, PrintString, Decimal;
      ok := WriteFmt([",\"uid\":", Decimal(uid), ",\"cgroup_id\":", Decimal(cgroupId)]);
      if ok && filename != [] {
        ok := WriteStr(",\"args\":[");
        if ok { ok := WriteJsonString(filename); }
        if ok { ok := WriteByte(']'); }
      }
    }

    method WriteOpen(path: string, flags: U32, truncated: bool) returns (ok: bool)
      requires Valid() && Bytes(path)
      modifies `pos, buf
      ensures Valid()
      ensures ok <==> |old(Written())| + |OpenText(path, flags, truncated)| <= buf.Length
      ensures ok ==> Written() == old(Written()) + OpenText(path, flags, truncated)
    {
      hide Valid, Written, FlagsText, PrintString;
      ok := true;
      if path != [] {
        ok := WriteStr(",\"path\":");
        if ok { ok := WriteJsonString(path); }
        if ok { ok := WriteFlags(flags, truncated); }
      }
    }

    method WriteFlags(flags: U32, truncated: bool) returns (ok: bool)
      requires Valid()
      modifies `pos, buf
      ensures Valid()
      ensures ok <==> |old(Written())| + |FlagsText(flags, truncated)| <= buf.Length
      ensures ok ==> Written() == old(Written()) + FlagsText(flags, truncated)
    {
      hide Valid, Written, Fmt, Decimal;
      ok := WriteFmt([",\"flags\":", Decimal(flags)]);
      if ok && truncated { ok := WriteStr(",\"path_truncated\":true"); }
    }

    method WriteRecord(id: Identity, ev: Evidence) returns (ok: bool)
      requires Valid() && ValidIdentity(id) && ValidEvidence(ev)
      modifies `pos, buf
      ensures Valid()
      ensures ok <==> |old(Written())| + |RecordText(id, ev)| <= buf.Length
      ensures ok ==> Written() == old(Written()) + RecordText(id, ev)
    {
      hide Valid, Written, PrefixText, ExecText, OpenText, ConnectPieces, Fmt;
      ok := WritePrefix(id, KindOf(ev));
      if ok {
        match ev
        case Exec(uid, cgroupId, filename) => ok := WriteExec(uid, cgroupId, filename);
        case Open(path, flags, truncated) => ok := WriteOpen(path, flags, truncated);
        case Connect(destination) => ok := WriteFmt(ConnectPieces(destination));
      }
      if ok {
        ok := WriteByte('}');
      }
    }
  }

  lemma EscapedStep(bytes: string, i: nat)
    requires i < |bytes| && Bytes(bytes)
    ensures Escaped(bytes[..i + 1]) == Escaped(bytes[..i]) + EscapeByte(bytes[i])
  {
    assert bytes[..i + 1] == bytes[..i] + [bytes[i]];
    EscapedConcat(bytes[..i], [bytes[i]]);
  }

  lemma EscapedFrom(bytes: string, i: nat)
    requires i <= |bytes| && Bytes(bytes)
    ensures |Escaped(bytes[..i])| <= |Escaped(bytes)| && Escaped(bytes[..0]) == []
    ensures i < |bytes| ==> |Escaped(bytes[..i])| + |EscapeByte(bytes[i])| <= |Escaped(bytes)|
  {
    assert bytes == bytes[..i] + bytes[i..];
    EscapedConcat(bytes[..i], bytes[i..]);
  }

  // ----- The ring buffer -----

  function Zeros(n: nat): string {
    seq(n, _ => '\0')
  }

  /** What userspace finds in a submitted slot. */
  function Slot(text: string): string
    requires |text| <= RECORD_MAX
  {
    text + Zeros(RECORD_MAX - |text|)
  }

  /** A slot has 512 bytes: the text, and zeros behind it. */
  lemma SlotIs(text: string)
    requires |text| <= RECORD_MAX
    ensures var slot := Slot(text);
            |slot| == 512 && slot[..|text|] == text && forall i | |text| <= i < 512 :: slot[i] == '\0'
  {
  }

  /** The slots submitted so far, in order. */
  class RingBuf {
    var submitted: seq<string>

    constructor ()
      ensures submitted == []
    {
      submitted := [];
    }

    /** `emit_record`: `reserved` says whether the ring still had room for a slot. */
    method EmitRecord(reserved: bool, id: Identity, ev: Evidence) returns (code: int)
      requires ValidIdentity(id) && ValidEvidence(ev)
      modifies this
      ensures var text := RecordText(id, ev);
              if reserved && |text| <= RECORD_MAX
              then code == 0 && submitted == old(submitted) + [Slot(text)]
              else code == 1 && submitted == old(submitted)
    {
      hide RecordText;
      if !reserved {
        return 1;
      }
      var entry := new char[RECORD_MAX];
      forall i | 0 <= i < RECORD_MAX {
        entry[i] := '\0';
      }
      var writer := new RecordWriter(entry);
      var wrote := writer.WriteRecord(id, ev);
      if wrote {
        assert entry[..writer.pos] == RecordText(id, ev);
        assert entry[..] == Slot(RecordText(id, ev));
        submitted := submitted + [entry[..]];
        return 0;
      } else {
        return 1;
      }
    }
  }
}
