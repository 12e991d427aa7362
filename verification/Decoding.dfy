/** What `decode_record` of asg-collector/src/source/linux.rs makes of objects the probe does not write: which it
    refuses, and what stands for fields that are missing. */
module Decoding {
  import opened Options
  import opened Events
  import opened Json
  import opened Probe
  import opened Collector
  import opened RoundTrip

  /** The text of an object with these fields. */
  function ObjectText(es: seq<Entry>): string
    requires es != [] && Renderable(es)
  {
    PrintObject(FieldsOf(es))
  }

  lemma {:induction false} NothingCut(s: string)
    requires '\0' !in s
    ensures UpToNul(s) == s
  {
    if s != [] {
      assert s[0] in s;
      NothingCut(s[1..]);
      assert [s[0]] + s[1..] == s;
    }
  }

  lemma {:induction false} CutAt(s: string, y: string)
    requires '\0' !in s
    ensures UpToNul(s + "\0" + y) == s
  {
    var all := s + "\0" + y;
    if s == [] {
      assert all[0] == '\0';
    } else {
      assert s[0] in s && all[0] == s[0] && all[1..] == s[1..] + "\0" + y;
      CutAt(s[1..], y);
      assert [s[0]] + s[1..] == s;
    }
  }

  lemma ObjectTextIsPlain(es: seq<Entry>)
    requires es != [] && Renderable(es)
    ensures '\0' !in ObjectText(es)
  {
    hide PrintFields;
    FieldsArePrintable(FieldsOf(es));
    assert Printable(ObjectText(es));
  }

  lemma ObjectDecodes(es: seq<Entry>)
    requires es != [] && Renderable(es)
    ensures DecodeRecord(ObjectText(es)) ==
            if !WellTyped(es) then Malformed
            else match Widen(ToRecord(es))
              case Some(event) => Decoded(event)
              case None => UnproducibleKind(ToRecord(es).kind)
  {
    hide WellTyped, Widen, ToRecord, ReadObject, PrintFields;
    ObjectTextIsPlain(es);
    NothingCut(ObjectText(es));
    ObjectReadsBack(FieldsOf(es));
    EntriesOfFields(es);
  }

  /** Whatever follows a zero byte is ignored; any other text behind an object makes it malformed. */
  lemma WhatMayFollow(es: seq<Entry>, x: string)
    requires es != [] && Renderable(es)
    ensures DecodeRecord(ObjectText(es) + "\0" + x) == DecodeRecord(ObjectText(es))
    ensures x != "" && '\0' !in x ==> DecodeRecord(ObjectText(es) + x) == Malformed
  {
    hide WellTyped, Widen, ToRecord, ReadObject, PrintObject;
    ObjectTextIsPlain(es);
    CutAt(ObjectText(es), x);
    NothingCut(ObjectText(es));
    if x != "" && '\0' !in x {
      NothingCut(ObjectText(es) + x);
      TrailingTextIsRefused(FieldsOf(es), x);
    }
  }

  // ----- Which objects are refused -----

  /** The value a field of this name may have. */
  predicate HasType(n: Name, v: Json) {
    match n
    case Kind => v.Text?
    case Comm => v.Text?
    case Path => v.Text?
    case Daddr => v.Text?
    case Family => v.Text?
    case Pid => v.Number? && v.n <= 0xFFFF_FFFF
    case Tgid => v.Number? && v.n <= 0xFFFF_FFFF
    case Uid => v.Number? && v.n <= 0xFFFF_FFFF
    case Flags => v.Number? && v.n <= 0xFFFF_FFFF
    case TsNs => v.Number? && v.n <= 0xFFFF_FFFF_FFFF_FFFF
    case CgroupId => v.Number? && v.n <= 0xFFFF_FFFF_FFFF_FFFF
    case Dport => v.Number? && v.n <= 0xFFFF
    case Args => v.Singleton?
    case PathTruncated => v.True?
    case Ignored => true
  }

  ghost predicate Names(es: seq<Entry>, n: Name) {
    exists i | 0 <= i < |es| :: es[i].name == n
  }

  ghost predicate NamesDiffer(es: seq<Entry>) {
    forall i, j | 0 <= i < j < |es| :: es[i].name != es[j].name
  }

  lemma {:induction false} LookupMisses(es: seq<Entry>, n: Name)
    ensures Lookup(es, n) == None <==> !Names(es, n)
  {
    if es != [] {
      LookupMisses(es[1..], n);
      if Names(es[1..], n) {
        var i :| 0 <= i < |es[1..]| && es[1..][i].name == n;
        assert es[i + 1].name == n;
      }
      if Names(es, n) {
        var i :| 0 <= i < |es| && es[i].name == n;
        assert i > 0 ==> es[1..][i - 1].name == n;
      }
    }
  }

  /** What is looked up has its type where every field does. */
  ghost predicate FoundTyped(es: seq<Entry>, n: Name) {
    Lookup(es, n) == None || HasType(n, Lookup(es, n).value)
  }

  lemma {:induction false} LookupIsEntry(es: seq<Entry>, n: Name)
    requires Lookup(es, n).Some?
    ensures exists i | 0 <= i < |es| :: es[i].name == n && es[i].value == Lookup(es, n).value
  {
    if es[0].name != n {
      LookupIsEntry(es[1..], n);
      var i :| 0 <= i < |es[1..]| && es[1..][i].name == n && es[1..][i].value == Lookup(es, n).value;
      assert es[i + 1] == es[1..][i];
    }
  }

  lemma TypedExactly(es: seq<Entry>)
    requires Renderable(es) && NamesDiffer(es)
    ensures (forall i | 0 <= i < |es| :: HasType(es[i].name, es[i].value)) <==> forall n :: FoundTyped(es, n)
  {
    hide Lookup, HasType;
    if forall i | 0 <= i < |es| :: HasType(es[i].name, es[i].value) {
      forall n ensures FoundTyped(es, n) {
        if Lookup(es, n).Some? {
          LookupIsEntry(es, n);
        }
      }
    }
    if forall n :: FoundTyped(es, n) {
      forall i | 0 <= i < |es| ensures HasType(es[i].name, es[i].value) {
        LookupFinds(es, i);
        assert FoundTyped(es, es[i].name);
      }
    }
  }

  lemma WellTypedExactly(es: seq<Entry>)
    requires Renderable(es)
    ensures WellTyped(es) <==>
            NamesDiffer(es) &&
            Lookup(es, Kind) != None && Lookup(es, Pid) != None && Lookup(es, Tgid) != None &&
            Lookup(es, Comm) != None && Lookup(es, TsNs) != None &&
            forall n :: FoundTyped(es, n)
  {
    hide Lookup, HasType, WellTyped, NoDuplicates, FoundTyped;
    NoDuplicatesIs(es);
    if WellTyped(es) {
      forall n ensures FoundTyped(es, n) {
        TypedField(es, n);
      }
      WellTypedHasIdentity(es);
    }
    if NoDuplicates(es) && Lookup(es, Kind) != None && Lookup(es, Pid) != None && Lookup(es, Tgid) != None &&
       Lookup(es, Comm) != None && Lookup(es, TsNs) != None && forall n :: FoundTyped(es, n)
    {
      FieldsAreTyped(es);
    }
  }

  lemma NoDuplicatesIs(es: seq<Entry>)
    requires Renderable(es)
    ensures NoDuplicates(es) <==> NamesDiffer(es)
  {
  }

  lemma TypedField(es: seq<Entry>, n: Name)
    requires WellTyped(es)
    ensures FoundTyped(es, n)
  {
    hide Lookup, NoDuplicates;
  }

  lemma WellTypedHasIdentity(es: seq<Entry>)
    requires WellTyped(es)
    ensures Lookup(es, Kind) != None && Lookup(es, Pid) != None && Lookup(es, Tgid) != None &&
            Lookup(es, Comm) != None && Lookup(es, TsNs) != None && NoDuplicates(es)
  {
    hide Lookup, NoDuplicates;
  }

  lemma FieldsAreTyped(es: seq<Entry>)
    requires NoDuplicates(es) && forall n :: FoundTyped(es, n)
    requires Lookup(es, Kind) != None && Lookup(es, Pid) != None && Lookup(es, Tgid) != None
    requires Lookup(es, Comm) != None && Lookup(es, TsNs) != None
    ensures WellTyped(es)
  {
    hide Lookup, NoDuplicates;
    assert FoundTyped(es, Kind) && FoundTyped(es, Pid) && FoundTyped(es, Tgid);
    assert FoundTyped(es, Comm) && FoundTyped(es, TsNs);
    assert FoundTyped(es, Args) && FoundTyped(es, Uid) && FoundTyped(es, CgroupId);
    assert FoundTyped(es, Path) && FoundTyped(es, Flags);
    assert FoundTyped(es, PathTruncated) && FoundTyped(es, Daddr) && FoundTyped(es, Dport) && FoundTyped(es, Family);
  }

  /** An object is refused exactly when it names a field twice, leaves one of the five identity fields out, or gives a
      field a value that is not of its type. */
  lemma MalformedExactly(es: seq<Entry>)
    requires es != [] && Renderable(es)
    ensures DecodeRecord(ObjectText(es)) != Malformed <==>
            NamesDiffer(es) &&
            Names(es, Kind) && Names(es, Pid) && Names(es, Tgid) && Names(es, Comm) && Names(es, TsNs) &&
            forall i | 0 <= i < |es| :: HasType(es[i].name, es[i].value)
  {
    hide WellTyped, Widen, ToRecord, ObjectText, DecodeRecord, Lookup, HasType, Names, FoundTyped, NamesDiffer, Renderable;
    ObjectDecodes(es);
    WellTypedExactly(es);
    forall n ensures Lookup(es, n) == None <==> !Names(es, n) {
      LookupMisses(es, n);
    }
    if NamesDiffer(es) {
      TypedExactly(es);
    }
  }

  // ----- Missing evidence -----

  function Bare(kind: string, pid: U32, tgid: U32, comm: string, tsNs: U64): (es: seq<Entry>)
    requires Bytes(kind) && Bytes(comm)
    ensures es != [] && Renderable(es)
  {
    [Entry(Kind, Text(kind)), Entry(Pid, Number(pid)), Entry(Tgid, Number(tgid)), Entry(Comm, Text(comm)),
     Entry(TsNs, Number(tsNs))]
  }

  lemma BareLookups(kind: string, pid: U32, tgid: U32, comm: string, tsNs: U64, n: Name)
    requires Bytes(kind) && Bytes(comm)
    ensures Lookup(Bare(kind, pid, tgid, comm, tsNs), n) ==
            match n
            case Kind => Some(Text(kind))
            case Pid => Some(Number(pid))
            case Tgid => Some(Number(tgid))
            case Comm => Some(Text(comm))
            case TsNs => Some(Number(tsNs))
            case _ => None
  {
    hide Lookup, Bytes;
    var es := Bare(kind, pid, tgid, comm, tsNs);
    var a, b, c, d, e := es[0], es[1], es[2], es[3], es[4];
    assert es == [a] + ([b] + [c, d, e]);
    LookupFirst(a, [b] + [c, d, e], n);
    LookupFirst(b, [c, d, e], n);
    LookupShort(c, d, e, n);
    LookupShort(d, e, e, n);
  }

  lemma BareRecord(kind: string, pid: U32, tgid: U32, comm: string, tsNs: U64)
    requires Bytes(kind) && Bytes(comm)
    ensures var es := Bare(kind, pid, tgid, comm, tsNs);
            WellTyped(es) &&
            ToRecord(es) == KernelRecord(kind, pid, tgid, comm, tsNs, [], None, None, None, None, false, None, None, None)
  {
    var es := Bare(kind, pid, tgid, comm, tsNs);
    hide Lookup, Bytes, Bare, NoDuplicates;
    forall n ensures Lookup(es, n) ==
                     match n
                     case Kind => Some(Text(kind))
                     case Pid => Some(Number(pid))
                     case Tgid => Some(Number(tgid))
                     case Comm => Some(Text(comm))
                     case TsNs => Some(Number(tsNs))
                     case _ => None
    {
      BareLookups(kind, pid, tgid, comm, tsNs, n);
    }
    BareHasNoDuplicates(kind, pid, tgid, comm, tsNs);
  }

  /** The sentinels that stand for evidence a record does not have, and a kind no probe writes. */
  lemma BareRecordDecodes(kind: string, pid: U32, tgid: U32, comm: string, tsNs: U64)
    requires Bytes(kind) && Bytes(comm)
    ensures var decoded := DecodeRecord(ObjectText(Bare(kind, pid, tgid, comm, tsNs)));
            if kind == "proc_exec" then decoded == Decoded(ProcExec(pid, tgid, 0, 0, comm, [], 0xFFFF_FFFF, tsNs))
            else if kind == "file_open" then decoded == Decoded(FileOpen(pid, tgid, comm, "", 0, tsNs, false))
            else if kind == "net_connect" then decoded == Decoded(NetConnect(pid, tgid, comm, "", 0, "", tsNs))
            else decoded == UnproducibleKind(kind)
  {
    hide WellTyped, ToRecord, Bytes, DecodeRecord, ObjectText, Bare, Renderable;
    ObjectDecodes(Bare(kind, pid, tgid, comm, tsNs));
    BareRecord(kind, pid, tgid, comm, tsNs);
    var none := "";
    assert none + none == none;
  }

  lemma BareHasNoDuplicates(kind: string, pid: U32, tgid: U32, comm: string, tsNs: U64)
    requires Bytes(kind) && Bytes(comm)
    ensures NoDuplicates(Bare(kind, pid, tgid, comm, tsNs))
  {
  }
}
