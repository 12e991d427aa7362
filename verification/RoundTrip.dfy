/** The wire round trip: what the probe submits is decoded to exactly the event its capture stands for. */
module RoundTrip {
  import opened Options
  import opened Events
  import opened Numerals
  import opened Json
  import opened Network
  import opened Probe
  import opened Collector
  import Glob

  // ----- What a probe's capture means -----

  /** The event a capture stands for, with the documented sentinels for evidence that could not be read. */
  function IntendedEvent(id: Identity, ev: Evidence): Event
    requires ValidEvidence(ev)
  {
    var comm := UpToNul(id.comm);
    match ev
    case Exec(uid, cgroupId, filename) =>
      ProcExec(id.pid, id.tgid, 0, cgroupId, comm,
               if filename == [] then [] else [filename], uid, id.tsNs)
    case Open(path, flags, truncated) =>
      if path == [] then FileOpen(id.pid, id.tgid, comm, "", 0, id.tsNs, false)
      else FileOpen(id.pid, id.tgid, comm, path + (if truncated then "<truncated>" else ""),
                    flags, id.tsNs, flags % 4 != 0)
    case Connect(None) => NetConnect(id.pid, id.tgid, comm, "", 0, "", id.tsNs)
    case Connect(Some(DestV4(octets, port))) =>
      NetConnect(id.pid, id.tgid, comm, PrintV4(octets), port, "IPv4", id.tsNs)
    case Connect(Some(DestV6(segments, port))) =>
      NetConnect(id.pid, id.tgid, comm, PrintV6(segments), port, "IPv6", id.tsNs)
    case Connect(Some(DestOther(family))) =>
      NetConnect(id.pid, id.tgid, comm, "", 0, "AF_" + Decimal(family), id.tsNs)
  }

  // ----- The record as a list of fields -----

  lemma NameRoundTrip(n: Name)
    requires n != Ignored
    ensures NameOf(NameText(n)) == n
  {
    var s := NameText(n);
    assert "type"[0] == 't' && "type"[1] == 'y' && "tgid"[1] == 'g' && "comm"[0] == 'c' && "args"[0] == 'a' && "path"[0] == 'p';
    assert "pid"[0] == 'p' && "uid"[0] == 'u';
    assert "ts_ns"[0] == 't' && "flags"[0] == 'f' && "daddr"[1] == 'a' && "dport"[1] == 'p' && "daddr"[0] == 'd';
    assert s[0] == NameText(n)[0] && s[1] == NameText(n)[1];
  }

  lemma NamesArePlain(n: Name)
    requires n != Ignored
    ensures Bytes(NameText(n)) && Escaped(NameText(n)) == NameText(n)
  {
    hide Escaped, EscapeByte;
    EscapedLength(NameText(n));
  }

  function EvidenceEntries(ev: Evidence): seq<Entry>
    requires ValidEvidence(ev)
  {
    match ev
    case Exec(uid, cgroupId, filename) =>
      CredentialEntries(uid, cgroupId) +
      (if filename == [] then [] else [Entry(Args, Singleton(filename))])
    case Open(path, flags, truncated) =>
      if path == [] then []
      else [Entry(Path, Text(path))] + FlagEntries(flags, truncated)
    case Connect(None) => []
    case Connect(Some(DestV4(octets, port))) => AddressEntries(PrintV4(octets), port, "IPv4")
    case Connect(Some(DestV6(segments, port))) => AddressEntries(PrintV6(segments), port, "IPv6")
    case Connect(Some(DestOther(family))) => [Entry(Family, Text("AF_" + Decimal(family)))]
  }

  function CredentialEntries(uid: U32, cgroupId: U64): (es: seq<Entry>)
    ensures Renderable(es)
  {
    [Entry(Uid, Number(uid)), Entry(CgroupId, Number(cgroupId))]
  }

  function FlagEntries(flags: U32, truncated: bool): (es: seq<Entry>)
    ensures Renderable(es)
  {
    [Entry(Flags, Number(flags))] + (if truncated then [Entry(PathTruncated, True)] else [])
  }

  function AddressEntries(daddr: string, port: U16, family: string): seq<Entry> {
    [Entry(Daddr, Text(daddr)), Entry(Dport, Number(port)), Entry(Family, Text(family))]
  }

  function IdentityEntries(id: Identity, kind: string): seq<Entry> {
    [Entry(Kind, Text(kind)), Entry(Pid, Number(id.pid)), Entry(Tgid, Number(id.tgid)),
     Entry(Comm, Text(UpToNul(id.comm))), Entry(TsNs, Number(id.tsNs))]
  }

  function RecordEntries(id: Identity, ev: Evidence): seq<Entry>
    requires ValidEvidence(ev)
  {
    IdentityEntries(id, KindOf(ev)) + EvidenceEntries(ev)
  }

  lemma {:induction false} LookupFinds(es: seq<Entry>, i: nat)
    requires i < |es| && NoDuplicates(es) && es[i].name != Ignored
    ensures Lookup(es, es[i].name) == Some(es[i].value)
    decreases |es|
  {
    if i > 0 {
      assert NoDuplicates(es[1..]);
      LookupFinds(es[1..], i - 1);
    }
  }

  lemma KindsDiffer()
    ensures "proc_exec" != "file_open" && "proc_exec" != "net_connect" && "file_open" != "net_connect"
  {
    assert "proc_exec"[0] == 'p' && "file_open"[0] == 'f';
  }

  lemma LookupFirst(e: Entry, rest: seq<Entry>, n: Name)
    ensures Lookup([e] + rest, n) == if e.name == n then Some(e.value) else Lookup(rest, n)
  {
    assert ([e] + rest)[1..] == rest;
  }

  /** Lists of up to three entries. */
  lemma LookupShort(a: Entry, b: Entry, c: Entry, n: Name)
    ensures Lookup([], n) == None
    ensures Lookup([a], n) == if a.name == n then Some(a.value) else None
    ensures Lookup([a, b], n) == if a.name == n then Some(a.value) else if b.name == n then Some(b.value) else None
    ensures Lookup([a, b, c], n) == if a.name == n then Some(a.value) else Lookup([b, c], n)
  {
    LookupFirst(a, [], n);
    LookupFirst(b, [], n);
    LookupFirst(a, [b], n);
    LookupFirst(a, [b, c], n);
    assert [a] + [] == [a] && [b] + [] == [b] && [a] + [b] == [a, b] && [a] + [b, c] == [a, b, c];
  }

  predicate IdentityName(n: Name) {
    n.Kind? || n.Pid? || n.Tgid? || n.Comm? || n.TsNs?
  }

  /** The identity fields do not hide the fields behind them. */
  lemma LookupBehind(id: Identity, kind: string, rest: seq<Entry>, n: Name)
    requires !IdentityName(n)
    ensures Lookup(IdentityEntries(id, kind) + rest, n) == Lookup(rest, n)
  {
    hide Lookup, UpToNul;
    var i := IdentityEntries(id, kind);
    var r4 := [i[4]] + rest;
    var r3 := [i[3]] + r4;
    var r2 := [i[2]] + r3;
    var r1 := [i[1]] + r2;
    assert i + rest == [i[0]] + r1;
    LookupFirst(i[0], r1, n);
    LookupFirst(i[1], r2, n);
    LookupFirst(i[2], r3, n);
    LookupFirst(i[3], r4, n);
    LookupFirst(i[4], rest, n);
  }

  lemma IdentityLookups(es: seq<Entry>, id: Identity, kind: string)
    requires |es| >= 5 && es[..5] == IdentityEntries(id, kind) && NoDuplicates(es)
    ensures IdentityFound(es, id, kind)
  {
    var head := IdentityEntries(id, kind);
    assert es[0] == head[0] && es[1] == head[1] && es[2] == head[2] && es[3] == head[3] && es[4] == head[4];
    LookupFinds(es, 0);
    LookupFinds(es, 1);
    LookupFinds(es, 2);
    LookupFinds(es, 3);
    LookupFinds(es, 4);
  }

  lemma NoDuplicatesConcat(a: seq<Entry>, b: seq<Entry>)
    requires NoDuplicates(a) && NoDuplicates(b)
    requires forall i, j | 0 <= i < |a| && 0 <= j < |b| :: a[i].name != b[j].name
    ensures NoDuplicates(a + b)
  {
  }

  lemma IdentityEntriesDistinct(id: Identity, kind: string)
    ensures NoDuplicates(IdentityEntries(id, kind))
    ensures forall i | 0 <= i < 5 :: IdentityName(IdentityEntries(id, kind)[i].name)
  {
    hide UpToNul;
  }

  lemma EvidenceNamesDistinct(ev: Evidence)
    requires ValidEvidence(ev)
    ensures NoDuplicates(EvidenceEntries(ev))
    ensures forall i | 0 <= i < |EvidenceEntries(ev)| ::
              !IdentityName(EvidenceEntries(ev)[i].name) && EvidenceEntries(ev)[i].name != Ignored
  {
    hide PrintV4, PrintV6, Decimal;
  }

  lemma EvidenceEntriesDistinct(id: Identity, ev: Evidence)
    requires ValidEvidence(ev)
    ensures NoDuplicates(RecordEntries(id, ev))
    ensures forall i | 0 <= i < |RecordEntries(id, ev)| :: RecordEntries(id, ev)[i].name != Ignored
    ensures |RecordEntries(id, ev)| >= 5 && RecordEntries(id, ev)[..5] == IdentityEntries(id, KindOf(ev))
  {
    hide EvidenceEntries, KindOf, UpToNul, NoDuplicates;
    IdentityEntriesDistinct(id, KindOf(ev));
    EvidenceNamesDistinct(ev);
    NoDuplicatesConcat(IdentityEntries(id, KindOf(ev)), EvidenceEntries(ev));
  }

  /** The evidence fields of a record, looked up by name. */
  datatype Found = Found(args: Option<Json>, uid: Option<Json>, cgroupId: Option<Json>, path: Option<Json>,
                         flags: Option<Json>, truncated: Option<Json>, daddr: Option<Json>, dport: Option<Json>,
                         family: Option<Json>)

  function FoundIn(es: seq<Entry>): Found {
    Found(Lookup(es, Args), Lookup(es, Uid), Lookup(es, CgroupId), Lookup(es, Path), Lookup(es, Flags),
          Lookup(es, PathTruncated), Lookup(es, Daddr), Lookup(es, Dport), Lookup(es, Family))
  }

  function Expected(ev: Evidence): Found
    requires ValidEvidence(ev)
  {
    var none := Found(None, None, None, None, None, None, None, None, None);
    match ev
    case Exec(uid, cgroupId, filename) =>
      none.(uid := Some(Number(uid)), cgroupId := Some(Number(cgroupId)),
            args := if filename == [] then None else Some(Singleton(filename)))
    case Open(path, flags, truncated) =>
      if path == [] then none
      else none.(path := Some(Text(path)), flags := Some(Number(flags)), truncated := if truncated then Some(True) else None)
    case Connect(None) => none
    case Connect(Some(DestV4(octets, port))) =>
      none.(daddr := Some(Text(PrintV4(octets))), dport := Some(Number(port)), family := Some(Text("IPv4")))
    case Connect(Some(DestV6(segments, port))) =>
      none.(daddr := Some(Text(PrintV6(segments))), dport := Some(Number(port)), family := Some(Text("IPv6")))
    case Connect(Some(DestOther(family))) => none.(family := Some(Text("AF_" + Decimal(family))))
  }

  lemma ExecFound(uid: U32, cgroupId: U64, filename: string)
    requires Bytes(filename)
    ensures FoundIn(EvidenceEntries(Exec(uid, cgroupId, filename))) == Expected(Exec(uid, cgroupId, filename))
  {
    hide Lookup;
    var a, b, c := Entry(Uid, Number(uid)), Entry(CgroupId, Number(cgroupId)), Entry(Args, Singleton(filename));
    assert EvidenceEntries(Exec(uid, cgroupId, filename)) == if filename == [] then [a, b] else [a, b, c];
    forall n ensures Lookup([a, b], n) == (if n == Uid then Some(a.value) else if n == CgroupId then Some(b.value) else None)
             ensures Lookup([a, b, c], n) == if n == Args then Some(c.value) else Lookup([a, b], n)
    {
      LookupShort(a, b, c, n);
      LookupShort(b, c, a, n);
    }
  }

  lemma OpenFound(path: string, flags: U32, truncated: bool)
    requires Bytes(path)
    ensures FoundIn(EvidenceEntries(Open(path, flags, truncated))) == Expected(Open(path, flags, truncated))
  {
    hide Lookup;
    var a, b, c := Entry(Path, Text(path)), Entry(Flags, Number(flags)), Entry(PathTruncated, True);
    assert EvidenceEntries(Open(path, flags, truncated)) == if path == [] then [] else if truncated then [a, b, c] else [a, b];
    forall n ensures Lookup([], n) == None
             ensures Lookup([a, b], n) == (if n == Path then Some(a.value) else if n == Flags then Some(b.value) else None)
             ensures Lookup([a, b, c], n) == if n == PathTruncated then Some(c.value) else Lookup([a, b], n)
    {
      LookupShort(a, b, c, n);
      LookupShort(b, c, a, n);
    }
  }

  lemma AddressFound(daddr: string, port: U16, family: string)
    ensures FoundIn(AddressEntries(daddr, port, family)) ==
            Found(None, None, None, None, None, None, Some(Text(daddr)), Some(Number(port)), Some(Text(family)))
  {
    hide Lookup;
    var a, b, c := Entry(Daddr, Text(daddr)), Entry(Dport, Number(port)), Entry(Family, Text(family));
    forall n ensures Lookup([a, b, c], n) ==
                     if n == Daddr then Some(a.value) else if n == Dport then Some(b.value)
                     else if n == Family then Some(c.value) else None
    {
      LookupShort(a, b, c, n);
      LookupShort(b, c, a, n);
    }
  }

  lemma ConnectFound(destination: Option<Destination>)
    requires ValidEvidence(Connect(destination))
    ensures FoundIn(EvidenceEntries(Connect(destination))) == Expected(Connect(destination))
  {
    hide Lookup, PrintV4, PrintV6, Decimal, AddressEntries;
    match destination
    case Some(DestV4(octets, port)) => AddressFound(PrintV4(octets), port, "IPv4");
    case Some(DestV6(segments, port)) => AddressFound(PrintV6(segments), port, "IPv6");
    case Some(DestOther(family)) =>
      var a := Entry(Family, Text("AF_" + Decimal(family)));
      forall n ensures Lookup([a], n) == if n == Family then Some(a.value) else None { LookupShort(a, a, a, n); }
    case None =>
      var a := Entry(Ignored, True);
      forall n ensures Lookup([], n) == None { LookupShort(a, a, a, n); }
  }

  /** The evidence fields are found in the whole record. */
  lemma EvidenceFound(id: Identity, ev: Evidence)
    requires ValidEvidence(ev)
    ensures FoundIn(RecordEntries(id, ev)) == Expected(ev)
  {
    hide Lookup, IdentityEntries, EvidenceEntries, Expected;
    forall n | !IdentityName(n) ensures Lookup(RecordEntries(id, ev), n) == Lookup(EvidenceEntries(ev), n) {
      LookupBehind(id, KindOf(ev), EvidenceEntries(ev), n);
    }
    match ev
    case Exec(uid, cgroupId, filename) => ExecFound(uid, cgroupId, filename);
    case Open(path, flags, truncated) => OpenFound(path, flags, truncated);
    case Connect(destination) => ConnectFound(destination);
  }

  ghost predicate IdentityFound(es: seq<Entry>, id: Identity, kind: string) {
    && Lookup(es, Kind) == Some(Text(kind)) && Lookup(es, Pid) == Some(Number(id.pid))
    && Lookup(es, Tgid) == Some(Number(id.tgid)) && Lookup(es, Comm) == Some(Text(UpToNul(id.comm)))
    && Lookup(es, TsNs) == Some(Number(id.tsNs))
  }

  lemma FoundDecodes(es: seq<Entry>, id: Identity, ev: Evidence)
    requires ValidIdentity(id) && ValidEvidence(ev)
    requires NoDuplicates(es) && IdentityFound(es, id, KindOf(ev)) && FoundIn(es) == Expected(ev)
    ensures WellTyped(es) && Widen(ToRecord(es)) == Some(IntendedEvent(id, ev))
  {
    hide Lookup, UpToNul, NoDuplicates, PrintV4, PrintV6, Decimal;
    KindsDiffer();
    match ev
    case Exec(_, _, _) =>
    case Open(_, _, _) =>
      var none := "";
      assert none + none == none;
    case Connect(_) =>
  }

  /** The fields of a record deserialise, and widening them gives the intended event. */
  lemma EntriesDecode(id: Identity, ev: Evidence)
    requires ValidIdentity(id) && ValidEvidence(ev)
    ensures WellTyped(RecordEntries(id, ev))
    ensures Widen(ToRecord(RecordEntries(id, ev))) == Some(IntendedEvent(id, ev))
  {
    hide RecordEntries, Lookup, NoDuplicates, WellTyped, Widen, IntendedEvent, Expected, FoundIn;
    EvidenceEntriesDistinct(id, ev);
    IdentityLookups(RecordEntries(id, ev), id, KindOf(ev));
    EvidenceFound(id, ev);
    FoundDecodes(RecordEntries(id, ev), id, ev);
  }

  // ----- The rendering is that object -----

  ghost predicate Renderable(es: seq<Entry>) {
    forall i | 0 <= i < |es| :: es[i].name != Ignored && ValueBytes(es[i].value)
  }

  /** The fields under the names they have on the wire. */
  function FieldsOf(es: seq<Entry>): (fs: seq<Field>)
    requires Renderable(es)
    ensures FieldsBytes(fs) && |fs| == |es|
  {
    var fs := seq(|es|, i requires 0 <= i < |es| => Field(NameText(es[i].name), es[i].value));
    assert FieldsBytes(fs) by {
      forall i | 0 <= i < |fs| ensures Bytes(fs[i].name) {
        NamesArePlain(es[i].name);
      }
    }
    fs
  }

  lemma EntriesOfFields(es: seq<Entry>)
    requires Renderable(es)
    ensures Entries(FieldsOf(es)) == es
  {
    forall i | 0 <= i < |es| ensures Entries(FieldsOf(es))[i] == es[i] {
      NameRoundTrip(es[i].name);
    }
  }

  function TailOf(es: seq<Entry>): string
    requires Renderable(es)
  {
    Tail(FieldsOf(es))
  }

  lemma TailOfConcat(a: seq<Entry>, b: seq<Entry>)
    requires Renderable(a) && Renderable(b)
    ensures TailOf(a + b) == TailOf(a) + TailOf(b)
  {
    hide Tail, ValueBytes;
    TailConcat(FieldsOf(a), FieldsOf(b));
    var whole, parts := FieldsOf(a + b), FieldsOf(a) + FieldsOf(b);
    assert |whole| == |parts|;
    assert forall i | 0 <= i < |whole| :: whole[i] == parts[i];
    assert whole == parts;
  }

  /** One field behind a comma. */
  lemma TailOfOne(n: Name, v: Json)
    requires n != Ignored && ValueBytes(v)
    ensures TailOf([Entry(n, v)]) == Lead(n) + PrintValue(v)
  {
    hide Escaped, NameText;
    NamesArePlain(n);
    var f := FieldsOf([Entry(n, v)])[0];
    assert FieldsOf([Entry(n, v)]) == [f];
    assert Tail([f]) == "," + PrintField(f);
    assert "," + ("\"" + NameText(n) + "\"" + ":" + PrintValue(v)) == (",\"" + NameText(n) + "\":") + PrintValue(v);
  }

  lemma FmtPair(a: string, b: string)
    ensures Fmt([a, b]) == a + b
  {
    assert Fmt([b]) == b;
  }

  lemma {:induction false} FmtConcat(a: seq<string>, b: seq<string>)
    ensures Fmt(a + b) == Fmt(a) + Fmt(b)
    decreases |a|
  {
    if a == [] {
      assert a + b == b;
    } else {
      assert (a + b)[1..] == a[1..] + b;
      FmtConcat(a[1..], b);
    }
  }

  lemma FmtNumber(n: Name, v: nat)
    requires n != Ignored
    ensures Fmt([Lead(n), Decimal(v)]) == TailOf([Entry(n, Number(v))])
  {
    FmtPair(Lead(n), Decimal(v));
    TailOfOne(n, Number(v));
  }

  /** The text in front of the value of a field that is not the first. */
  function Lead(n: Name): string
    requires n != Ignored
  {
    ",\"" + NameText(n) + "\":"
  }

  /** The literals of the writer, taken apart. */
  lemma Leads()
    ensures ",\"pid\":" == Lead(Pid) && ",\"tgid\":" == Lead(Tgid) && ",\"comm\":" == Lead(Comm) && ",\"ts_ns\":" == Lead(TsNs)
    ensures ",\"uid\":" == Lead(Uid) && ",\"cgroup_id\":" == Lead(CgroupId) && ",\"args\":[" == Lead(Args) + "["
    ensures ",\"path\":" == Lead(Path) && ",\"flags\":" == Lead(Flags)
    ensures ",\"path_truncated\":true" == Lead(PathTruncated) + "true"
  {
  }

  lemma QuotedLeads()
    ensures ",\"daddr\":\"" == Lead(Daddr) + "\"" && "\",\"dport\":" == "\"" + Lead(Dport) && "\",\"pid\":" == "\"" + Lead(Pid)
    ensures ",\"family\":\"IPv4\"" == Lead(Family) + ("\"" + "IPv4" + "\"")
    ensures ",\"family\":\"IPv6\"" == Lead(Family) + ("\"" + "IPv6" + "\"")
    ensures ",\"family\":\"AF_" == Lead(Family) + "\"" + "AF_"
  {
  }

  lemma CredentialsTextIsTail(uid: U32, cgroupId: U64)
    ensures Fmt([",\"uid\":", Decimal(uid), ",\"cgroup_id\":", Decimal(cgroupId)]) == TailOf(CredentialEntries(uid, cgroupId))
  {
    hide TailOf, Fmt, Decimal, Lead;
    Leads();
    var u, c := [Lead(Uid), Decimal(uid)], [Lead(CgroupId), Decimal(cgroupId)];
    FmtNumber(Uid, uid);
    FmtNumber(CgroupId, cgroupId);
    FmtConcat(u, c);
    assert u + c == [Lead(Uid), Decimal(uid), Lead(CgroupId), Decimal(cgroupId)];
    TailOfConcat([Entry(Uid, Number(uid))], [Entry(CgroupId, Number(cgroupId))]);
    assert [Entry(Uid, Number(uid))] + [Entry(CgroupId, Number(cgroupId))] == CredentialEntries(uid, cgroupId);
  }

  lemma Bracketed(a: string, l: string, m: string, r: string)
    ensures (a + l) + m + r == a + (l + m + r)
  {
  }

  lemma ExecTextIsTail(uid: U32, cgroupId: U64, filename: string)
    requires Bytes(filename)
    ensures ExecText(uid, cgroupId, filename) == TailOf(EvidenceEntries(Exec(uid, cgroupId, filename)))
  {
    hide TailOf, Fmt, PrintString, CredentialEntries, Lead, Decimal;
    CredentialsTextIsTail(uid, cgroupId);
    var c := CredentialEntries(uid, cgroupId);
    if filename == [] {
      assert c + [] == c && TailOf(c) + "" == TailOf(c);
    } else {
      Leads();
      TailOfOne(Args, Singleton(filename));
      TailOfConcat(c, [Entry(Args, Singleton(filename))]);
      Bracketed(Lead(Args), "[", PrintString(filename), "]");
    }
  }

  lemma FlagsTextIsTail(flags: U32, truncated: bool)
    ensures FlagsText(flags, truncated) == TailOf(FlagEntries(flags, truncated))
  {
    hide TailOf, Fmt, Lead, Decimal;
    Leads();
    var f, t := [Entry(Flags, Number(flags))], [Entry(PathTruncated, True)];
    FmtNumber(Flags, flags);
    if truncated {
      TailOfConcat(f, t);
      TailOfOne(PathTruncated, True);
    } else {
      assert f + [] == f && TailOf(f) + "" == TailOf(f);
    }
  }

  lemma OpenTextIsTail(path: string, flags: U32, truncated: bool)
    requires Bytes(path)
    ensures OpenText(path, flags, truncated) == TailOf(EvidenceEntries(Open(path, flags, truncated)))
  {
    hide TailOf, PrintString, FlagsText, Lead, FlagEntries;
    if path == [] {
      EmptyTail();
    } else {
      Leads();
      TailOfOne(Path, Text(path));
      FlagsTextIsTail(flags, truncated);
      TailOfConcat([Entry(Path, Text(path))], FlagEntries(flags, truncated));
    }
  }

  predicate PlainText(s: string) {
    forall i | 0 <= i < |s| :: Plain(s[i])
  }

  lemma PlainPrints(s: string)
    requires PlainText(s)
    ensures Bytes(s) && PrintString(s) == "\"" + s + "\""
  {
    EscapedLength(s);
  }

  lemma AddressTextIsTail(pieces: seq<string>, daddr: string, port: U16, family: string, tail: string)
    requires Fmt(pieces) == daddr && PlainText(daddr) && PlainText(family)
    requires tail == Lead(Family) + ("\"" + family + "\"")
    ensures Renderable(AddressEntries(daddr, port, family))
    ensures Fmt(AddressPieces(pieces, port, tail)) == TailOf(AddressEntries(daddr, port, family))
  {
    hide TailOf, PrintString, PlainText, Decimal, Lead, Fmt, AddressPieces;
    PlainPrints(daddr);
    PlainPrints(family);
    QuotedLeads();
    var d, p, f := [Entry(Daddr, Text(daddr))], [Entry(Dport, Number(port))], [Entry(Family, Text(family))];
    assert AddressEntries(daddr, port, family) == d + (p + f);
    TailOfConcat(d, p + f);
    TailOfConcat(p, f);
    TailOfOne(Daddr, Text(daddr));
    TailOfOne(Dport, Number(port));
    TailOfOne(Family, Text(family));
    AddressPiecesText(pieces, port, tail);
    AddressBrackets(Lead(Daddr), "\"", daddr, Lead(Dport), Decimal(port), tail);
  }

  lemma AddressPiecesText(pieces: seq<string>, port: U16, tail: string)
    ensures Fmt(AddressPieces(pieces, port, tail)) ==
            ",\"daddr\":\"" + (Fmt(pieces) + ("\",\"dport\":" + (Decimal(port) + tail)))
  {
    hide Decimal;
    var head, rest := [",\"daddr\":\""], ["\",\"dport\":", Decimal(port), tail];
    FmtConcat(head + pieces, rest);
    FmtConcat(head, pieces);
    FmtSingle(head[0]);
    assert rest[1..] == [Decimal(port), tail];
    FmtPair(Decimal(port), tail);
  }

  lemma AddressBrackets(a: string, q: string, d: string, p: string, n: string, t: string)
    ensures (a + q) + (d + ((q + p) + (n + t))) == (a + (q + d + q)) + ((p + n) + t)
  {
  }

  lemma {:induction false} JoinedPlain(segs: seq<string>, sep: char)
    requires |segs| >= 1 && Plain(sep) && forall i | 0 <= i < |segs| :: PlainText(segs[i])
    ensures PlainText(Glob.Join(segs, sep))
  {
    if |segs| > 1 {
      JoinedPlain(segs[1..], sep);
    }
  }

  lemma NumeralIsPlain(n: nat, base: nat)
    requires ValidBase(base)
    ensures PlainText(Numeral(n, base))
  {
    NumeralDenotes(n, base);
  }

  lemma {:induction false} SeparatedIsJoined(parts: seq<string>, sep: char)
    requires |parts| >= 1
    ensures Fmt(Separated(parts, sep)) == Glob.Join(parts, sep)
    decreases |parts|
  {
    if |parts| == 1 {
      assert Fmt(parts) == parts[0] + [];
    } else {
      SeparatedIsJoined(parts[1..], sep);
      FmtConcat([parts[0], [sep]], Separated(parts[1..], sep));
      FmtPair(parts[0], [sep]);
    }
  }

  lemma PrintedAddressIsPlain(parts: seq<nat>, base: nat, sep: char)
    requires |parts| >= 1 && ValidBase(base) && (sep == '.' || sep == ':')
    ensures PlainText(Glob.Join(Network.Printed(parts, base), sep))
  {
    var segs := Network.Printed(parts, base);
    forall i | 0 <= i < |segs| ensures PlainText(segs[i]) {
      NumeralIsPlain(parts[i], base);
    }
    JoinedPlain(segs, sep);
  }

  lemma ConnectTextIsTail(destination: Option<Destination>)
    requires ValidEvidence(Connect(destination))
    ensures Renderable(EvidenceEntries(Connect(destination)))
    ensures Fmt(ConnectPieces(destination)) == TailOf(EvidenceEntries(Connect(destination)))
  {
    hide TailOf, Fmt, Decimal, AddressPieces, AddressEntries, Separated, Lead, Glob.Join;
    QuotedLeads();
    match destination
    case Some(DestV4(octets, port)) =>
      PrintedAddressIsPlain(octets, 10, '.');
      SeparatedIsJoined(Network.Printed(octets, 10), '.');
      AddressTextIsTail(Separated(Network.Printed(octets, 10), '.'), PrintV4(octets), port, "IPv4", ",\"family\":\"IPv4\"");
    case Some(DestV6(segments, port)) =>
      PrintedAddressIsPlain(segments, 16, ':');
      SeparatedIsJoined(Network.Printed(segments, 16), ':');
      AddressTextIsTail(Separated(Network.Printed(segments, 16), ':'), PrintV6(segments), port, "IPv6", ",\"family\":\"IPv6\"");
    case Some(DestOther(family)) => OtherFamilyIsTail(family);
    case None => EmptyTail();
  }

  lemma EmptyTail()
    ensures TailOf([]) == [] && Fmt([]) == []
  {
  }

  lemma FamilyNameIsPlain(family: U16)
    ensures PlainText("AF_" + Decimal(family))
  {
    NumeralIsPlain(family, 10);
  }

  lemma OtherFamilyIsTail(family: U16)
    ensures Bytes("AF_" + Decimal(family))
    ensures Fmt([",\"family\":\"AF_", Decimal(family), "\""]) == TailOf([Entry(Family, Text("AF_" + Decimal(family)))])
  {
    hide TailOf, Lead, Decimal, PlainText, PrintString, Bytes;
    var f := "AF_" + Decimal(family);
    FamilyNameIsPlain(family);
    PlainPrints(f);
    QuotedLeads();
    TailOfOne(Family, Text(f));
    var pieces := [",\"family\":\"AF_", Decimal(family), "\""];
    assert pieces[1..] == [Decimal(family), "\""];
    FmtPair(Decimal(family), "\"");
    FamilyBrackets(Lead(Family), "\"", "AF_", Decimal(family));
  }

  lemma FamilyBrackets(l: string, q: string, a: string, n: string)
    ensures (l + q + a) + (n + q) == l + (q + (a + n) + q)
  {
  }

  lemma EvidenceTextIsTail(ev: Evidence)
    requires ValidEvidence(ev)
    ensures Renderable(EvidenceEntries(ev)) && EvidenceText(ev) == TailOf(EvidenceEntries(ev))
  {
    hide TailOf, ExecText, OpenText, ConnectPieces, Fmt, AddressEntries, CredentialEntries, FlagEntries;
    match ev
    case Exec(uid, cgroupId, filename) => ExecTextIsTail(uid, cgroupId, filename);
    case Open(path, flags, truncated) => OpenTextIsTail(path, flags, truncated);
    case Connect(destination) => ConnectTextIsTail(destination);
  }

  function LaterIdentityEntries(id: Identity): seq<Entry> {
    [Entry(Pid, Number(id.pid)), Entry(Tgid, Number(id.tgid))] +
    [Entry(Comm, Text(UpToNul(id.comm)))] + [Entry(TsNs, Number(id.tsNs))]
  }

  lemma PidTextIsTail(id: Identity)
    ensures "\"" + TailOf([Entry(Pid, Number(id.pid)), Entry(Tgid, Number(id.tgid))]) ==
            Fmt(["\",\"pid\":", Decimal(id.pid), ",\"tgid\":", Decimal(id.tgid)])
  {
    hide TailOf, Fmt, Decimal, Lead;
    Leads();
    QuotedLeads();
    var q, d, e := "\"" + Lead(Pid), Decimal(id.pid), Decimal(id.tgid);
    FmtNumber(Pid, id.pid);
    FmtNumber(Tgid, id.tgid);
    FmtPair(Lead(Pid), d);
    FmtPair(q, d);
    assert [q, d] + [Lead(Tgid), e] == [q, d, Lead(Tgid), e];
    FmtConcat([q, d], [Lead(Tgid), e]);
    var p, t := [Entry(Pid, Number(id.pid))], [Entry(Tgid, Number(id.tgid))];
    TailOfConcat(p, t);
    assert p + t == [Entry(Pid, Number(id.pid)), Entry(Tgid, Number(id.tgid))];
    QuoteBrackets("\"", Lead(Pid), d, TailOf(t));
  }

  lemma QuoteBrackets(q: string, l: string, d: string, t: string)
    ensures q + ((l + d) + t) == ((q + l) + d) + t
  {
  }

  /** The opening `write!` of a record. */
  lemma OpeningText(id: Identity, kind: string)
    ensures Fmt(["{\"type\":\"", kind, "\",\"pid\":", Decimal(id.pid), ",\"tgid\":", Decimal(id.tgid), ",\"comm\":"]) ==
            ("{\"type\":\"" + kind + "\"") + TailOf([Entry(Pid, Number(id.pid)), Entry(Tgid, Number(id.tgid))]) + ",\"comm\":"
  {
    hide TailOf, Fmt, Decimal;
    PidTextIsTail(id);
    var a, b, c := ["{\"type\":\"", kind], ["\",\"pid\":", Decimal(id.pid), ",\"tgid\":", Decimal(id.tgid)], [",\"comm\":"];
    assert ["{\"type\":\"", kind, "\",\"pid\":", Decimal(id.pid), ",\"tgid\":", Decimal(id.tgid), ",\"comm\":"] == a + b + c;
    FmtConcat(a + b, c);
    FmtConcat(a, b);
    FmtPair("{\"type\":\"", kind);
    FmtSingle(",\"comm\":");
    var tail := TailOf([Entry(Pid, Number(id.pid)), Entry(Tgid, Number(id.tgid))]);
    assert ("{\"type\":\"" + kind) + ("\"" + tail) == ("{\"type\":\"" + kind + "\"") + tail;
  }

  lemma FmtSingle(a: string)
    ensures Fmt([a]) == a
  {
    assert a + [] == a;
  }

  lemma PrefixTextIsHead(id: Identity, kind: string)
    requires ValidIdentity(id) && PlainText(kind)
    ensures Renderable(LaterIdentityEntries(id)) && Bytes(kind)
    ensures PrefixText(id, kind) == "{" + PrintField(Field("type", Text(kind))) + TailOf(LaterIdentityEntries(id))
  {
    var comm := UpToNul(id.comm);
    hide TailOf, Fmt, Decimal, PrintString, PlainText, UpToNul, Lead;
    PlainPrints(kind);
    TypeIsPlain();
    PlainPrints("type");
    OpeningText(id, kind);
    LaterTail(id);
    TypeBrackets(kind);
    HeadBrackets("{\"type\":\"" + kind + "\"", TailOf([Entry(Pid, Number(id.pid)), Entry(Tgid, Number(id.tgid))]),
                 ",\"comm\":", PrintString(comm), Fmt([",\"ts_ns\":", Decimal(id.tsNs)]));
  }

  lemma LaterTail(id: Identity)
    requires ValidIdentity(id)
    ensures Renderable(LaterIdentityEntries(id))
    ensures TailOf(LaterIdentityEntries(id)) ==
            TailOf([Entry(Pid, Number(id.pid)), Entry(Tgid, Number(id.tgid))]) +
            (",\"comm\":" + PrintString(UpToNul(id.comm))) + Fmt([",\"ts_ns\":", Decimal(id.tsNs)])
  {
    hide TailOf, Fmt, Decimal, PrintString, UpToNul, Lead;
    Leads();
    var p := [Entry(Pid, Number(id.pid)), Entry(Tgid, Number(id.tgid))];
    var c, t := [Entry(Comm, Text(UpToNul(id.comm)))], [Entry(TsNs, Number(id.tsNs))];
    TailOfConcat(p + c, t);
    TailOfConcat(p, c);
    TailOfOne(Comm, Text(UpToNul(id.comm)));
    FmtNumber(TsNs, id.tsNs);
  }

  lemma TypeIsPlain()
    ensures PlainText("type")
  {
  }

  lemma TypeBrackets(kind: string)
    ensures "{\"type\":\"" + kind + "\"" == "{" + ("\"" + "type" + "\"" + ":" + ("\"" + kind + "\""))
  {
    assert "{\"type\":\"" == "{" + ("\"" + "type" + "\"" + ":" + "\"");
  }

  lemma HeadBrackets(a: string, p: string, l: string, c: string, t: string)
    ensures (a + p + l) + c + t == a + (p + (l + c) + t)
  {
  }

  lemma IdentityEntriesSplit(id: Identity, kind: string)
    requires ValidIdentity(id) && PlainText(kind)
    ensures IdentityEntries(id, kind) == [Entry(Kind, Text(kind))] + LaterIdentityEntries(id)
    ensures Renderable(IdentityEntries(id, kind)) && Bytes(kind)
  {
    PlainPrints(kind);
  }

  lemma KindIsPlain(ev: Evidence)
    ensures PlainText(KindOf(ev))
  {
  }

  /** What the writer renders is the JSON object with the fields of the record. */
  lemma RecordTextIsObject(id: Identity, ev: Evidence)
    requires ValidIdentity(id) && ValidEvidence(ev)
    ensures RecordEntries(id, ev) != [] && Renderable(RecordEntries(id, ev))
    ensures RecordText(id, ev) == PrintObject(FieldsOf(RecordEntries(id, ev)))
  {
    hide PrefixText, EvidenceText, EvidenceEntries, IdentityEntries, Tail, PrintField, KindOf;
    var kind, later, rest := KindOf(ev), LaterIdentityEntries(id), EvidenceEntries(ev);
    KindIsPlain(ev);
    IdentityEntriesSplit(id, kind);
    PrefixTextIsHead(id, kind);
    EvidenceTextIsTail(ev);
    var es := RecordEntries(id, ev);
    assert es == [Entry(Kind, Text(kind))] + (later + rest);
    TailOfConcat(later, rest);
    var fs := FieldsOf(es);
    PrintFieldsIsTail(fs);
    assert fs[0] == Field("type", Text(kind));
    assert fs[1..] == FieldsOf(later + rest);
    ObjectBrackets(PrintField(fs[0]), TailOf(later), TailOf(rest));
  }

  lemma ObjectBrackets(f: string, a: string, b: string)
    ensures ("{" + f + a) + b + "}" == "{" + (f + (a + b)) + "}"
  {
  }

  lemma FieldIsPrintable(f: Field)
    requires Bytes(f.name) && ValueBytes(f.value)
    ensures Printable(PrintField(f))
  {
    hide Escaped, PrintString, Numeral;
    EscapedIsPrintable(f.name);
    match f.value
    case Text(s) => EscapedIsPrintable(s);
    case Number(n) => NumeralDenotes(n, 10);
    case True =>
    case Singleton(s) => EscapedIsPrintable(s);
  }

  lemma {:induction false} FieldsArePrintable(fs: seq<Field>)
    requires |fs| >= 1 && FieldsBytes(fs)
    ensures Printable(PrintFields(fs))
    decreases |fs|
  {
    hide PrintField;
    FieldIsPrintable(fs[0]);
    if |fs| > 1 {
      FieldsArePrintable(fs[1..]);
    }
  }

  /** A record consists of printable ASCII only: in particular it holds no NUL, whatever bytes were captured. */
  lemma RecordTextIsPrintable(id: Identity, ev: Evidence)
    requires ValidIdentity(id) && ValidEvidence(ev)
    ensures Printable(RecordText(id, ev)) && '\0' !in RecordText(id, ev)
  {
    hide RecordText, RecordEntries, PrintFields;
    RecordTextIsObject(id, ev);
    FieldsArePrintable(FieldsOf(RecordEntries(id, ev)));
    assert Printable(RecordText(id, ev));
  }

  lemma {:induction false} UpToNulOfSlot(text: string, n: nat)
    requires '\0' !in text
    ensures UpToNul(text + Zeros(n)) == text
  {
    if text == [] {
      assert text + Zeros(n) == Zeros(n);
    } else {
      assert text[0] in text;
      assert (text + Zeros(n))[1..] == text[1..] + Zeros(n);
      UpToNulOfSlot(text[1..], n);
      assert [text[0]] + text[1..] == text;
    }
  }

  // ----- Main result -----

  /** Every slot the probe submits decodes to exactly the event its capture stands for. */
  lemma SubmittedSlotDecodes(id: Identity, ev: Evidence)
    requires ValidIdentity(id) && ValidEvidence(ev) && |RecordText(id, ev)| <= RECORD_MAX
    ensures DecodeRecord(Slot(RecordText(id, ev))) == Decoded(IntendedEvent(id, ev))
  {
    var text, es := RecordText(id, ev), RecordEntries(id, ev);
    hide RecordText, RecordEntries, Widen, ToRecord, WellTyped, ReadObject, PrintObject, IntendedEvent;
    RecordTextIsPrintable(id, ev);
    UpToNulOfSlot(text, RECORD_MAX - |text|);
    RecordTextIsObject(id, ev);
    ObjectReadsBack(FieldsOf(es));
    EntriesOfFields(es);
    EntriesDecode(id, ev);
  }

  /** Slots the probe submitted for the given captures. */
  ghost predicate SubmittedFor(slots: seq<string>, captures: seq<(Identity, Evidence)>) {
    |slots| == |captures| &&
    forall i | 0 <= i < |slots| ::
      ValidIdentity(captures[i].0) && ValidEvidence(captures[i].1) &&
      |RecordText(captures[i].0, captures[i].1)| <= RECORD_MAX &&
      slots[i] == Slot(RecordText(captures[i].0, captures[i].1))
  }

  /** A ring filled by the probe drains to the intended events, in order, with nothing dropped. */
  lemma {:induction false} ProbeRingDrainsCompletely(slots: seq<string>, captures: seq<(Identity, Evidence)>)
    requires SubmittedFor(slots, captures)
    ensures |EventsOf(slots)| == |slots|
    ensures forall i | 0 <= i < |slots| :: EventsOf(slots)[i] == IntendedEvent(captures[i].0, captures[i].1)
    decreases |slots|
  {
    hide RecordText, DecodeRecord, IntendedEvent;
    if slots != [] {
      var n := |slots| - 1;
      ProbeRingDrainsCompletely(slots[..n], captures[..n]);
      SubmittedSlotDecodes(captures[n].0, captures[n].1);
    }
  }

  // ----- Probes, ring buffer and drain together -----

  /** A capture, and whether the ring still had room when it was made. */
  datatype Capture = Capture(id: Identity, evidence: Evidence, reserved: bool)

  ghost predicate ValidCapture(c: Capture) {
    ValidIdentity(c.id) && ValidEvidence(c.evidence)
  }

  ghost predicate Submitted(c: Capture)
    requires ValidCapture(c)
  {
    c.reserved && |RecordText(c.id, c.evidence)| <= RECORD_MAX
  }

  /** The events of the captures that got a slot and fit it, in order. */
  ghost function SubmittedEvents(captures: seq<Capture>): seq<Event>
    requires forall c | c in captures :: ValidCapture(c)
  {
    if captures == [] then []
    else
      var n := |captures| - 1;
      SubmittedEvents(captures[..n]) +
      (if Submitted(captures[n]) then [IntendedEvent(captures[n].id, captures[n].evidence)] else [])
  }

  lemma OneBurst(slots: seq<string>)
    ensures SlotsOf([Burst(false, slots)]) == slots
  {
  }

  /** Whatever is captured: every capture is either lost in the probe, whose return code says so, or sent as the event
      it stands for; the fresh counters of the drain then say how many were sent, and that none was malformed. */
  method CaptureAndDrain(captures: seq<Capture>) returns (sent: seq<Event>, lost: nat, ingested: nat, malformed: nat)
    requires forall c | c in captures :: ValidCapture(c)
    ensures sent == SubmittedEvents(captures)
    ensures ingested == |sent| && malformed == 0 && |sent| + lost == |captures|
  {
    hide RecordText, DecodeRecord, IntendedEvent, ValidCapture;
    var ring := new RingBuf();
    lost := 0;
    var i := 0;
    while i < |captures|
      invariant 0 <= i <= |captures|
      invariant EventsOf(ring.submitted) == SubmittedEvents(captures[..i])
      invariant |EventsOf(ring.submitted)| == |ring.submitted| && |ring.submitted| + lost == i
    {
      var c := captures[i];
      assert captures[..i + 1][..i] == captures[..i];
      assert ValidCapture(c);
      assert ValidIdentity(c.id) && ValidEvidence(c.evidence) by { ValidParts(c); }
      ghost var before := ring.submitted;
      var code := ring.EmitRecord(c.reserved, c.id, c.evidence);
      if code == 0 {
        SubmittedSlotDecodes(c.id, c.evidence);
        EventsOfStep(ring.submitted, |before|);
        assert ring.submitted[..|before|] == before && ring.submitted[..|before| + 1] == ring.submitted;
      } else {
        lost := lost + 1;
      }
      i := i + 1;
    }
    assert captures[..i] == captures;
    var stats := new SourceRecordStats();
    OneBurst(ring.submitted);
    sent := PollLoop([Burst(false, ring.submitted)], |ring.submitted|, stats);
    ingested, malformed := stats.ingested, stats.droppedMalformed;
  }

  lemma ValidParts(c: Capture)
    requires ValidCapture(c)
    ensures ValidIdentity(c.id) && ValidEvidence(c.evidence)
  {
  }
}
