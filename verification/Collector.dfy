/** `decode_record` of asg-collector/src/source/linux.rs. */
module Collector {
  import opened Options
  import opened Events
  import opened Json
  import opened Probe

  // ----- The fields of a kernel record -----

  datatype Name =
    | Kind | Pid | Tgid | Comm | TsNs | Args | Uid | CgroupId
    | Path | Flags | PathTruncated | Daddr | Dport | Family | Ignored

  function NameText(n: Name): string
    requires n != Ignored
  {
    match n
    case Kind => "type"
    case Pid => "pid"
    case Tgid => "tgid"
    case Comm => "comm"
    case TsNs => "ts_ns"
    case Args => "args"
    case Uid => "uid"
    case CgroupId => "cgroup_id"
    case Path => "path"
    case Flags => "flags"
    case PathTruncated => "path_truncated"
    case Daddr => "daddr"
    case Dport => "dport"
    case Family => "family"
  }

  /** Field names a record does not declare are ignored. */
  function NameOf(s: string): Name {
    if s == "type" then Kind
    else if s == "pid" then Pid
    else if s == "tgid" then Tgid
    else if s == "comm" then Comm
    else if s == "ts_ns" then TsNs
    else if s == "args" then Args
    else if s == "uid" then Uid
    else if s == "cgroup_id" then CgroupId
    else if s == "path" then Path
    else if s == "flags" then Flags
    else if s == "path_truncated" then PathTruncated
    else if s == "daddr" then Daddr
    else if s == "dport" then Dport
    else if s == "family" then Family
    else Ignored
  }

  datatype Entry = Entry(name: Name, value: Json)

  function Entries(fs: seq<Field>): seq<Entry> {
    seq(|fs|, i requires 0 <= i < |fs| => Entry(NameOf(fs[i].name), fs[i].value))
  }

  predicate NoDuplicates(es: seq<Entry>) {
    forall i, j | 0 <= i < j < |es| :: es[i].name != es[j].name || es[i].name == Ignored
  }

  function Lookup(es: seq<Entry>, n: Name): Option<Json> {
    if es == [] then None else if es[0].name == n then Some(es[0].value) else Lookup(es[1..], n)
  }

  predicate IsText(v: Option<Json>) {
    v.Some? && v.value.Text?
  }

  predicate IsBelow(v: Option<Json>, bound: nat) {
    v.Some? && v.value.Number? && v.value.n < bound
  }

  /** Deserialisation: no field twice, identity fields present, every field of its declared type. */
  predicate WellTyped(es: seq<Entry>) {
    && NoDuplicates(es)
    && IsText(Lookup(es, Kind)) && IsText(Lookup(es, Comm))
    && IsBelow(Lookup(es, Pid), 0x1_0000_0000) && IsBelow(Lookup(es, Tgid), 0x1_0000_0000)
    && IsBelow(Lookup(es, TsNs), 0x1_0000_0000_0000_0000)
    && (Lookup(es, Args) == None || Lookup(es, Args).value.Singleton?)
    && (Lookup(es, Uid) == None || IsBelow(Lookup(es, Uid), 0x1_0000_0000))
    && (Lookup(es, CgroupId) == None || IsBelow(Lookup(es, CgroupId), 0x1_0000_0000_0000_0000))
    && (Lookup(es, Path) == None || IsText(Lookup(es, Path)))
    && (Lookup(es, Flags) == None || IsBelow(Lookup(es, Flags), 0x1_0000_0000))
    && (Lookup(es, PathTruncated) == None || Lookup(es, PathTruncated).value.True?)
    && (Lookup(es, Daddr) == None || IsText(Lookup(es, Daddr)))
    && (Lookup(es, Dport) == None || IsBelow(Lookup(es, Dport), 0x1_0000))
    && (Lookup(es, Family) == None || IsText(Lookup(es, Family)))
  }

  function OptText(v: Option<Json>): Option<string>
    requires v == None || IsText(v)
  {
    if v == None then None else Some(v.value.s)
  }

  function ToRecord(es: seq<Entry>): KernelRecord
    requires WellTyped(es)
  {
    KernelRecord(
      Lookup(es, Kind).value.s, Lookup(es, Pid).value.n, Lookup(es, Tgid).value.n,
      Lookup(es, Comm).value.s, Lookup(es, TsNs).value.n,
      if Lookup(es, Args) == None then [] else [Lookup(es, Args).value.item],
      if Lookup(es, Uid) == None then None else Some(Lookup(es, Uid).value.n),
      if Lookup(es, CgroupId) == None then None else Some(Lookup(es, CgroupId).value.n),
      OptText(Lookup(es, Path)),
      if Lookup(es, Flags) == None then None else Some(Lookup(es, Flags).value.n),
      Lookup(es, PathTruncated).Some?,
      OptText(Lookup(es, Daddr)),
      if Lookup(es, Dport) == None then None else Some(Lookup(es, Dport).value.n),
      OptText(Lookup(es, Family)))
  }

  datatype DecodeResult = Decoded(event: Event) | Malformed | UnproducibleKind(kind: string)

  /** Cut at the first zero byte, parse, widen. */
  function DecodeRecord(raw: string): DecodeResult {
    match ReadObject(UpToNul(raw))
    case None => Malformed
    case Some(fields) =>
      var es := Entries(fields);
      if !WellTyped(es) then Malformed
      else
        var record := ToRecord(es);
        match Widen(record)
        case Some(event) => Decoded(event)
        case None => UnproducibleKind(record.kind)
  }

  // ----- `poll_loop` -----

  /** The counters of asg-common/src/stats.rs. */
  class SourceRecordStats {
    var ingested: nat
    var droppedMalformed: nat

    constructor ()
      ensures ingested == 0 && droppedMalformed == 0
    {
      ingested, droppedMalformed := 0, 0;
    }
  }

  /** The events of the slots that decode, in order. */
  function EventsOf(slots: seq<string>): seq<Event> {
    if slots == [] then []
    else
      var last := DecodeRecord(slots[|slots| - 1]);
      EventsOf(slots[..|slots| - 1]) + (if last.Decoded? then [last.event] else [])
  }

  lemma {:induction false} EventsOfPrefix(slots: seq<string>, i: nat)
    requires i <= |slots|
    ensures EventsOf(slots[..i]) <= EventsOf(slots)
    decreases |slots| - i
  {
    if i == |slots| {
      assert slots[..i] == slots;
    } else {
      EventsOfPrefix(slots, i + 1);
      assert slots[..i + 1][..i] == slots[..i];
    }
  }

  lemma EventsOfStep(slots: seq<string>, i: nat)
    requires i < |slots|
    ensures EventsOf(slots[..i + 1]) ==
            EventsOf(slots[..i]) + (if DecodeRecord(slots[i]).Decoded? then [DecodeRecord(slots[i]).event] else [])
  {
    hide DecodeRecord;
    assert slots[..i + 1][..i] == slots[..i];
  }

  /** One pass of the outer loop: whether the channel was found closed, and if not, what the ring then held. */
  datatype Burst = Burst(closed: bool, slots: seq<string>)

  /** The slots of the bursts before the channel is found closed. */
  function SlotsOf(bursts: seq<Burst>): seq<string> {
    if bursts == [] || bursts[0].closed then [] else bursts[0].slots + SlotsOf(bursts[1..])
  }

  /** What is drained: all the slots of the bursts in order, up to the first burst that finds the channel closed. */
  lemma {:induction false} SlotsOfExactly(open: seq<Burst>, rest: seq<Burst>, k: nat)
    requires k < |open| && forall b | b in open :: !b.closed
    requires rest == [] || rest[0].closed
    ensures SlotsOf(open + rest) == SlotsOf(open) == SlotsOf(open[..k]) + open[k].slots + SlotsOf(open[k + 1..])
    ensures SlotsOf(rest) == []
    decreases k
  {
    SlotsOfOpen(open, rest);
    assert open[..k] + open[k..] == open && open[k..][1..] == open[k + 1..];
    SlotsOfOpen(open[..k], open[k..]);
    assert open[k] in open;
    var before, after := SlotsOf(open[..k]), SlotsOf(open[k + 1..]);
    assert before + (open[k].slots + after) == before + open[k].slots + after;
  }

  lemma {:induction false} SlotsOfOpen(a: seq<Burst>, b: seq<Burst>)
    requires forall x | x in a :: !x.closed
    ensures SlotsOf(a + b) == SlotsOf(a) + SlotsOf(b)
    decreases |a|
  {
    if a == [] {
      assert a + b == b;
    } else {
      assert (a + b)[1..] == a[1..] + b;
      SlotsOfOpen(a[1..], b);
    }
  }

  /** Drains burst after burst; the channel accepts `room` events and is closed after that. A burst that finds it closed
      ends the loop with nothing further counted; an event that finds it closed has been counted but is not sent. */
  method PollLoop(bursts: seq<Burst>, room: nat, stats: SourceRecordStats) returns (sent: seq<Event>)
    modifies stats
    ensures var slots := SlotsOf(bursts);
            if |EventsOf(slots)| <= room then
              sent == EventsOf(slots) &&
              stats.ingested == old(stats.ingested) + |sent| &&
              stats.droppedMalformed == old(stats.droppedMalformed) + (|slots| - |sent|)
            else
              sent == EventsOf(slots)[..room] &&
              stats.ingested == old(stats.ingested) + room + 1 &&
              exists n :: 0 <= n < |slots| && |EventsOf(slots[..n])| == room && DecodeRecord(slots[n]).Decoded? &&
                          stats.droppedMalformed == old(stats.droppedMalformed) + (n - room)
  {
    hide DecodeRecord, EventsOf, SlotsOf;
    ghost var slots := SlotsOf(bursts);
    NothingSent(slots);
    sent := [];
    ghost var n := 0;
    var k := 0;
    while k < |bursts| && !bursts[k].closed
      invariant 0 <= k <= |bursts| && 0 <= n <= |slots|
      invariant SlotsOf(bursts[k..]) == slots[n..]
      invariant sent == EventsOf(slots[..n]) && |sent| <= room && |sent| <= n
      invariant stats.ingested == old(stats.ingested) + |sent|
      invariant stats.droppedMalformed == old(stats.droppedMalformed) + (n - |sent|)
    {
      BurstStep(bursts, k, slots, n);
      var closed;
      sent, closed := DrainBurst(bursts[k].slots, room, stats, sent, slots, n);
      if closed {
        return;
      }
      n := n + |bursts[k].slots|;
      k := k + 1;
    }
    NothingLeft(bursts, k, slots, n);
  }

  lemma NothingSent(slots: seq<string>)
    ensures EventsOf(slots[..0]) == []
  {
  }

  lemma BurstStep(bursts: seq<Burst>, k: nat, slots: seq<string>, n: nat)
    requires k < |bursts| && !bursts[k].closed && n <= |slots| && SlotsOf(bursts[k..]) == slots[n..]
    ensures n + |bursts[k].slots| <= |slots| && slots[n..n + |bursts[k].slots|] == bursts[k].slots
    ensures SlotsOf(bursts[k + 1..]) == slots[n + |bursts[k].slots|..]
  {
    assert bursts[k..][1..] == bursts[k + 1..];
    var burst, rest := bursts[k].slots, SlotsOf(bursts[k + 1..]);
    assert slots[n..] == burst + rest;
    assert slots[n..][..|burst|] == burst && slots[n..][|burst|..] == rest;
  }

  lemma NothingLeft(bursts: seq<Burst>, k: nat, slots: seq<string>, n: nat)
    requires k <= |bursts| && (k < |bursts| ==> bursts[k].closed) && n <= |slots| && SlotsOf(bursts[k..]) == slots[n..]
    ensures n == |slots| && slots[..n] == slots
  {
    if k < |bursts| {
      assert bursts[k..][0] == bursts[k];
    }
    assert slots[n..] == [];
  }

  /** The inner loop, for the slots from `n` on; `before` are the events sent so far. */
  method DrainBurst(burst: seq<string>, room: nat, stats: SourceRecordStats, before: seq<Event>,
                    ghost slots: seq<string>, ghost n: nat)
    returns (sent: seq<Event>, closed: bool)
    requires n + |burst| <= |slots| && slots[n..n + |burst|] == burst
    requires before == EventsOf(slots[..n]) && |before| <= room && |before| <= n
    modifies stats
    ensures !closed ==>
              sent == EventsOf(slots[..n + |burst|]) && |sent| <= room && |sent| <= n + |burst| &&
              stats.ingested == old(stats.ingested) + (|sent| - |before|) &&
              stats.droppedMalformed == old(stats.droppedMalformed) + (|burst| - (|sent| - |before|))
    ensures closed ==>
              |EventsOf(slots)| > room && sent == EventsOf(slots)[..room] &&
              stats.ingested == old(stats.ingested) + (room + 1 - |before|) &&
              exists m :: 0 <= m < |slots| && |EventsOf(slots[..m])| == room && DecodeRecord(slots[m]).Decoded? &&
                          stats.droppedMalformed == old(stats.droppedMalformed) + (m - n - (room - |before|))
  {
    hide DecodeRecord, EventsOf;
    sent, closed := before, false;
    var i := 0;
    while i < |burst|
      invariant 0 <= i <= |burst|
      invariant sent == EventsOf(slots[..n + i]) && |before| <= |sent| <= room && |sent| <= n + i
      invariant stats.ingested == old(stats.ingested) + (|sent| - |before|)
      invariant stats.droppedMalformed == old(stats.droppedMalformed) + (i - (|sent| - |before|))
    {
      assert burst[i] == slots[n + i];
      EventsOfStep(slots, n + i);
      EventsOfPrefix(slots, n + i + 1);
      match DecodeRecord(burst[i]) {
        case Decoded(event) =>
          stats.ingested := stats.ingested + 1;
          if |sent| == room {
            return sent, true;
          }
          sent := sent + [event];
        case Malformed =>
          stats.droppedMalformed := stats.droppedMalformed + 1;
        case UnproducibleKind(_) =>
          stats.droppedMalformed := stats.droppedMalformed + 1;
      }
      i := i + 1;
    }
  }
}
