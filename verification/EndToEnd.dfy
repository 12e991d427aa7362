/** From the kernel to the verdict: what the policy says about a capture once its record has crossed the wire. */
module EndToEnd {
  import opened Options
  import opened Events
  import opened Network
  import opened HostRules
  import opened Probe
  import opened Collector
  import opened RoundTrip
  import opened RecordSize
  import opened Rules
  import opened History
  import opened ProcessTree
  import Glob
  import GlobLaws
  import Paths

  /** The verdict on a submitted slot; a slot that does not decode raises nothing. */
  function Verdict(slot: string, rules: RuleSet): seq<Violation> {
    match DecodeRecord(slot)
    case Decoded(event) => EvalEvent(event, rules)
    case _ => []
  }

  /** The address a numeric destination denotes. */
  function AddressOf(d: Destination): IpAddr
    requires ValidEvidence(Connect(Some(d))) && !d.DestOther?
  {
    match d
    case DestV4(octets, _) => V4(FromOctets(octets))
    case DestV6(segments, _) => V6(FromGroups(segments))
  }

  ghost predicate IsCidr(pattern: string) {
    match SplitOnce(pattern, '/')
    case Some((network, prefix)) => ReadIp(network).Some? && ReadU8(prefix).Some?
    case None => false
  }

  /** The address lies in the block the pattern describes. */
  ghost predicate CidrHolds(pattern: string, a: IpAddr)
    requires IsCidr(pattern)
  {
    var parts := SplitOnce(pattern, '/').value;
    InBlock(ReadIp(parts.0).value, ReadU8(parts.1).value, a)
  }

  lemma CapturedAddressReadsBack(d: Destination, id: Identity)
    requires ValidEvidence(Connect(Some(d))) && !d.DestOther?
    ensures ReadIp(IntendedEvent(id, Connect(Some(d))).daddr) == Some(AddressOf(d))
  {
    match d
    case DestV4(octets, _) => PrintedV4ReadsBack(octets);
    case DestV6(segments, _) => PrintedV6ReadsBack(segments);
  }

  /** The text the probe prints for a numeric destination. */
  function AddressText(d: Destination): string
    requires ValidEvidence(Connect(Some(d))) && !d.DestOther?
  {
    match d
    case DestV4(octets, _) => PrintV4(octets)
    case DestV6(segments, _) => PrintV6(segments)
  }

  /** What a host pattern says about a captured address: a CIDR block holds its addresses; an exact address is
      itself, for IPv6 only where it is written in the form the probe prints; anything else is a glob on the text. */
  ghost predicate HostHolds(pattern: string, d: Destination)
    requires ValidEvidence(Connect(Some(d))) && !d.DestOther?
  {
    if IsCidr(pattern) then CidrHolds(pattern, AddressOf(d))
    else if ReadIp(pattern).Some? then ReadIp(pattern).value == AddressOf(d) && (d.DestV6? ==> PlainForm(pattern))
    else Glob.InPathLanguage(Glob.Split(pattern, '/'), [AddressText(d)])
  }

  lemma CidrAgainstCapture(pattern: string, d: Destination, id: Identity)
    requires IsCidr(pattern) && ValidEvidence(Connect(Some(d))) && !d.DestOther?
    ensures DestinationMatches(pattern, IntendedEvent(id, Connect(Some(d))).daddr) <==> CidrHolds(pattern, AddressOf(d))
  {
    hide ReadIp, ReadU8, DestinationMatches, InBlock;
    CapturedAddressReadsBack(d, id);
    var parts := SplitOnce(pattern, '/').value;
    CidrIsBlockMembership(pattern, IntendedEvent(id, Connect(Some(d))).daddr, parts.0, parts.1);
  }

  lemma ExactAddressAgainstCapture(host: string, d: Destination)
    requires ReadIp(host).Some? && ValidEvidence(Connect(Some(d))) && !d.DestOther?
    ensures DestinationMatches(host, AddressText(d)) <==>
            ReadIp(host).value == AddressOf(d) && (d.DestV6? ==> PlainForm(host))
  {
    hide ReadIp, DestinationMatches, PlainForm, PrintV4, PrintV6, FromOctets, FromGroups;
    match d
    case DestV4(octets, _) => ExactAddressAgainstV4(host, octets);
    case DestV6(segments, _) => ExactAddressAgainstV6(host, segments);
  }

  lemma AddressTextHasNoSlash(d: Destination)
    requires ValidEvidence(Connect(Some(d))) && !d.DestOther?
    ensures '/' !in AddressText(d) && ReadIp(AddressText(d)) == Some(AddressOf(d))
  {
    hide ReadIp, PrintV4, PrintV6;
    match d {
      case DestV4(octets, _) => PrintedV4ReadsBack(octets);
      case DestV6(segments, _) => PrintedV6ReadsBack(segments);
    }
    if '/' in AddressText(d) {
      AddressHasNoForeign(AddressText(d), '/');
    }
  }

  lemma GlobAgainstCapture(pattern: string, d: Destination)
    requires !IsCidr(pattern) && ValidEvidence(Connect(Some(d))) && !d.DestOther?
    ensures DestinationMatches(pattern, AddressText(d)) <==>
            Glob.InPathLanguage(Glob.Split(pattern, '/'), [AddressText(d)])
  {
    hide ReadIp, ReadU8, AddressText, MaskedEqual, Glob.Matches, Glob.InPathLanguage, Glob.Split;
    AddressTextHasNoSlash(d);
    Glob.SplitOneSegment(AddressText(d), '/');
    Glob.MatcherDecides(pattern, AddressText(d));
  }

  lemma HostAgainstCapture(pattern: string, d: Destination, id: Identity)
    requires ValidEvidence(Connect(Some(d))) && !d.DestOther?
    ensures IntendedEvent(id, Connect(Some(d))).daddr == AddressText(d)
    ensures DestinationMatches(pattern, AddressText(d)) <==> HostHolds(pattern, d)
  {
    hide IsCidr, CidrHolds, ReadIp, DestinationMatches, AddressOf, PlainForm, PrintV4, PrintV6, Glob.InPathLanguage, Glob.Split;
    if IsCidr(pattern) {
      CidrAgainstCapture(pattern, d, id);
    } else if ReadIp(pattern).Some? {
      ExactAddressAgainstCapture(pattern, d);
    } else {
      GlobAgainstCapture(pattern, d);
    }
  }

  /** Every captured IPv4 or IPv6 connection, under any rule set: denied exactly when some denied pattern holds of its
      address, warned about exactly when some warn pattern and no denied one does, and silent otherwise. */
  lemma CapturedConnectionVerdict(id: Identity, d: Destination, rules: RuleSet)
    requires ValidIdentity(id) && ValidEvidence(Connect(Some(d))) && !d.DestOther?
    ensures |RecordText(id, Connect(Some(d)))| <= RECORD_MAX
    ensures var verdict := Verdict(Slot(RecordText(id, Connect(Some(d)))), rules);
            var denied := exists p | p in rules.deniedHosts :: HostHolds(p, d);
            var warned := exists p | p in rules.warnHosts :: HostHolds(p, d);
            if denied then |verdict| == 1 && verdict[0].ruleId == "NET_DENIED" && verdict[0].severity == Critical
            else if warned then |verdict| == 1 && verdict[0].ruleId == "NET_WARN" && verdict[0].severity == Medium
            else verdict == []
  {
    hide RecordText, DecodeRecord, DestinationMatches, HostHolds, EvalEvent, AddressText;
    ConnectRecordFits(id, Some(d));
    SubmittedSlotDecodes(id, Connect(Some(d)));
    var event := IntendedEvent(id, Connect(Some(d)));
    NetVerdictExactly(event, rules);
    forall p ensures event.daddr == AddressText(d) && (DestinationMatches(p, event.daddr) <==> HostHolds(p, d)) {
      HostAgainstCapture(p, d, id);
    }
  }

  /** A host pattern with a letter beyond `f`, as every host name rule of the default rule set has, holds of no
      captured address. */
  lemma NamesHoldOfNoCapture(pattern: string, d: Destination, id: Identity, c: char)
    requires ValidEvidence(Connect(Some(d))) && !d.DestOther?
    requires c in pattern && Foreign(c) && c !in {'*', '?', '/', '+'}
    ensures !HostHolds(pattern, d)
  {
    hide HostHolds, AddressText, ReadIp, DestinationMatches;
    HostAgainstCapture(pattern, d, id);
    AddressTextHasNoSlash(d);
    NamesNeverMatchAddresses(pattern, AddressText(d), c);
  }

  /** A captured path raises a violation exactly when some glob matches its normal form, with the
      truncation marker where the capture was cut. */
  lemma CapturedOpenVerdict(id: Identity, path: string, flags: U32, truncated: bool, rules: RuleSet)
    requires ValidIdentity(id) && ValidEvidence(Open(path, flags, truncated)) && path != []
    requires |RecordText(id, Open(path, flags, truncated))| <= RECORD_MAX
    ensures var shown := Paths.Normalized(path + (if truncated then "<truncated>" else ""));
            Verdict(Slot(RecordText(id, Open(path, flags, truncated))), rules) == [] <==>
            forall g | g in rules.secretPathGlobs :: !Glob.Matches(g, shown)
  {
    hide RecordText, DecodeRecord, EvalEvent, Paths.Normalized, Glob.Matches;
    SubmittedSlotDecodes(id, Open(path, flags, truncated));
    SecretAccessExactly(IntendedEvent(id, Open(path, flags, truncated)), rules);
  }

  /** A capture without evidence: an open whose path, or a connect whose address, could not be read. */
  ghost predicate Unread(ev: Evidence) {
    (ev.Open? && ev.path == []) || (ev.Connect? && (ev.destination == None || ev.destination.value.DestOther?))
  }

  lemma UnreadRecordFits(id: Identity, ev: Evidence)
    requires ValidIdentity(id) && ValidEvidence(ev) && Unread(ev)
    ensures |RecordText(id, ev)| <= RECORD_MAX
  {
    if ev.Connect? {
      ConnectRecordFits(id, ev.destination);
    } else {
      PlainOpenRecordFits(id, [], ev.flags, ev.truncated);
    }
  }

  /** It is submitted, and it raises nothing exactly when no pattern of its kind accepts the empty text. */
  lemma UnreadEvidenceVerdict(id: Identity, ev: Evidence, rules: RuleSet)
    requires ValidIdentity(id) && ValidEvidence(ev) && Unread(ev)
    ensures |RecordText(id, ev)| <= RECORD_MAX
    ensures Verdict(Slot(RecordText(id, ev)), rules) == [] <==>
            forall p | p in PatternsFor(IntendedEvent(id, ev), rules) :: !GlobLaws.AcceptsEmpty(Glob.Split(p, '/'))
  {
    hide RecordText, DecodeRecord, EvalEvent, PatternsFor;
    UnreadRecordFits(id, ev);
    SubmittedSlotDecodes(id, ev);
    EmptyEvidenceIsInertExactly(IntendedEvent(id, ev), rules);
  }

  // ----- From ingested events to the process tree -----

  /** Two accepted execs that name each other as parent: the process list is empty although two processes run. */
  lemma MutualParentsEmptyTheForest(rules: RuleSet, now: nat, wall: U64)
    requires rules.maxEventsPerSec >= 2
    ensures var first, second := ProcExec(1, 1, 2, 0, "a", [], 0, 0), ProcExec(2, 2, 1, 0, "b", [], 0, 0);
            var table := Processes(PastOf(rules, [Ingest(first, now, wall), Ingest(second, now, wall)]).accepted);
            table.Keys == {1, 2} && Forest(table) == []
  {
    var first, second := ProcExec(1, 1, 2, 0, "a", [], 0, 0), ProcExec(2, 2, 1, 0, "b", [], 0, 0);
    var i1, i2 := Ingest(first, now, wall), Ingest(second, now, wall);
    PastStep(rules, [], i1);
    PastStep(rules, [i1], i2);
    assert [] + [i1] == [i1] && [i1] + [i2] == [i1, i2];
    var e1, e2 := History.Entry(first, rules, wall), History.Entry(second, rules, wall);
    assert PastOf(rules, [i1]).accepted == [] + [e1];
    assert PastOf(rules, [i1, i2]).accepted == [e1] + [e2];
    ProcessesStep([], e1);
    ProcessesStep([e1], e2);
    assert [] + [e1] == [e1];
    var table := Processes([e1] + [e2]);
    assert table == map[1 := RecordOf(first), 2 := RecordOf(second)];
    assert RootIds(table) == {};
  }
}
