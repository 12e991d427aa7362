/** What a serial run of the ingest pipeline of asg-api/src/lib.rs has stored, as a function of all its inputs. */
module History {
  import opened Options
  import opened Arithmetic
  import opened Events
  import opened Rules
  import opened ProcessTree
  import Clock
  import Timestamp
  import Bucket = TokenBucket

  const EVENT_CAP := 20_000
  const VIOLATION_CAP := 5_000

  datatype StoredEvent = StoredEvent(seqNo: U64, event: Event)

  datatype StoredViolation = StoredViolation(seqNo: U64, tsRfc3339: string, violation: Violation)

  /** One call from outside: `now` is the monotonic reading for the bucket, `wall` the wall-clock
      reading a violation raised by the call is stamped with. */
  datatype Input =
    | PutPolicy(rules: RuleSet)
    | Ingest(event: Event, now: nat, wall: U64)

  /** An accepted event with the rules then in force. */
  datatype Entry = Entry(event: Event, rules: RuleSet, wall: U64)

  datatype Past = Past(rules: RuleSet, bucket: Bucket.State, accepted: seq<Entry>, shed: nat)

  function Advance(p: Past, input: Input): Past {
    match input
    case PutPolicy(rules) => p.(rules := rules)
    case Ingest(event, now, wall) =>
      var rate := p.rules.maxEventsPerSec;
      var next := p.(bucket := Bucket.Next(p.bucket, rate, now));
      if Bucket.Accepts(p.bucket, rate, now) then next.(accepted := p.accepted + [Entry(event, p.rules, wall)])
      else next.(shed := p.shed + 1)
  }

  function PastOf(initial: RuleSet, log: seq<Input>): Past {
    if log == [] then Past(initial, Bucket.Fresh, [], 0)
    else Advance(PastOf(initial, log[..|log| - 1]), log[|log| - 1])
  }

  lemma PastStep(initial: RuleSet, log: seq<Input>, input: Input)
    ensures PastOf(initial, log + [input]) == Advance(PastOf(initial, log), input)
  {
    assert (log + [input])[..|log|] == log;
  }

  /** The newest `cap` items. */
  function Newest<T>(s: seq<T>, cap: nat): seq<T> {
    if |s| <= cap then s else s[|s| - cap..]
  }

  lemma PushNewest<T>(s: seq<T>, x: T, cap: nat)
    requires cap >= 1
    ensures var ring := Newest(s, cap);
            Newest(s + [x], cap) == (if |ring| >= cap then ring[1..] else ring) + [x]
  {
  }

  // ----- Which rules are in force -----

  ghost predicate NoPolicyFrom(log: seq<Input>, i: nat) {
    forall j | i <= j < |log| :: !log[j].PutPolicy?
  }

  /** Input `i` is the last policy change, to `rules`. */
  ghost predicate LastPolicyAt(log: seq<Input>, i: nat, rules: RuleSet) {
    i < |log| && log[i] == PutPolicy(rules) && NoPolicyFrom(log, i + 1)
  }

  /** `rules` were set by the last policy change of the log, or are the initial ones where there was none. */
  ghost predicate LastPolicy(initial: RuleSet, log: seq<Input>, rules: RuleSet) {
    (NoPolicyFrom(log, 0) && rules == initial) || exists i :: LastPolicyAt(log, i, rules)
  }

  lemma LastPolicyStep(initial: RuleSet, log: seq<Input>, rules: RuleSet)
    requires log != []
    ensures var n := |log| - 1;
            LastPolicy(initial, log, rules) <==>
            if log[n].PutPolicy? then log[n].rules == rules else LastPolicy(initial, log[..n], rules)
  {
    var n := |log| - 1;
    forall i | 0 <= i <= n ensures NoPolicyFrom(log, i) <==> NoPolicyFrom(log[..n], i) && !log[n].PutPolicy? {
      if NoPolicyFrom(log, i) {
        assert forall j | i <= j < n :: log[..n][j] == log[j];
      }
      if NoPolicyFrom(log[..n], i) {
        assert forall j | i <= j < n :: log[j] == log[..n][j];
      }
    }
    if log[n].PutPolicy? && log[n].rules == rules {
      assert LastPolicyAt(log, n, rules);
    }
    hide NoPolicyFrom;
    if i: nat :| LastPolicyAt(log, i, rules) && i < n {
      assert LastPolicyAt(log[..n], i, rules);
    }
    if !log[n].PutPolicy? {
      if i: nat :| LastPolicyAt(log[..n], i, rules) {
        assert LastPolicyAt(log, i, rules);
      }
    }
  }

  /** The rules in force are those of the last policy change. */
  lemma {:induction false} RulesInForceExactly(initial: RuleSet, log: seq<Input>, rules: RuleSet)
    ensures rules == PastOf(initial, log).rules <==> LastPolicy(initial, log, rules)
    decreases |log|
  {
    if log != [] {
      hide LastPolicy;
      RulesInForceExactly(initial, log[..|log| - 1], rules);
      LastPolicyStep(initial, log, rules);
    }
  }

  /** Every accepted event was an ingest call of the log, and carries the rules in force when it was made. */
  lemma {:induction false} EntryOrigin(initial: RuleSet, log: seq<Input>, k: nat) returns (n: nat)
    requires k < |PastOf(initial, log).accepted|
    ensures n < |log| && log[n].Ingest? && |PastOf(initial, log[..n]).accepted| == k
    ensures var entry := PastOf(initial, log).accepted[k];
            entry.event == log[n].event && entry.wall == log[n].wall && LastPolicy(initial, log[..n], entry.rules)
    decreases |log|
  {
    hide LastPolicy;
    n := |log| - 1;
    var before := PastOf(initial, log[..n]);
    if k < |before.accepted| {
      var m := EntryOrigin(initial, log[..n], k);
      assert log[..n][..m] == log[..m];
      n := m;
    } else {
      RulesInForceExactly(initial, log[..n], before.rules);
    }
  }

  // ----- What the accepted events leave behind -----

  /** The counter is 64 bits wide. */
  function SeqNo(i: nat): U64 {
    i % TWO_64
  }

  function Stored(accepted: seq<Entry>): seq<StoredEvent> {
    seq(|accepted|, i requires 0 <= i < |accepted| => StoredEvent(SeqNo(i), accepted[i].event))
  }

  function RecordOf(e: Event): ProcRecord
    requires e.ProcExec?
  {
    ProcRecord(e.tgid, e.ppid, e.comm, e.args, e.cgroupId, e.uid, e.tsNs)
  }

  /** The process table: the last exec of every id. */
  function Processes(accepted: seq<Entry>): Table {
    if accepted == [] then map[]
    else
      var init, last := Processes(accepted[..|accepted| - 1]), accepted[|accepted| - 1].event;
      if last.ProcExec? then init[last.tgid := RecordOf(last)] else init
  }

  lemma StoredStep(accepted: seq<Entry>, entry: Entry)
    ensures Stored(accepted + [entry]) == Stored(accepted) + [StoredEvent(SeqNo(|accepted|), entry.event)]
    ensures SeqNo(|accepted| + 1) == (SeqNo(|accepted|) + 1) % TWO_64
  {
  }

  lemma ProcessesStep(accepted: seq<Entry>, entry: Entry)
    ensures Processes(accepted + [entry]) ==
            if entry.event.ProcExec? then Processes(accepted)[entry.event.tgid := RecordOf(entry.event)]
            else Processes(accepted)
  {
    hide RecordOf;
    assert (accepted + [entry])[..|accepted|] == accepted;
  }

  /** The violations of one event, stamped one after another, and the last value the clock gave out. */
  datatype Stamped = Stamped(violations: seq<StoredViolation>, clock: U64)

  function Stamp(s: Stamped, vs: seq<Violation>, seqNo: U64, wall: U64): Stamped {
    if vs == [] then s
    else
      var before := Stamp(s, vs[..|vs| - 1], seqNo, wall);
      var ts := Clock.Candidate(wall, before.clock);
      Stamped(before.violations + [StoredViolation(seqNo, Timestamp.ToRfc3339(ts), vs[|vs| - 1])], ts)
  }

  function Raised(accepted: seq<Entry>): Stamped {
    if accepted == [] then Stamped([], 0)
    else
      var n := |accepted| - 1;
      var last := accepted[n];
      Stamp(Raised(accepted[..n]), EvalEvent(last.event, last.rules), SeqNo(n), last.wall)
  }

  function CriticalCount(vs: seq<StoredViolation>): nat {
    if vs == [] then 0
    else CriticalCount(vs[..|vs| - 1]) + (if vs[|vs| - 1].violation.severity == Critical then 1 else 0)
  }

  lemma CriticalCountStep(vs: seq<StoredViolation>, v: StoredViolation)
    ensures CriticalCount(vs + [v]) == CriticalCount(vs) + (if v.violation.severity == Critical then 1 else 0)
  {
    assert (vs + [v])[..|vs|] == vs;
  }

  // ----- Acceptance -----

  /** The ingest calls of a run with the rate each found in force. */
  function CallsOf(initial: RuleSet, log: seq<Input>): seq<Bucket.Call> {
    if log == [] then []
    else
      var n := |log| - 1;
      var last := log[n];
      CallsOf(initial, log[..n]) +
      (if last.Ingest? then [Bucket.Call(PastOf(initial, log[..n]).rules.maxEventsPerSec, last.now)] else [])
  }

  lemma {:induction false} BucketFollowsCalls(initial: RuleSet, log: seq<Input>)
    ensures PastOf(initial, log).bucket == Bucket.After(CallsOf(initial, log), |CallsOf(initial, log)|)
    decreases |log|
  {
    if log != [] {
      var n := |log| - 1;
      BucketFollowsCalls(initial, log[..n]);
      var calls := CallsOf(initial, log[..n]);
      assert calls + [] == calls;
      if log[n].Ingest? {
        Bucket.AfterPrefix(calls, Bucket.Call(PastOf(initial, log[..n]).rules.maxEventsPerSec, log[n].now), |calls|);
      }
    }
  }

  /** In any serial run, with any policy changes, the next event is accepted exactly when every window of
      ingest calls that ends with it has room for one more. */
  lemma IngestAcceptedExactly(initial: RuleSet, log: seq<Input>, event: Event, now: nat, wall: U64)
    ensures var longer := log + [Ingest(event, now, wall)];
            var calls, j := CallsOf(initial, longer), |CallsOf(initial, log)|;
            |calls| == j + 1 &&
            (|PastOf(initial, longer).accepted| == |PastOf(initial, log).accepted| + 1 <==>
             forall i | 0 <= i <= j ::
               (Bucket.AcceptedIn(calls, i, j) + 1) * NANOS_PER_SEC <=
               (if calls[i].rate < 1 then 1 else calls[i].rate) * NANOS_PER_SEC + Bucket.RefillIn(calls, i, j))
  {
    var longer := log + [Ingest(event, now, wall)];
    assert longer[..|log|] == log;
    var calls, j := CallsOf(initial, longer), |CallsOf(initial, log)|;
    BucketFollowsCalls(initial, log);
    Bucket.AfterPrefix(CallsOf(initial, log), calls[j], j);
    Bucket.AcceptedExactly(calls, j);
  }

  function IngestCalls(log: seq<Input>): nat {
    if log == [] then 0 else IngestCalls(log[..|log| - 1]) + (if log[|log| - 1].Ingest? then 1 else 0)
  }

  /** Every ingest call was accepted or shed. */
  lemma {:induction false} AcceptedPlusShed(initial: RuleSet, log: seq<Input>)
    ensures |PastOf(initial, log).accepted| + PastOf(initial, log).shed == IngestCalls(log)
    decreases |log|
  {
    if log != [] {
      AcceptedPlusShed(initial, log[..|log| - 1]);
    }
  }

  // ----- Properties of what is stored -----

  lemma RingItem(accepted: seq<Entry>, i: nat)
    requires i < |Newest(Stored(accepted), EVENT_CAP)|
    ensures var ring := Newest(Stored(accepted), EVENT_CAP);
            |ring| == (if |accepted| <= EVENT_CAP then |accepted| else EVENT_CAP) &&
            ring[i] == StoredEvent(SeqNo(|accepted| - |ring| + i), accepted[|accepted| - |ring| + i].event)
  {
    hide SeqNo;
  }

  /** The event ring holds the newest events under consecutive numbers, in order. */
  lemma EventRingConsecutive(accepted: seq<Entry>)
    ensures var ring := Newest(Stored(accepted), EVENT_CAP);
            |ring| == (if |accepted| <= 20_000 then |accepted| else 20_000) &&
            (forall i | 0 <= i < |ring| ::
               ring[i].seqNo == (|accepted| - |ring| + i) % 0x1_0000_0000_0000_0000 &&
               ring[i].event == accepted[|accepted| - |ring| + i].event) &&
            (|accepted| <= TWO_64 ==> forall i, j | 0 <= i < j < |ring| :: ring[i].seqNo < ring[j].seqNo)
  {
    var ring := Newest(Stored(accepted), EVENT_CAP);
    assert |ring| == if |accepted| <= EVENT_CAP then |accepted| else EVENT_CAP;
    hide Newest, Stored, SeqNo;
    forall i | 0 <= i < |ring|
      ensures ring[i] == StoredEvent(SeqNo(|accepted| - |ring| + i), accepted[|accepted| - |ring| + i].event)
      ensures |accepted| <= TWO_64 ==> ring[i].seqNo == |accepted| - |ring| + i
    {
      RingItem(accepted, i);
      SmallSeqNo(|accepted| - |ring| + i);
    }
  }

  /** The violation ring holds the newest 5,000 violations, in order. */
  lemma ViolationRingIsNewest(accepted: seq<Entry>)
    ensures var all, ring := Raised(accepted).violations, Newest(Raised(accepted).violations, VIOLATION_CAP);
            |ring| == (if |all| <= 5_000 then |all| else 5_000) && ring == all[|all| - |ring|..]
  {
    hide Raised;
  }

  lemma SmallSeqNo(i: nat)
    ensures i < TWO_64 ==> SeqNo(i) == i
  {
  }

  predicate ExecsAs(e: Entry, t: U32) {
    e.event.ProcExec? && e.event.tgid == t
  }

  /** Entry `i` is the last exec of `t`. */
  ghost predicate LastExec(accepted: seq<Entry>, i: nat, t: U32)
    requires i < |accepted|
  {
    ExecsAs(accepted[i], t) && forall j | i < j < |accepted| :: !ExecsAs(accepted[j], t)
  }

  /** The record holds what the exec event reported. */
  predicate Records(p: ProcRecord, e: Event) {
    e.ProcExec? && p.tgid == e.tgid && p.ppid == e.ppid && p.comm == e.comm && p.args == e.args &&
    p.cgroupId == e.cgroupId && p.uid == e.uid && p.firstSeenTsNs == e.tsNs
  }

  /** The table maps an id to what its last accepted exec reported, and only such ids. */
  lemma {:induction false} ProcessesAreLatest(accepted: seq<Entry>, t: U32)
    ensures t in Processes(accepted) <==> exists i | 0 <= i < |accepted| :: LastExec(accepted, i, t)
    ensures forall i | 0 <= i < |accepted| && LastExec(accepted, i, t) ::
              Records(Processes(accepted)[t], accepted[i].event)
    decreases |accepted|
  {
    if accepted != [] {
      var n := |accepted| - 1;
      var init := accepted[..n];
      ProcessesAreLatest(init, t);
      if ExecsAs(accepted[n], t) {
        assert LastExec(accepted, n, t);
        assert forall i | 0 <= i < n :: !LastExec(accepted, i, t);
      } else {
        forall i | 0 <= i < n ensures LastExec(accepted, i, t) <==> LastExec(init, i, t) {
          if LastExec(init, i, t) {
            assert forall j | i < j < n :: init[j] == accepted[j];
          }
        }
        assert !LastExec(accepted, n, t);
      }
    }
  }

  lemma {:induction false} ProcessesAreKeyed(accepted: seq<Entry>)
    ensures forall t | t in Processes(accepted) :: Processes(accepted)[t].tgid == t
    decreases |accepted|
  {
    if accepted != [] {
      ProcessesAreKeyed(accepted[..|accepted| - 1]);
    }
  }

  // ----- Properties of the violations -----

  lemma RaisedStep(accepted: seq<Entry>)
    requires accepted != []
    ensures var n := |accepted| - 1;
            var before, vs := Raised(accepted[..n]), EvalEvent(accepted[n].event, accepted[n].rules);
            if vs == [] then Raised(accepted) == before
            else
              |vs| == 1 &&
              var ts := Clock.Candidate(accepted[n].wall, before.clock);
              Raised(accepted) == Stamped(before.violations + [StoredViolation(SeqNo(n), Timestamp.ToRfc3339(ts), vs[0])], ts)
  {
    hide EvalEvent, Timestamp.ToRfc3339, Stamp;
    var n := |accepted| - 1;
    var vs := EvalEvent(accepted[n].event, accepted[n].rules);
    AtMostOneViolation(accepted[n].event, accepted[n].rules);
    StampAtMostOne(Raised(accepted[..n]), vs, SeqNo(n), accepted[n].wall);
  }

  /** A violation is stamped with the least clock value that is not below the wall clock and above the stamp before it;
      an event without violation leaves everything as it was. */
  lemma StampIsLeast(accepted: seq<Entry>, v: U64)
    requires accepted != []
    ensures var n := |accepted| - 1;
            var before, after, vs := Raised(accepted[..n]), Raised(accepted), EvalEvent(accepted[n].event, accepted[n].rules);
            if vs == [] then after == before
            else
              |vs| == 1 && accepted[n].wall <= after.clock &&
              after.violations ==
                before.violations + [StoredViolation(n % 0x1_0000_0000_0000_0000, Timestamp.ToRfc3339(after.clock), vs[0])] &&
              (before.clock < 0xFFFF_FFFF_FFFF_FFFF ==>
                 before.clock < after.clock && (accepted[n].wall <= v && before.clock < v ==> after.clock <= v))
  {
    hide EvalEvent, Timestamp.ToRfc3339, Raised;
    RaisedStep(accepted);
  }

  lemma StampAtMostOne(s: Stamped, vs: seq<Violation>, n: U64, wall: U64)
    requires |vs| <= 1
    ensures Stamp(s, vs, n, wall) ==
            if vs == [] then s
            else
              var ts := Clock.Candidate(wall, s.clock);
              Stamped(s.violations + [StoredViolation(n, Timestamp.ToRfc3339(ts), vs[0])], ts)
  {
    hide Timestamp.ToRfc3339;
    if vs != [] {
      assert vs[..0] == [];
    }
  }

  /** The verdicts stored under number `n`. */
  function VerdictsAt(vs: seq<StoredViolation>, n: U64): seq<Violation> {
    if vs == [] then []
    else VerdictsAt(vs[..|vs| - 1], n) + (if vs[|vs| - 1].seqNo == n then [vs[|vs| - 1].violation] else [])
  }

  lemma {:induction false} NoVerdictsAt(vs: seq<StoredViolation>, n: U64)
    requires forall i | 0 <= i < |vs| :: vs[i].seqNo != n
    ensures VerdictsAt(vs, n) == []
    decreases |vs|
  {
    if vs != [] {
      NoVerdictsAt(vs[..|vs| - 1], n);
    }
  }

  /** Violations are stored in the order of strictly increasing event numbers. */
  lemma {:induction false} ViolationsAscend(accepted: seq<Entry>)
    requires |accepted| <= TWO_64
    ensures var vs := Raised(accepted).violations;
            (forall i | 0 <= i < |vs| :: vs[i].seqNo < |accepted|) &&
            forall i, j | 0 <= i < j < |vs| :: vs[i].seqNo < vs[j].seqNo
    decreases |accepted|
  {
    hide EvalEvent, Timestamp.ToRfc3339, Raised;
    if accepted == [] {
      NothingRaised();
    } else {
      ViolationsAscend(accepted[..|accepted| - 1]);
      RaisedStep(accepted);
    }
  }

  lemma NothingRaised()
    ensures Raised([]) == Stamped([], 0)
  {
  }

  /** Under every event number stands exactly what evaluating that event under its rules gave. */
  lemma {:induction false} ViolationsAreVerdicts(accepted: seq<Entry>, i: nat)
    requires |accepted| <= TWO_64 && i < |accepted|
    ensures VerdictsAt(Raised(accepted).violations, SeqNo(i)) == EvalEvent(accepted[i].event, accepted[i].rules)
    decreases |accepted|
  {
    hide EvalEvent, Timestamp.ToRfc3339, Raised, VerdictsAt;
    var n := |accepted| - 1;
    RaisedStep(accepted);
    ViolationsAscend(accepted[..n]);
    var before := Raised(accepted[..n]).violations;
    var verdicts := EvalEvent(accepted[n].event, accepted[n].rules);
    if verdicts != [] {
      VerdictsStep(before, Raised(accepted).violations[|before|], SeqNo(i));
    }
    if i < n {
      ViolationsAreVerdicts(accepted[..n], i);
    } else {
      NoVerdictsAt(before, SeqNo(n));
    }
  }

  lemma VerdictsStep(vs: seq<StoredViolation>, v: StoredViolation, n: U64)
    ensures VerdictsAt(vs + [v], n) == VerdictsAt(vs, n) + (if v.seqNo == n then [v.violation] else [])
  {
    assert (vs + [v])[..|vs|] == vs;
  }

  /** The clock values behind the printed timestamps. */
  lemma {:induction false} StampsOf(accepted: seq<Entry>) returns (ns: seq<U64>)
    ensures var r := Raised(accepted);
            |ns| == |r.violations| &&
            (forall i | 0 <= i < |ns| :: r.violations[i].tsRfc3339 == Timestamp.ToRfc3339(ns[i]) && ns[i] <= r.clock) &&
            (forall i, j | 0 <= i < j < |ns| :: ns[i] <= ns[j] && (ns[i] < Clock.U64_MAX ==> ns[i] < ns[j]))
    decreases |accepted|
  {
    hide EvalEvent, Timestamp.ToRfc3339, Raised;
    ns := [];
    if accepted == [] {
      NothingRaised();
    } else {
      ns := StampsOf(accepted[..|accepted| - 1]);
      RaisedStep(accepted);
      if Raised(accepted) != Raised(accepted[..|accepted| - 1]) {
        ns := ns + [Raised(accepted).clock];
      }
    }
  }

  /** However the wall clock moves, the timestamps of stored violations never go back, compared as strings. */
  lemma TimestampsNeverGoBack(accepted: seq<Entry>, i: nat, j: nat)
    requires i < j < |Raised(accepted).violations|
    ensures !Timestamp.LexLess(Raised(accepted).violations[j].tsRfc3339, Raised(accepted).violations[i].tsRfc3339)
  {
    hide Timestamp.ToRfc3339, Raised, Timestamp.LexLess;
    var ns := StampsOf(accepted);
    Timestamp.PrintedOrderIsTimeOrder(ns[j], ns[i]);
  }
}
