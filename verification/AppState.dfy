/** The shared state of asg-api/src/lib.rs, used serially: every field is what the input history says it is. */
module AppState {
  import opened Options
  import opened Arithmetic
  import opened Events
  import opened Rules
  import opened ProcessTree
  import opened History
  import opened Paging
  import opened Clock
  import opened ForestBuilder
  import opened ForestOfTable
  import Numerals
  import Timestamp
  import Bucket = TokenBucket

  /** The counters of asg-api/src/metrics.rs that ingest drives. */
  class Metrics {
    var eventsTotal: nat
    var droppedRateLimited: nat
    var violationsTotal: nat
    var violationsCritical: nat
    var violationsWarn: nat

    constructor ()
      ensures eventsTotal == 0 && droppedRateLimited == 0
      ensures violationsTotal == 0 && violationsCritical == 0 && violationsWarn == 0
    {
      eventsTotal, droppedRateLimited := 0, 0;
      violationsTotal, violationsCritical, violationsWarn := 0, 0, 0;
    }

    method IncEvents()
      modifies `eventsTotal
      ensures eventsTotal == old(eventsTotal) + 1
    {
      eventsTotal := eventsTotal + 1;
    }

    method IncDroppedRateLimited()
      modifies `droppedRateLimited
      ensures droppedRateLimited == old(droppedRateLimited) + 1
    {
      droppedRateLimited := droppedRateLimited + 1;
    }

    /** High, medium and low all count as warnings. */
    method IncViolation(severity: Severity)
      modifies `violationsTotal, `violationsCritical, `violationsWarn
      ensures violationsTotal == old(violationsTotal) + 1
      ensures violationsCritical == old(violationsCritical) + (if severity == Critical then 1 else 0)
      ensures violationsWarn == old(violationsWarn) + (if severity == Critical then 0 else 1)
    {
      violationsTotal := violationsTotal + 1;
      match severity
      case Critical => violationsCritical := violationsCritical + 1;
      case High => violationsWarn := violationsWarn + 1;
      case Medium => violationsWarn := violationsWarn + 1;
      case Low => violationsWarn := violationsWarn + 1;
    }
  }

  /** The node shows what the last accepted exec of its process reported, or that there was none. */
  ghost predicate ShowsLastExec(accepted: seq<Entry>, x: ProcNode) {
    && (forall i | 0 <= i < |accepted| && LastExec(accepted, i, x.id) ::
          var e := accepted[i].event;
          x.comm == e.comm && x.args == e.args && x.tsNs == e.tsNs)
    && ((forall e | e in accepted :: !(e.event.ProcExec? && e.event.tgid == x.id)) ==>
          x.comm == "(unknown pid " + Numerals.Decimal(x.id) + ")" && x.args == [] && x.tsNs == 0)
  }

  lemma ForestShowsLastExecs(accepted: seq<Entry>, x: ProcNode)
    requires Within(x, Forest(Processes(accepted)))
    ensures ShowsLastExec(accepted, x)
  {
    hide Forest, Within, Processes, Numerals.Decimal;
    NodesShowRecords(Processes(accepted), x);
    ProcessesAreLatest(accepted, x.id);
    if forall e | e in accepted :: !(e.event.ProcExec? && e.event.tgid == x.id) {
      forall i | 0 <= i < |accepted| ensures !ExecsAs(accepted[i], x.id) {
        assert accepted[i] in accepted;
      }
    }
  }

  class AppState {
    var events: seq<StoredEvent>
    var processes: Table
    var violations: seq<StoredViolation>
    var ruleset: RuleSet
    const rateBucket: Bucket.RateBucket
    const metrics: Metrics
    const lastEmittedNs: AtomicU64
    var nextSeq: U64

    /** All calls so far. */
    ghost var initial: RuleSet
    ghost var log: seq<Input>

    ghost const Repr: set<object> := {this, rateBucket, metrics, lastEmittedNs}

    ghost function Accepted(): seq<Entry>
      reads this
    {
      PastOf(initial, log).accepted
    }

    ghost predicate StoresFollow(accepted: seq<Entry>)
      reads `events, `nextSeq, `processes, `violations, lastEmittedNs
    {
      && events == Newest(Stored(accepted), EVENT_CAP)
      && nextSeq == SeqNo(|accepted|)
      && processes == Processes(accepted)
      && violations == Newest(Raised(accepted).violations, VIOLATION_CAP)
      && lastEmittedNs.value == Raised(accepted).clock
    }

    ghost predicate ViolationCountersFollow(accepted: seq<Entry>)
      reads metrics`violationsTotal, metrics`violationsCritical, metrics`violationsWarn
    {
      && metrics.violationsTotal == |Raised(accepted).violations|
      && metrics.violationsCritical == CriticalCount(Raised(accepted).violations)
      && metrics.violationsCritical + metrics.violationsWarn == metrics.violationsTotal
    }

    ghost predicate CountersFollow(accepted: seq<Entry>, shed: nat)
      reads metrics
    {
      && metrics.eventsTotal == |accepted|
      && metrics.droppedRateLimited == shed
      && ViolationCountersFollow(accepted)
    }

    /** Every field is determined by the history of calls. */
    ghost predicate Valid()
      reads Repr
    {
      var past := PastOf(initial, log);
      && ruleset == past.rules
      && rateBucket.Abs() == past.bucket
      && StoresFollow(past.accepted)
      && CountersFollow(past.accepted, past.shed)
    }

    constructor (rules: RuleSet)
      ensures Valid() && fresh(Repr) && initial == rules && log == []
    {
      events, violations, processes := [], [], map[];
      ruleset := rules;
      rateBucket := new Bucket.RateBucket();
      metrics := new Metrics();
      lastEmittedNs := new AtomicU64(0);
      nextSeq := 0;
      initial, log := rules, [];
    }

    method PutPolicy(rules: RuleSet)
      requires Valid()
      modifies `ruleset, `log
      ensures Valid() && initial == old(initial)
      ensures log == old(log) + [Input.PutPolicy(rules)]
      ensures ruleset == rules && Accepted() == old(Accepted())
      ensures events == old(events) && processes == old(processes) && violations == old(violations)
    {
      ruleset := rules;
      log := log + [Input.PutPolicy(rules)];
      assert log[..|log| - 1] == old(log);
    }

    /** `ingest_at`; `wall` is what the wall clock reads while the event is evaluated. */
    method IngestAt(event: Event, now: nat, wall: U64) returns (accepted: bool)
      requires Valid()
      modifies Repr
      ensures Valid() && initial == old(initial)
      ensures log == old(log) + [Ingest(event, now, wall)] && ruleset == old(ruleset)
      ensures Accepted() == if accepted then old(Accepted()) + [Entry(event, old(ruleset), wall)] else old(Accepted())
    {
      hide PastOf, StoresFollow, Raised, CriticalCount, Bucket.Next, Bucket.Accepts;
      var rules := ruleset;
      ghost var past := PastOf(initial, log);
      PastStep(initial, log, Ingest(event, now, wall));
      accepted := rateBucket.TryAcquire(rules.maxEventsPerSec, now);
      log := log + [Ingest(event, now, wall)];
      if !accepted {
        metrics.IncDroppedRateLimited();
        return false;
      }
      metrics.IncEvents();
      Record(event, rules, wall, past.accepted);
    }

    /** The part of `ingest_at` behind the rate check. */
    method Record(event: Event, rules: RuleSet, wall: U64, ghost before: seq<Entry>)
      requires StoresFollow(before) && ViolationCountersFollow(before)
      modifies `processes, `nextSeq, `events, `violations, lastEmittedNs
      modifies metrics`violationsTotal, metrics`violationsCritical, metrics`violationsWarn
      ensures StoresFollow(before + [Entry(event, rules, wall)])
      ensures ViolationCountersFollow(before + [Entry(event, rules, wall)])
    {
      hide EvalEvent, Raised, Stored, Processes, Newest, CriticalCount, SeqNo;
      var seqNo := StoreEvent(event, rules, wall, before);
      EvaluateEvent(event, rules, wall, before, seqNo);
    }

    /** Process table, sequence number and event ring. */
    method StoreEvent(event: Event, rules: RuleSet, wall: U64, ghost before: seq<Entry>) returns (seqNo: U64)
      requires events == Newest(Stored(before), EVENT_CAP) && nextSeq == SeqNo(|before|) && processes == Processes(before)
      modifies `processes, `nextSeq, `events
      ensures seqNo == SeqNo(|before|)
      ensures var longer := before + [Entry(event, rules, wall)];
              events == Newest(Stored(longer), EVENT_CAP) && nextSeq == SeqNo(|longer|) && processes == Processes(longer)
    {
      hide Stored, Processes, Newest, SeqNo;
      StoredStep(before, Entry(event, rules, wall));
      ProcessesStep(before, Entry(event, rules, wall));
      if event.ProcExec? {
        processes := processes[event.tgid :=
          ProcRecord(event.tgid, event.ppid, event.comm, event.args, event.cgroupId, event.uid, event.tsNs)];
      }
      seqNo := nextSeq;
      nextSeq := (nextSeq + 1) % TWO_64;
      var stored := StoredEvent(seqNo, event);
      PushNewest(Stored(before), stored, EVENT_CAP);
      if |events| >= EVENT_CAP {
        events := events[1..];
      }
      events := events + [stored];
    }

    ghost predicate ViolationsFollow(s: Stamped)
      reads `violations, lastEmittedNs, metrics`violationsTotal, metrics`violationsCritical, metrics`violationsWarn
    {
      && violations == Newest(s.violations, VIOLATION_CAP) && lastEmittedNs.value == s.clock
      && metrics.violationsTotal == |s.violations| && metrics.violationsCritical == CriticalCount(s.violations)
      && metrics.violationsCritical + metrics.violationsWarn == metrics.violationsTotal
    }

    /** `event_now_ns`, with no other thread at the clock. */
    method NextStamp(wall: U64) returns (ns: U64)
      modifies lastEmittedNs
      ensures ns == Candidate(wall, old(lastEmittedNs.value)) && lastEmittedNs.value == ns
    {
      var r, prev, used := MonotonicNowNs(wall, lastEmittedNs, []);
      return r;
    }

    /** One violation is stamped, counted and pushed. */
    method StoreViolation(violation: Violation, seqNo: U64, wall: U64, ghost s: Stamped)
      requires ViolationsFollow(s)
      modifies `violations, lastEmittedNs, metrics`violationsTotal, metrics`violationsCritical, metrics`violationsWarn
      ensures var ts := Candidate(wall, s.clock);
              ViolationsFollow(Stamped(s.violations + [StoredViolation(seqNo, Timestamp.ToRfc3339(ts), violation)], ts))
    {
      hide Timestamp.ToRfc3339, Newest, Candidate, CriticalCount;
      var ns := NextStamp(wall);
      var stored := StoredViolation(seqNo, Timestamp.ToRfc3339(ns), violation);
      metrics.IncViolation(violation.severity);
      PushNewest(s.violations, stored, VIOLATION_CAP);
      CriticalCountStep(s.violations, stored);
      if |violations| >= VIOLATION_CAP {
        violations := violations[1..];
      }
      violations := violations + [stored];
    }

    /** Policy evaluation: each violation is stored in turn. */
    method EvaluateEvent(event: Event, rules: RuleSet, wall: U64, ghost before: seq<Entry>, seqNo: U64)
      requires seqNo == SeqNo(|before|) && ViolationCountersFollow(before)
      requires violations == Newest(Raised(before).violations, VIOLATION_CAP) && lastEmittedNs.value == Raised(before).clock
      modifies `violations, lastEmittedNs, metrics`violationsTotal, metrics`violationsCritical, metrics`violationsWarn
      ensures var longer := before + [Entry(event, rules, wall)];
              ViolationCountersFollow(longer) &&
              violations == Newest(Raised(longer).violations, VIOLATION_CAP) && lastEmittedNs.value == Raised(longer).clock
    {
      hide EvalEvent, Timestamp.ToRfc3339, Newest, Candidate, CriticalCount;
      ghost var longer := before + [Entry(event, rules, wall)];
      assert longer[..|before|] == before;
      ghost var start := Raised(before);
      var raised := EvalEvent(event, rules);
      assert raised[..0] == [];
      var k := 0;
      while k < |raised|
        invariant 0 <= k <= |raised|
        invariant ViolationsFollow(Stamp(start, raised[..k], seqNo, wall))
      {
        assert raised[..k + 1][..k] == raised[..k];
        StoreViolation(raised[k], seqNo, wall, Stamp(start, raised[..k], seqNo, wall));
        k := k + 1;
      }
      assert raised[..k] == raised;
    }

    /** `get_events`. */
    method GetEvents(limit: Option<nat>, since: Option<U64>) returns (page: seq<StoredEvent>)
      requires Valid()
      ensures page == EventPage(Newest(Stored(Accepted()), EVENT_CAP), limit, since)
    {
      hide PastOf, EventPage, ViolationCountersFollow;
      page := EventPage(events, limit, since);
    }

    /** `get_violations`: the newest `limit` violations, newest last. */
    method GetViolations(limit: Option<nat>) returns (page: seq<StoredViolation>)
      requires Valid()
      ensures page == Newest(Raised(Accepted()).violations, Bounded(limit, 200, VIOLATION_CAP))
    {
      hide PastOf, Raised, ViolationPage, Newest, ViolationCountersFollow;
      ViolationPageIsNewest(Raised(Accepted()).violations, limit);
      page := ViolationPage(violations, limit);
    }

    /** The forest of the processes observed so far. */
    method GetProcesses() returns (forest: seq<ProcNode>)
      requires Valid()
      ensures forest == Forest(Processes(Accepted()))
      ensures forall x | Within(x, forest) :: ShowsLastExec(Accepted(), x)
    {
      hide Forest, ForestOf, Terminates, PastOf, Within, ShowsLastExec;
      forall x | Within(x, Forest(Processes(Accepted()))) ensures ShowsLastExec(Accepted(), x) {
        ForestShowsLastExecs(Accepted(), x);
      }
      ProcessesAreKeyed(Accepted());
      var records := ValuesOf(processes);
      ForestOfDistinct(records);
      forest := BuildProcessForest(records);
    }
  }

  /** The values of the map, in whatever order it yields them. */
  method ValuesOf(m: Table) returns (records: seq<ProcRecord>)
    requires forall t | t in m :: m[t].tgid == t
    ensures UniqueTgids(records) && ByTgid(records) == m
  {
    records := [];
    var left := m.Keys;
    while left != {}
      invariant left <= m.Keys
      invariant forall i | 0 <= i < |records| :: records[i].tgid in m.Keys - left && records[i] == m[records[i].tgid]
      invariant UniqueTgids(records)
      invariant forall t | t in m.Keys - left :: m[t] in records
      decreases |left|
    {
      var t :| t in left;
      records := records + [m[t]];
      left := left - {t};
    }
    ByTgidHolds(records);
    assert ByTgid(records) == m by {
      forall t | t in m ensures t in ByTgid(records) && ByTgid(records)[t] == m[t] {
        assert m[t] in records;
      }
    }
  }
}
