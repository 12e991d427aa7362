/** The serial history of asg-api/src/lib.rs as one run of the interleaved system: a single thread that serves one call
    after another takes exactly the steps of the history. */
module SerialRun {
  import opened Events
  import opened Rules
  import opened History
  import opened Concurrent
  import Timestamp
  import Bucket = TokenBucket

  /** 0, 1, 2 and so on. */
  function Numbers(n: nat): seq<nat> {
    seq(n, i => i)
  }

  lemma NumbersGrow(n: nat)
    ensures Numbers(n + 1) == Numbers(n) + [n]
  {
  }

  /** The system stands where the history does, and its only thread is idle. */
  ghost predicate Mirrors(s: System, p: Past) {
    && s.threads == map[0 := Idle]
    && s.rate == p.rules.maxEventsPerSec
    && Bucket.After(s.calls, |s.calls|) == p.bucket
    && s.eventsTotal == s.nextSeq == |p.accepted| && s.dropped == p.shed
    && s.evicted + s.ring == Numbers(|p.accepted|)
    && MirrorsViolations(s, p.accepted)
  }

  ghost predicate MirrorsViolations(s: System, accepted: seq<Entry>) {
    var vs := Raised(accepted).violations;
    && s.violationsTotal == |vs| && s.critical == CriticalCount(vs) && s.critical + s.warn == s.violationsTotal
    && |s.violationsEvicted| + |s.violationRing| == |vs|
  }

  /** The clock readings of the ingest calls do not go back. */
  ghost predicate Steady(log: seq<Input>, clock: nat) {
    forall i | 0 <= i < |log| && log[i].Ingest? ::
      log[i].now <= clock && forall j | i < j < |log| && log[j].Ingest? :: log[i].now <= log[j].now
  }

  lemma OneThread(rules: RuleSet) returns (run: seq<System>)
    ensures |run| >= 1 && Run(run) && Mirrors(run[|run| - 1], Past(rules, Bucket.Fresh, [], 0)) && run[|run| - 1].clock == 0
  {
    hide Run;
    StartRun(0, rules.maxEventsPerSec);
    run := ExtendRun([Start(0, rules.maxEventsPerSec)], 0, Spawn);
  }

  /** Everything but the threads, the clock and the trace of steps. */
  ghost predicate SameStores(s: System, s': System) {
    && s'.rate == s.rate && s'.calls == s.calls && s'.eventsTotal == s.eventsTotal && s'.nextSeq == s.nextSeq
    && s'.dropped == s.dropped && s'.evicted == s.evicted && s'.ring == s.ring
    && s'.violationsTotal == s.violationsTotal && s'.critical == s.critical && s'.warn == s.warn
    && s'.violationsEvicted == s.violationsEvicted && s'.violationRing == s.violationRing
  }

  /** Time passes, and the thread reads the clock and the rules. */
  lemma Reads(start: seq<System>, now: nat) returns (run: seq<System>, at: nat)
    requires |start| >= 1 && Run(start) && start[|start| - 1].threads == map[0 := Idle] && start[|start| - 1].clock <= now
    ensures |run| >= 1 && Run(run) && run[|run| - 1].clock == now && SameStores(start[|start| - 1], run[|run| - 1])
    ensures run[|run| - 1].threads == map[0 := Ruled(start[|start| - 1].rate, now, at)]
  {
    hide Run;
    run := ExtendRun(start, 0, Tick(now));
    run := ExtendRun(run, 0, ReadClock);
    run := ExtendRun(run, 0, ReadRules);
    at := start[|start| - 1].time + 1;
  }

  /** An accepted event is counted, numbered and pushed. */
  lemma Stores(start: seq<System>) returns (run: seq<System>)
    requires |start| >= 1 && Run(start) && start[|start| - 1].threads == map[0 := Passed]
    ensures |run| >= 1 && Run(run)
    ensures var s, s' := start[|start| - 1], run[|run| - 1];
            s'.threads == map[0 := Evaluating(s.nextSeq)] && s'.evicted + s'.ring == s.evicted + s.ring + [s.nextSeq] &&
            SameStores(s, s'.(eventsTotal := s.eventsTotal, nextSeq := s.nextSeq, evicted := s.evicted, ring := s.ring)) &&
            s'.eventsTotal == s.eventsTotal + 1 && s'.nextSeq == s.nextSeq + 1 && s'.clock == s.clock
  {
    hide Run, PushTo, EvictFrom;
    run := ExtendRun(start, 0, Count);
    run := ExtendRun(run, 0, Draw);
    PushKeepsOrder(run[|run| - 1].evicted, run[|run| - 1].ring, start[|start| - 1].nextSeq, EVENT_CAP);
    run := ExtendRun(run, 0, Push);
  }

  lemma PushKeepsOrder(evicted: seq<nat>, ring: seq<nat>, x: nat, cap: nat)
    ensures EvictFrom(evicted, ring, cap) + PushTo(ring, x, cap) == evicted + ring + [x]
    ensures |EvictFrom(evicted, ring, cap)| + |PushTo(ring, x, cap)| == |evicted| + |ring| + 1
  {
    if |ring| > 0 {
      assert ring == [ring[0]] + ring[1..];
    }
  }

  /** Everything but the threads, the violations and the trace of steps. */
  ghost predicate SameEvents(s: System, s': System) {
    && s'.clock == s.clock && s'.rate == s.rate && s'.calls == s.calls
    && s'.eventsTotal == s.eventsTotal && s'.nextSeq == s.nextSeq && s'.dropped == s.dropped
    && s'.evicted == s.evicted && s'.ring == s.ring
  }

  ghost predicate MoreViolations(s: System, s': System, total: nat, critical: nat) {
    && critical <= total
    && s'.violationsTotal == s.violationsTotal + total
    && s'.critical == s.critical + critical && s'.warn == s.warn + (total - critical)
    && |s'.violationsEvicted| + |s'.violationRing| == |s.violationsEvicted| + |s.violationRing| + total
  }

  /** A violation is counted and pushed. */
  lemma Reports(start: seq<System>, n: nat, isCritical: bool) returns (run: seq<System>)
    requires |start| >= 1 && Run(start) && start[|start| - 1].threads == map[0 := Evaluating(n)]
    ensures |run| >= 1 && Run(run) && run[|run| - 1].threads == map[0 := Evaluating(n)]
    ensures SameEvents(start[|start| - 1], run[|run| - 1])
    ensures MoreViolations(start[|start| - 1], run[|run| - 1], 1, if isCritical then 1 else 0)
  {
    hide Run, PushTo, EvictFrom;
    var s := start[|start| - 1];
    run := ExtendRun(start, 0, CountViolation(isCritical));
    PushKeepsOrder(s.violationsEvicted, s.violationRing, n, VIOLATION_CAP);
    run := ExtendRun(run, 0, PushViolation);
  }

  /** The violation of the event, if there is one, is reported. */
  lemma Evaluates(start: seq<System>, n: nat, vs: seq<Violation>) returns (run: seq<System>)
    requires |start| >= 1 && Run(start) && |vs| <= 1 && start[|start| - 1].threads == map[0 := Evaluating(n)]
    ensures |run| >= 1 && Run(run) && run[|run| - 1].threads == map[0 := Idle]
    ensures SameEvents(start[|start| - 1], run[|run| - 1])
    ensures MoreViolations(start[|start| - 1], run[|run| - 1], |vs|, if vs != [] && vs[0].severity == Critical then 1 else 0)
  {
    hide Run;
    run := start;
    if vs != [] {
      run := Reports(start, n, vs[0].severity == Critical);
    }
    run := ExtendRun(run, 0, Finish);
  }

  lemma Takes(start: seq<System>, now: nat) returns (run: seq<System>)
    requires |start| >= 1 && Run(start) && start[|start| - 1].threads == map[0 := Idle] && start[|start| - 1].clock <= now
    ensures |run| >= 1 && Run(run)
    ensures var s, s' := start[|start| - 1], run[|run| - 1];
            s'.clock == now && s'.calls == s.calls + [Bucket.Call(s.rate, now)] && SameStores(s, s'.(calls := s.calls)) &&
            s'.threads == map[0 := if Bucket.Accepts(Bucket.After(s.calls, |s.calls|), s.rate, now) then Passed else Refused]
  {
    hide Run, Bucket.Accepts, Bucket.After;
    var at;
    run, at := Reads(start, now);
    run := ExtendRun(run, 0, TakeToken);
  }

  lemma BucketStep(calls: seq<Bucket.Call>, rate: nat, now: nat)
    ensures var longer := calls + [Bucket.Call(rate, now)];
            Bucket.After(longer, |longer|) == Bucket.Next(Bucket.After(calls, |calls|), rate, now)
  {
    hide Bucket.Next;
    assert calls + [] == calls;
    Bucket.AfterPrefix(calls, Bucket.Call(rate, now), |calls|);
  }

  lemma ViolationsStep(accepted: seq<Entry>, entry: Entry)
    ensures var vs := EvalEvent(entry.event, entry.rules);
            var before, after := Raised(accepted).violations, Raised(accepted + [entry]).violations;
            |vs| <= 1 && |after| == |before| + |vs| &&
            CriticalCount(after) == CriticalCount(before) + (if vs != [] && vs[0].severity == Critical then 1 else 0)
  {
    hide EvalEvent, Raised, CriticalCount, Timestamp.ToRfc3339;
    var longer := accepted + [entry];
    AtMostOneViolation(entry.event, entry.rules);
    assert longer[..|accepted|] == accepted;
    RaisedStep(longer);
    var before, after := Raised(accepted).violations, Raised(longer).violations;
    if after != before {
      CriticalCountStep(before, after[|before|]);
    }
  }

  lemma AcceptedAlone(start: seq<System>, before: System, p: Past, entry: Entry, bucket: Bucket.State)
    returns (run: seq<System>)
    requires |start| >= 1 && Run(start) && start[|start| - 1].threads == map[0 := Passed]
    requires Mirrors(before, p) && entry.rules == p.rules && Bucket.After(start[|start| - 1].calls, |start[|start| - 1].calls|) == bucket
    requires SameStores(before, start[|start| - 1].(calls := before.calls))
    ensures |run| >= 1 && Run(run) && run[|run| - 1].clock == start[|start| - 1].clock
    ensures Mirrors(run[|run| - 1], p.(bucket := bucket, accepted := p.accepted + [entry]))
  {
    hide Run, Bucket.After, EvalEvent, Raised, CriticalCount, Numbers;
    ViolationsStep(p.accepted, entry);
    NumbersGrow(|p.accepted|);
    run := Stores(start);
    run := Evaluates(run, start[|start| - 1].nextSeq, EvalEvent(entry.event, entry.rules));
  }

  /** One call by itself does what it does to the history. */
  lemma CallAlone(start: seq<System>, p: Past, event: Event, now: nat, wall: U64) returns (run: seq<System>)
    requires |start| >= 1 && Run(start) && Mirrors(start[|start| - 1], p) && start[|start| - 1].clock <= now
    ensures |run| >= 1 && Run(run) && run[|run| - 1].clock == now
    ensures Mirrors(run[|run| - 1], Advance(p, Ingest(event, now, wall)))
  {
    hide Run, Bucket.Accepts, Bucket.Next, Bucket.After, EvalEvent, Raised, CriticalCount, Numbers;
    var s := start[|start| - 1];
    run := Takes(start, now);
    BucketStep(s.calls, s.rate, now);
    if Bucket.Accepts(p.bucket, s.rate, now) {
      run := AcceptedAlone(run, s, p, Entry(event, p.rules, wall), Bucket.Next(p.bucket, s.rate, now));
    } else {
      run := ExtendRun(run, 0, CountShed);
    }
  }

  /** Every serial history is a run of the system. */
  lemma {:induction false} SerialHistoryIsRun(initial: RuleSet, log: seq<Input>, clock: nat) returns (run: seq<System>)
    requires Steady(log, clock)
    ensures |run| >= 1 && Run(run) && run[|run| - 1].clock <= clock
    ensures Mirrors(run[|run| - 1], PastOf(initial, log))
    decreases |log|
  {
    hide Run, Mirrors, Advance;
    if log == [] {
      run := OneThread(initial);
    } else {
      var n := |log| - 1;
      match log[n] {
        case PutPolicy(rules) =>
          run := SerialHistoryIsRun(initial, log[..n], clock);
          run := PolicyAlone(run, PastOf(initial, log[..n]), rules);
        case Ingest(event, now, wall) =>
          run := SerialHistoryIsRun(initial, log[..n], now);
          run := CallAlone(run, PastOf(initial, log[..n]), event, now, wall);
      }
    }
  }

  lemma PolicyAlone(start: seq<System>, p: Past, rules: RuleSet) returns (run: seq<System>)
    requires |start| >= 1 && Run(start) && Mirrors(start[|start| - 1], p)
    ensures |run| >= 1 && Run(run) && run[|run| - 1].clock == start[|start| - 1].clock
    ensures Mirrors(run[|run| - 1], Advance(p, Input.PutPolicy(rules)))
  {
    hide Run, Raised, CriticalCount;
    run := ExtendRun(start, 0, Action.PutPolicy(rules.maxEventsPerSec));
  }
}
