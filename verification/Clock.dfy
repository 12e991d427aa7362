/** `monotonic_now_ns` of asg-api/src/lib.rs: a compare-and-swap loop that never hands out a value twice. */
module Clock {
  import opened Options
  import opened Events

  const U64_MAX: U64 := 0xFFFF_FFFF_FFFF_FFFF

  function SaturatingSucc(x: U64): U64 {
    if x == U64_MAX then U64_MAX else x + 1
  }

  /** `now_ns.max(last.saturating_add(1))`. */
  function Candidate(now: U64, last: U64): U64 {
    if now >= SaturatingSucc(last) then now else SaturatingSucc(last)
  }

  // ----- The loop, as one thread runs it -----

  class AtomicU64 {
    var value: U64

    constructor (v: U64)
      ensures value == v
    {
      value := v;
    }

    /** The weak exchange may fail although the value is the expected one. */
    method CompareExchangeWeak(current: U64, next: U64, spurious: bool) returns (ok: bool, actual: U64)
      modifies this
      ensures actual == old(value)
      ensures ok <==> old(value) == current && !spurious
      ensures value == if ok then next else old(value)
    {
      actual := value;
      ok := value == current && !spurious;
      if ok {
        value := next;
      }
    }
  }

  /** What may happen right before one attempt: another thread stores a value, the exchange fails for no reason,
      or the value this thread had read, by a relaxed load or from a failed exchange, was not the cell's. */
  datatype Interference = Interference(stored: Option<U64>, spurious: bool, seen: Option<U64>)

  /** The cell after `others`, of which this thread is none. */
  function LastStored(initial: U64, others: seq<Interference>): U64 {
    if others == [] then initial
    else GetOr(others[|others| - 1].stored, LastStored(initial, others[..|others| - 1]))
  }

  lemma LastStoredStep(initial: U64, others: seq<Interference>, k: nat)
    requires k < |others|
    ensures LastStored(initial, others[..k + 1]) == GetOr(others[k].stored, LastStored(initial, others[..k]))
  {
    assert others[..k + 1][..k] == others[..k];
  }

  /** The result is the candidate over `prev`, the value the successful exchange replaced: what the `used`
      interferences that came before it had left in the cell. */
  method MonotonicNowNs(nowNs: U64, lastEmitted: AtomicU64, others: seq<Interference>)
    returns (r: U64, ghost prev: U64, ghost used: nat)
    modifies lastEmitted
    ensures used <= |others| && prev == LastStored(old(lastEmitted.value), others[..used])
    ensures r == Candidate(nowNs, prev) && lastEmitted.value == r
  {
    var last := lastEmitted.value;
    var k := 0;
    while true
      invariant 0 <= k <= |others|
      invariant lastEmitted.value == LastStored(old(lastEmitted.value), others[..k])
      decreases |others| - k, if last == lastEmitted.value then 0 else 1
    {
      var spurious := false;
      if k < |others| {
        LastStoredStep(old(lastEmitted.value), others, k);
        last := GetOr(others[k].seen, last);
        lastEmitted.value := GetOr(others[k].stored, lastEmitted.value);
        spurious := others[k].spurious;
        k := k + 1;
      }
      var candidate := Candidate(nowNs, last);
      var ok, actual := lastEmitted.CompareExchangeWeak(last, candidate, spurious);
      if ok {
        return candidate, last, k;
      }
      last := actual;
    }
  }

  // ----- All threads together -----

  datatype Thread = Idle | Trying(now: U64, last: U64)

  datatype Emission = Emission(now: U64, value: U64)

  /** `log` lists the successful exchanges in the order they took effect. */
  datatype System = System(shared: U64, threads: map<nat, Thread>, log: seq<Emission>)

  ghost predicate Init(s: System) {
    s.shared == 0 && s.log == [] && forall t | t in s.threads :: s.threads[t].Idle?
  }

  /** The load is relaxed: `seen` may be any value, not just the cell's. */
  ghost predicate Load(s: System, s': System, t: nat, now: U64, seen: U64) {
    t in s.threads && s.threads[t].Idle? &&
    s' == s.(threads := s.threads[t := Trying(now, seen)])
  }

  ghost predicate Succeed(s: System, s': System, t: nat) {
    t in s.threads && s.threads[t].Trying? && s.threads[t].last == s.shared &&
    var v := Candidate(s.threads[t].now, s.threads[t].last);
    s' == System(v, s.threads[t := Idle], s.log + [Emission(s.threads[t].now, v)])
  }

  /** A failed attempt goes on with what it saw; it may be spurious, so the values need not differ. */
  ghost predicate Fail(s: System, s': System, t: nat, seen: U64) {
    t in s.threads && s.threads[t].Trying? &&
    s' == s.(threads := s.threads[t := Trying(s.threads[t].now, seen)])
  }

  ghost predicate Step(s: System, s': System) {
    (exists t, now, seen :: Load(s, s', t, now, seen)) || (exists t :: Succeed(s, s', t)) ||
    (exists t, seen :: Fail(s, s', t, seen))
  }

  ghost predicate Run(run: seq<System>) {
    |run| >= 1 && Init(run[0]) && forall i | 0 <= i < |run| - 1 :: Step(run[i], run[i + 1])
  }

  /** The value emitted before emission `k`; the cell starts at zero. */
  function Before(log: seq<Emission>, k: nat): U64
    requires k <= |log|
  {
    if k == 0 then 0 else log[k - 1].value
  }

  /** Emission `k` is the candidate over the emission before it. */
  ghost predicate Link(log: seq<Emission>, k: nat)
    requires k < |log|
  {
    log[k].value == Candidate(log[k].now, Before(log, k))
  }

  ghost predicate Chained(log: seq<Emission>) {
    forall k | 0 <= k < |log| :: Link(log, k)
  }

  ghost predicate Inv(s: System) {
    s.shared == Before(s.log, |s.log|) && Chained(s.log)
  }

  lemma StepKeepsInv(s: System, s': System)
    requires Inv(s) && Step(s, s')
    ensures Inv(s')
  {
    if t :| Succeed(s, s', t) {
      forall k | 0 <= k < |s'.log| ensures Link(s'.log, k) {
        assert k < |s.log| ==> Link(s.log, k);
      }
    }
  }

  /** In every reachable state the emissions form a chain: each is the candidate over the one before it. */
  lemma {:induction false} RunKeepsInv(run: seq<System>, i: nat)
    requires Run(run) && i < |run|
    ensures Inv(run[i])
  {
    if i > 0 {
      RunKeepsInv(run, i - 1);
      StepKeepsInv(run[i - 1], run[i]);
    }
  }

  // ----- What the chain means -----

  lemma {:induction false} EmissionsGrow(log: seq<Emission>, i: nat, j: nat)
    requires Chained(log) && i < j < |log|
    ensures log[i].value <= log[j].value
    ensures log[i].value < U64_MAX ==> log[i].value < log[j].value
    decreases j
  {
    assert Link(log, j);
    if i < j - 1 {
      EmissionsGrow(log, i, j - 1);
    }
  }

  /** Two emissions of any run differ, in exchange order, exactly when the earlier one is below the `u64` maximum. */
  lemma EmissionsStrictlyIncrease(run: seq<System>, n: nat, i: nat, j: nat)
    requires Run(run) && n < |run| && i < j < |run[n].log|
    ensures var log := run[n].log;
            if log[i].value < U64_MAX then log[i].value < log[j].value else log[i].value == log[j].value
  {
    RunKeepsInv(run, n);
    EmissionsGrow(run[n].log, i, j);
  }

  /** At the maximum a value is handed out twice: two ingests whose wall clock reads the last instant. */
  lemma MaximumIsRepeated() returns (run: seq<System>)
    ensures Run(run) && run[|run| - 1].log == [Emission(U64_MAX, U64_MAX), Emission(U64_MAX, U64_MAX)]
  {
    var idle := map[0 := Idle];
    var first := [Emission(U64_MAX, U64_MAX)];
    var s0, s1, s2 := System(0, idle, []), System(0, map[0 := Trying(U64_MAX, 0)], []), System(U64_MAX, idle, first);
    var s3 := System(U64_MAX, map[0 := Trying(U64_MAX, U64_MAX)], first);
    var s4 := System(U64_MAX, idle, first + first);
    run := [s0, s1, s2, s3, s4];
    assert Load(s0, s1, 0, U64_MAX, 0) && Succeed(s1, s2, 0);
    assert Load(s2, s3, 0, U64_MAX, U64_MAX) && Succeed(s3, s4, 0);
  }

  /** Each emission is the least value that is not below its own reading and above the emission before it. */
  lemma EmissionIsLeast(run: seq<System>, n: nat, k: nat, v: U64)
    requires Run(run) && n < |run| && k < |run[n].log| && Before(run[n].log, k) < U64_MAX
    ensures var e := run[n].log[k];
            e.now <= e.value && Before(run[n].log, k) < e.value &&
            (e.now <= v && Before(run[n].log, k) < v ==> e.value <= v)
  {
    RunKeepsInv(run, n);
    assert Link(run[n].log, k);
  }

  function LargestReading(log: seq<Emission>): nat {
    if log == [] then 0
    else
      var m := LargestReading(log[..|log| - 1]);
      if log[|log| - 1].now >= m then log[|log| - 1].now else m
  }

  lemma ChainedPrefix(log: seq<Emission>, n: nat)
    requires Chained(log) && n <= |log|
    ensures Chained(log[..n])
  {
    forall k | 0 <= k < n ensures Link(log[..n], k) {
      assert Link(log, k);
    }
  }

  lemma {:induction false} ReadingBound(log: seq<Emission>)
    requires Chained(log)
    ensures Before(log, |log|) <= LargestReading(log) + |log|
    decreases |log|
  {
    if log != [] {
      var n := |log| - 1;
      ChainedPrefix(log, n);
      ReadingBound(log[..n]);
      assert Before(log[..n], n) == Before(log, n);
      assert Link(log, n);
    }
  }

  /** An emission runs ahead of the largest reading by no more than the number of emissions. */
  lemma EmissionsStayClose(run: seq<System>, n: nat, k: nat)
    requires Run(run) && n < |run| && k < |run[n].log|
    ensures run[n].log[k].value <= LargestReading(run[n].log[..k + 1]) + k + 1
  {
    RunKeepsInv(run, n);
    ChainedPrefix(run[n].log, k + 1);
    ReadingBound(run[n].log[..k + 1]);
  }
}
