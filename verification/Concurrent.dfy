/** Overlapping `ingest_at` calls of asg-api/src/lib.rs: reading the clock and the rules, taking the bucket, counting,
    numbering and pushing are separate steps that any number of threads interleave. */
module Concurrent {
  import opened Options
  import opened Arithmetic
  import opened History
  import Bucket = TokenBucket

  /** Where a thread stands inside `ingest_at`: `now` was read at step `readAt`, and `n` is the number it drew. */
  datatype Phase =
    | Idle
    | Timed(now: nat, readAt: nat)
    | Ruled(rate: nat, now: nat, readAt: nat)
    | Refused
    | Passed
    | Counted
    | Numbered(n: nat)
    | Evaluating(n: nat)
    | Reported(n: nat)

  /** `calls` are the calls of the bucket in the order they took its lock, with the steps at which each had read the
      clock and took the lock; `readings` holds every clock reading by its step.
      `evicted + ring` is everything ever pushed, in order; likewise for the violations.
      `drawnAt` and `pushedAt` record the step in which a number was drawn and its event pushed. */
  datatype System = System(
    threads: map<nat, Phase>,
    clock: nat, rate: nat, calls: seq<Bucket.Call>, readAt: seq<nat>, lockedAt: seq<nat>, readings: map<nat, nat>,
    nextSeq: nat, evicted: seq<nat>, ring: seq<nat>,
    violationsEvicted: seq<nat>, violationRing: seq<nat>,
    eventsTotal: nat, dropped: nat,
    violationsTotal: nat, critical: nat, warn: nat,
    time: nat, drawnAt: map<nat, nat>, pushedAt: map<nat, nat>)

  function Start(clock: nat, rate: nat): System {
    System(map[], clock, rate, [], [], [], map[], 0, [], [], [], [], 0, 0, 0, 0, 0, 0, map[], map[])
  }

  ghost predicate Init(s: System) {
    s == Start(s.clock, s.rate)
  }

  /** `Tick` and `PutPolicy` are steps of the surroundings: time passes, the rate changes. */
  datatype Action =
    | Tick(to: nat) | PutPolicy(newRate: nat)
    | Spawn | ReadClock | ReadRules | TakeToken | CountShed | Count | Draw | Push
    | CountViolation(isCritical: bool) | PushViolation | Finish

  ghost predicate At(s: System, t: nat, p: Phase) {
    t in s.threads && s.threads[t] == p
  }

  function Move(s: System, t: nat, p: Phase): System {
    s.(threads := s.threads[t := p], time := s.time + 1)
  }

  ghost predicate Enabled(s: System, t: nat, a: Action) {
    match a
    case Tick(to) => s.clock <= to
    case PutPolicy(_) => true
    case Spawn => t !in s.threads
    case ReadClock => At(s, t, Idle)
    case ReadRules => t in s.threads && s.threads[t].Timed?
    case TakeToken => t in s.threads && s.threads[t].Ruled?
    case CountShed => At(s, t, Refused)
    case Count => At(s, t, Passed)
    case Draw => At(s, t, Counted)
    case Push => t in s.threads && s.threads[t].Numbered?
    case CountViolation(_) => t in s.threads && s.threads[t].Evaluating?
    case PushViolation => t in s.threads && s.threads[t].Reported?
    case Finish => t in s.threads && s.threads[t].Evaluating?
  }

  /** `pop_front` when the ring is full, then `push_back`. */
  function PushTo(ring: seq<nat>, x: nat, cap: nat): seq<nat> {
    (if |ring| >= cap && |ring| > 0 then ring[1..] else ring) + [x]
  }

  function EvictFrom(evicted: seq<nat>, ring: seq<nat>, cap: nat): seq<nat> {
    if |ring| >= cap && |ring| > 0 then evicted + [ring[0]] else evicted
  }

  /** `try_acquire` under the lock of the bucket. */
  function Acquired(s: System, t: nat, rate: nat, now: nat, readAt: nat): System {
    var ok := Bucket.Accepts(Bucket.After(s.calls, |s.calls|), rate, now);
    Move(s, t, if ok then Passed else Refused).(
      calls := s.calls + [Bucket.Call(rate, now)], readAt := s.readAt + [readAt], lockedAt := s.lockedAt + [s.time])
  }

  ghost function After(s: System, t: nat, a: Action): System
    requires Enabled(s, t, a)
  {
    match a
    case Tick(to) => s.(clock := to, time := s.time + 1)
    case PutPolicy(newRate) => s.(rate := newRate, time := s.time + 1)
    case Spawn => Move(s, t, Idle)
    case ReadClock => Move(s, t, Timed(s.clock, s.time)).(readings := s.readings[s.time := s.clock])
    case ReadRules => Move(s, t, Ruled(s.rate, s.threads[t].now, s.threads[t].readAt))
    case TakeToken => Acquired(s, t, s.threads[t].rate, s.threads[t].now, s.threads[t].readAt)
    case CountShed => Move(s, t, Idle).(dropped := s.dropped + 1)
    case Count => Move(s, t, Counted).(eventsTotal := s.eventsTotal + 1)
    case Draw =>
      Move(s, t, Numbered(s.nextSeq)).(nextSeq := s.nextSeq + 1, drawnAt := s.drawnAt[s.nextSeq := s.time])
    case Push =>
      var n := s.threads[t].n;
      Move(s, t, Evaluating(n)).(
        evicted := EvictFrom(s.evicted, s.ring, EVENT_CAP), ring := PushTo(s.ring, n, EVENT_CAP),
        pushedAt := s.pushedAt[n := s.time])
    case CountViolation(isCritical) =>
      Move(s, t, Reported(s.threads[t].n)).(
        violationsTotal := s.violationsTotal + 1,
        critical := s.critical + (if isCritical then 1 else 0), warn := s.warn + (if isCritical then 0 else 1))
    case PushViolation =>
      var n := s.threads[t].n;
      Move(s, t, Evaluating(n)).(
        violationsEvicted := EvictFrom(s.violationsEvicted, s.violationRing, VIOLATION_CAP),
        violationRing := PushTo(s.violationRing, n, VIOLATION_CAP))
    case Finish => Move(s, t, Idle)
  }

  ghost predicate Step(s: System, s': System) {
    exists t: nat, a: Action :: Enabled(s, t, a) && s' == After(s, t, a)
  }

  ghost predicate Run(run: seq<System>) {
    |run| >= 1 && Init(run[0]) && forall i | 0 <= i < |run| - 1 :: Step(run[i], run[i + 1])
  }

  // ----- Conservation -----

  function Pushed(s: System): seq<nat> {
    s.evicted + s.ring
  }

  /** Drawn but not yet pushed. */
  ghost predicate InFlight(s: System, n: nat) {
    exists t :: At(s, t, Numbered(n))
  }

  /** The threads that stand right behind one of the counted steps. */
  function ThreadsAt(threads: map<nat, Phase>, p: Phase): set<nat> {
    set t | t in threads && threads[t] == p
  }

  /** Threads between counting a violation and pushing it. */
  function ThreadsReported(threads: map<nat, Phase>): set<nat> {
    set t | t in threads && threads[t].Reported?
  }

  ghost predicate Distinct(s: seq<nat>) {
    forall i, j | 0 <= i < j < |s| :: s[i] != s[j]
  }

  /** Every number drawn is in exactly one place: in flight with one thread, in the ring, or evicted. */
  ghost predicate NumbersConserved(s: System) {
    && (forall n: nat :: n < s.nextSeq <==> InFlight(s, n) || n in Pushed(s))
    && (forall n: nat :: !(InFlight(s, n) && n in Pushed(s)))
    && (forall t, u | t in s.threads && u in s.threads && t != u && s.threads[t].Numbered? && s.threads[u].Numbered? ::
          s.threads[t].n != s.threads[u].n)
    && Distinct(Pushed(s))
  }

  ghost predicate RingsCapped(s: System) {
    && |s.ring| <= EVENT_CAP && (s.evicted != [] ==> |s.ring| == EVENT_CAP)
    && |s.violationRing| <= VIOLATION_CAP && (s.violationsEvicted != [] ==> |s.violationRing| == VIOLATION_CAP)
  }

  /** The counters run ahead of the stores by exactly the threads between the two steps. */
  ghost predicate CountersConserved(s: System) {
    && s.eventsTotal == s.nextSeq + |ThreadsAt(s.threads, Counted)|
    && s.violationsTotal == |s.violationsEvicted| + |s.violationRing| + |ThreadsReported(s.threads)|
    && s.critical + s.warn == s.violationsTotal
  }

  /** What the bucket accepted and what it shed, but for the threads that have yet to count it. */
  ghost predicate BucketConserved(s: System) {
    && Bucket.AcceptedIn(s.calls, 0, |s.calls|) == s.eventsTotal + |ThreadsAt(s.threads, Passed)|
    && |s.calls| == s.eventsTotal + |ThreadsAt(s.threads, Passed)| + s.dropped + |ThreadsAt(s.threads, Refused)|
  }

  predicate HasReading(p: Phase) {
    p.Timed? || p.Ruled?
  }

  /** The clock does not go back, and every thread and every call has the reading of the step it was taken in. */
  ghost predicate ReadingsTimed(s: System) {
    && (forall m | m in s.readings :: m < s.time && s.readings[m] <= s.clock)
    && (forall m, n | m in s.readings && n in s.readings && m <= n :: s.readings[m] <= s.readings[n])
    && (forall t | t in s.threads && HasReading(s.threads[t]) ::
          s.threads[t].readAt in s.readings && s.readings[s.threads[t].readAt] == s.threads[t].now)
  }

  /** Calls take the lock one after another, each after it read the clock. */
  ghost predicate CallsTimed(s: System) {
    && |s.readAt| == |s.calls| && |s.lockedAt| == |s.calls|
    && (forall i | 0 <= i < |s.calls| ::
          s.readAt[i] in s.readings && s.readings[s.readAt[i]] == s.calls[i].now && s.readAt[i] < s.lockedAt[i] < s.time)
    && (forall i, j | 0 <= i < j < |s.calls| :: s.lockedAt[i] < s.lockedAt[j])
  }

  /** Numbers are drawn in ascending order. */
  ghost predicate DrawsTimed(s: System) {
    && (forall n: nat :: n in s.drawnAt <==> n < s.nextSeq)
    && (forall n | n in s.drawnAt :: s.drawnAt[n] < s.time)
    && (forall m, n | m in s.drawnAt && n in s.drawnAt && m < n :: s.drawnAt[m] < s.drawnAt[n])
  }

  /** An event is pushed after its number was drawn, and the ring is in the order of the pushes. */
  ghost predicate PushesTimed(s: System) {
    && (forall n | n in s.pushedAt :: n in s.drawnAt && s.drawnAt[n] < s.pushedAt[n] < s.time)
    && (forall i | 0 <= i < |Pushed(s)| :: Pushed(s)[i] in s.pushedAt)
    && (forall i, j | 0 <= i < j < |Pushed(s)| :: s.pushedAt[Pushed(s)[i]] < s.pushedAt[Pushed(s)[j]])
  }

  ghost predicate Inv(s: System) {
    && NumbersConserved(s) && RingsCapped(s) && CountersConserved(s) && BucketConserved(s)
    && ReadingsTimed(s) && CallsTimed(s) && DrawsTimed(s) && PushesTimed(s)
  }

  // ----- Every step keeps it -----

  lemma PushedAfter(s: System, t: nat, a: Action)
    requires Enabled(s, t, a) && RingsCapped(s)
    ensures Pushed(After(s, t, a)) == if a.Push? then Pushed(s) + [s.threads[t].n] else Pushed(s)
    ensures RingsCapped(After(s, t, a))
    ensures var s' := After(s, t, a);
            |s'.violationsEvicted| + |s'.violationRing| ==
            |s.violationsEvicted| + |s.violationRing| + (if a.PushViolation? then 1 else 0)
  {
    if a.Push? && |s.ring| >= EVENT_CAP {
      assert s.ring == [s.ring[0]] + s.ring[1..];
    }
  }

  lemma InFlightAfter(s: System, t: nat, a: Action, n: nat)
    requires Enabled(s, t, a) && NumbersConserved(s)
    ensures InFlight(After(s, t, a), n) <==>
            if a.Draw? then InFlight(s, n) || n == s.nextSeq
            else if a.Push? then InFlight(s, n) && n != s.threads[t].n
            else InFlight(s, n)
  {
    hide Pushed, Distinct;
    var s' := After(s, t, a);
    if InFlight(s, n) {
      var u :| At(s, u, Numbered(n));
      assert u != t || a.Tick? || a.PutPolicy? ==> At(s', u, Numbered(n));
    }
    if InFlight(s', n) {
      var u :| At(s', u, Numbered(n));
      assert u != t || a.Tick? || a.PutPolicy? ==> At(s, u, Numbered(n));
    }
    if a.Draw? {
      assert At(s', t, Numbered(s.nextSeq));
    }
  }

  lemma NumbersKept(s: System, t: nat, a: Action)
    requires Enabled(s, t, a) && NumbersConserved(s) && RingsCapped(s)
    ensures NumbersConserved(After(s, t, a))
  {
    hide Pushed, EvictFrom, PushTo, RingsCapped;
    var s' := After(s, t, a);
    PushedAfter(s, t, a);
    if a.Push? {
      assert At(s, t, Numbered(s.threads[t].n));
      assert InFlight(s, s.threads[t].n);
    }
    forall n: nat
      ensures n < s'.nextSeq <==> InFlight(s', n) || n in Pushed(s')
      ensures !(InFlight(s', n) && n in Pushed(s'))
    {
      InFlightAfter(s, t, a, n);
    }
    forall u | u in s.threads && s.threads[u].Numbered? ensures s.threads[u].n < s.nextSeq {
      assert At(s, u, Numbered(s.threads[u].n));
      assert InFlight(s, s.threads[u].n);
    }
  }

  lemma CountersKept(s: System, t: nat, a: Action)
    requires Enabled(s, t, a) && CountersConserved(s) && RingsCapped(s)
    ensures CountersConserved(After(s, t, a))
  {
    hide Pushed, EvictFrom, PushTo, ThreadsAt, ThreadsReported, Acquired, RingsCapped;
    PushedAfter(s, t, a);
    ThreadsAfter(s, t, a);
    if a.TakeToken? {
      AcquiredKeeps(s, t, a);
    }
  }

  /** Taking a token touches the calls of the bucket only. */
  lemma AcquiredKeeps(s: System, t: nat, a: Action)
    requires Enabled(s, t, a) && a.TakeToken?
    ensures var s' := After(s, t, a);
            s' == s.(threads := s'.threads, calls := s'.calls, readAt := s'.readAt, lockedAt := s'.lockedAt, time := s'.time)
  {
  }

  lemma BucketKept(s: System, t: nat, a: Action)
    requires Enabled(s, t, a) && BucketConserved(s)
    ensures BucketConserved(After(s, t, a))
  {
    hide EvictFrom, PushTo, ThreadsAt, ThreadsReported, Bucket.AcceptedIn, Bucket.Accepts, Bucket.After;
    ThreadsAfter(s, t, a);
    if a.TakeToken? {
      Bucket.AcceptedInAppend(s.calls, Bucket.Call(s.threads[t].rate, s.threads[t].now));
    }
  }

  lemma ThreadsMoved(threads: map<nat, Phase>, t: nat, p: Phase, q: Phase)
    ensures ThreadsAt(threads[t := p], q) ==
            if p == q then ThreadsAt(threads, q) + {t} else ThreadsAt(threads, q) - {t}
    ensures ThreadsReported(threads[t := p]) ==
            if p.Reported? then ThreadsReported(threads) + {t} else ThreadsReported(threads) - {t}
    ensures t in ThreadsAt(threads, q) <==> t in threads && threads[t] == q
    ensures t in ThreadsReported(threads) <==> t in threads && threads[t].Reported?
  {
  }

  lemma CountMoved(threads: map<nat, Phase>, t: nat, p: Phase, q: Phase)
    ensures |ThreadsAt(threads[t := p], q)| ==
            |ThreadsAt(threads, q)| + (if p == q then 1 else 0) - (if t in threads && threads[t] == q then 1 else 0)
    ensures |ThreadsReported(threads[t := p])| ==
            |ThreadsReported(threads)| + (if p.Reported? then 1 else 0) - (if t in threads && threads[t].Reported? then 1 else 0)
  {
    hide ThreadsAt, ThreadsReported;
    ThreadsMoved(threads, t, p, q);
  }

  lemma ThreadsAfter(s: System, t: nat, a: Action)
    requires Enabled(s, t, a)
    ensures |ThreadsAt(After(s, t, a).threads, Counted)| ==
            |ThreadsAt(s.threads, Counted)| + (if a.Count? then 1 else if a.Draw? then -1 else 0)
    ensures |ThreadsReported(After(s, t, a).threads)| ==
            |ThreadsReported(s.threads)| + (if a.CountViolation? then 1 else if a.PushViolation? then -1 else 0)
    ensures |ThreadsAt(After(s, t, a).threads, Passed)| ==
            |ThreadsAt(s.threads, Passed)| +
            (if a.TakeToken? && At(After(s, t, a), t, Passed) then 1 else if a.Count? then -1 else 0)
    ensures |ThreadsAt(After(s, t, a).threads, Refused)| ==
            |ThreadsAt(s.threads, Refused)| +
            (if a.TakeToken? && At(After(s, t, a), t, Refused) then 1 else if a.CountShed? then -1 else 0)
    ensures a.TakeToken? ==> At(After(s, t, a), t, Passed) || At(After(s, t, a), t, Refused)
  {
    hide EvictFrom, PushTo, ThreadsAt, ThreadsReported, Bucket.Accepts, Bucket.After;
    if !a.Tick? && !a.PutPolicy? {
      var p := After(s, t, a).threads[t];
      assert After(s, t, a).threads == s.threads[t := p];
      CountMoved(s.threads, t, p, Counted);
      CountMoved(s.threads, t, p, Passed);
      CountMoved(s.threads, t, p, Refused);
    }
  }

  /** What a step does to the clock and to the calls of the bucket. */
  lemma BucketAfter(s: System, t: nat, a: Action)
    requires Enabled(s, t, a)
    ensures var s' := After(s, t, a);
            s'.time == s.time + 1 && s.clock <= s'.clock &&
            s'.readings == (if a.ReadClock? then s.readings[s.time := s.clock] else s.readings)
    ensures var s' := After(s, t, a);
            if a.TakeToken? then
              t in s.threads && HasReading(s.threads[t]) &&
              |s'.calls| == |s.calls| + 1 && s'.calls[..|s.calls|] == s.calls && s'.calls[|s.calls|].now == s.threads[t].now &&
              s'.readAt == s.readAt + [s.threads[t].readAt] && s'.lockedAt == s.lockedAt + [s.time]
            else s'.calls == s.calls && s'.readAt == s.readAt && s'.lockedAt == s.lockedAt
  {
    hide EvictFrom, PushTo, Bucket.Accepts, Bucket.After;
  }

  /** A thread has its reading from before, or has just taken it. */
  lemma ReadingAfter(s: System, t: nat, a: Action, u: nat)
    requires Enabled(s, t, a) && u in After(s, t, a).threads && HasReading(After(s, t, a).threads[u])
    ensures var p := After(s, t, a).threads[u];
            if a.ReadClock? && u == t then p.now == s.clock && p.readAt == s.time
            else u in s.threads && HasReading(s.threads[u]) && p.now == s.threads[u].now && p.readAt == s.threads[u].readAt
  {
    hide EvictFrom, PushTo, Bucket.Accepts, Bucket.After;
  }

  lemma ReadingsKept(s: System, t: nat, a: Action)
    requires Enabled(s, t, a) && ReadingsTimed(s)
    ensures ReadingsTimed(After(s, t, a))
  {
    hide After, Enabled;
    BucketAfter(s, t, a);
    var s' := After(s, t, a);
    forall u | u in s'.threads && HasReading(s'.threads[u])
      ensures s'.threads[u].readAt in s'.readings && s'.readings[s'.threads[u].readAt] == s'.threads[u].now
    {
      ReadingAfter(s, t, a, u);
    }
  }

  lemma CallsKept(s: System, t: nat, a: Action)
    requires Enabled(s, t, a) && ReadingsTimed(s) && CallsTimed(s)
    ensures CallsTimed(After(s, t, a))
  {
    hide After, Enabled, HasReading;
    BucketAfter(s, t, a);
    var s' := After(s, t, a);
    forall i | 0 <= i < |s.calls| ensures s'.calls[i] == s.calls[i] {
      assert s'.calls[..|s.calls|][i] == s.calls[i];
    }
  }

  /** What a step does to the times of the numbers. */
  lemma TimesAfter(s: System, t: nat, a: Action)
    requires Enabled(s, t, a)
    ensures var s' := After(s, t, a);
            s'.time == s.time + 1 && s'.nextSeq == s.nextSeq + (if a.Draw? then 1 else 0) &&
            s'.drawnAt == (if a.Draw? then s.drawnAt[s.nextSeq := s.time] else s.drawnAt) &&
            (a.Push? ==> At(s, t, Numbered(s.threads[t].n))) &&
            s'.pushedAt == (if a.Push? then s.pushedAt[s.threads[t].n := s.time] else s.pushedAt)
  {
    hide EvictFrom, PushTo, Bucket.Accepts, Bucket.After;
  }

  lemma DrawTimesKept(s: System, t: nat, a: Action)
    requires Enabled(s, t, a) && DrawsTimed(s)
    ensures DrawsTimed(After(s, t, a))
  {
    hide After, Enabled;
    TimesAfter(s, t, a);
  }

  lemma PushTimesKept(s: System, t: nat, a: Action)
    requires Enabled(s, t, a) && DrawsTimed(s) && PushesTimed(s) && NumbersConserved(s) && RingsCapped(s)
    ensures PushesTimed(After(s, t, a))
  {
    hide Pushed, Distinct, RingsCapped, After, Enabled;
    PushedAfter(s, t, a);
    TimesAfter(s, t, a);
    if a.Push? {
      var n := s.threads[t].n;
      assert InFlight(s, n);
      forall i | 0 <= i < |Pushed(s)| ensures Pushed(s)[i] != n {
        assert Pushed(s)[i] in Pushed(s);
      }
    }
  }

  lemma StepKeepsInv(s: System, s': System)
    requires Inv(s) && Step(s, s')
    ensures Inv(s')
  {
    hide NumbersConserved, RingsCapped, CountersConserved, BucketConserved, ReadingsTimed, CallsTimed, DrawsTimed, PushesTimed;
    hide After, Enabled;
    var t: nat, a: Action :| Enabled(s, t, a) && s' == After(s, t, a);
    PushedAfter(s, t, a);
    NumbersKept(s, t, a);
    CountersKept(s, t, a);
    BucketKept(s, t, a);
    ReadingsKept(s, t, a);
    CallsKept(s, t, a);
    DrawTimesKept(s, t, a);
    PushTimesKept(s, t, a);
  }

  lemma InitHolds(s: System)
    requires Init(s)
    ensures Inv(s)
  {
  }

  /** In every state of every interleaving: no number is lost or duplicated, the rings keep their caps,
      and the counters are ahead of the stores by the threads between the two steps. */
  lemma {:induction false} RunKeepsInv(run: seq<System>, i: nat)
    requires Run(run) && i < |run|
    ensures Inv(run[i])
  {
    hide Inv, Step, Init;
    if i == 0 {
      InitHolds(run[0]);
    } else {
      RunKeepsInv(run, i - 1);
      StepKeepsInv(run[i - 1], run[i]);
    }
  }

  // ----- Order in the ring -----

  /** The later-numbered ingest drew its number and pushed its event while the other one was between its own
      two steps. */
  ghost predicate Overtakes(s: System, late: nat, early: nat) {
    && late in s.pushedAt && early in s.pushedAt && late in s.drawnAt && early in s.drawnAt
    && s.drawnAt[early] < s.drawnAt[late] < s.pushedAt[late] < s.pushedAt[early]
  }

  /** Two events stand in the ring against the order of their numbers exactly when one ingest overtook the other. */
  lemma InversionExactlyOnOverlap(run: seq<System>, k: nat, i: nat, j: nat)
    requires Run(run) && k < |run| && i < j < |Pushed(run[k])|
    ensures var s := run[k];
            Pushed(s)[i] > Pushed(s)[j] <==> Overtakes(s, Pushed(s)[i], Pushed(s)[j])
    ensures !Overtakes(run[k], Pushed(run[k])[j], Pushed(run[k])[i])
  {
    RunKeepsInv(run, k);
    var s := run[k];
    var a, b := Pushed(s)[i], Pushed(s)[j];
    assert a in s.pushedAt && b in s.pushedAt;
    assert a < b ==> s.drawnAt[a] < s.drawnAt[b];
  }

  ghost predicate NoOverlap(s: System) {
    forall m, n | m in s.pushedAt && n in s.drawnAt && m < n :: s.pushedAt[m] < s.drawnAt[n]
  }

  /** Ingests that do not overlap between drawing and pushing leave the ring in ascending order. */
  lemma SerialIngestsStaySorted(run: seq<System>, k: nat)
    requires Run(run) && k < |run| && NoOverlap(run[k])
    ensures forall i, j | 0 <= i < j < |Pushed(run[k])| :: Pushed(run[k])[i] < Pushed(run[k])[j]
  {
    RunKeepsInv(run, k);
  }

  // ----- Clock readings at the bucket -----

  /** Call `j` had read the clock before call `i` did, but took the lock after it. */
  ghost predicate Overtaken(s: System, i: nat, j: nat)
    requires i < |s.readAt| && j < |s.readAt| && |s.lockedAt| == |s.readAt|
  {
    s.readAt[j] < s.readAt[i] < s.lockedAt[i] < s.lockedAt[j]
  }

  /** The readings the bucket sees go back only between two ingests of which one overtook the other. */
  lemma RegressionMeansOvertaking(run: seq<System>, k: nat, i: nat, j: nat)
    requires Run(run) && k < |run| && i < j < |run[k].calls|
    ensures var s := run[k];
            |s.readAt| == |s.calls| && |s.lockedAt| == |s.calls| &&
            (s.calls[i].now > s.calls[j].now ==> Overtaken(s, i, j)) &&
            (Overtaken(s, i, j) ==> s.calls[i].now >= s.calls[j].now)
  {
    hide NumbersConserved, RingsCapped, CountersConserved, BucketConserved, DrawsTimed, PushesTimed, Run;
    RunKeepsInv(run, k);
    var s := run[k];
    assert s.readAt[i] in s.readings && s.readAt[j] in s.readings && s.lockedAt[i] < s.lockedAt[j];
  }

  ghost predicate NoneOvertaken(s: System) {
    |s.lockedAt| == |s.readAt| && forall i, j | 0 <= i < j < |s.readAt| :: !Overtaken(s, i, j)
  }

  /** At a fixed rate, ingests that do not overtake each other on the way to the bucket keep its bound. */
  lemma OrderedIngestsKeepTheBound(run: seq<System>, k: nat, rate: nat)
    requires Run(run) && k < |run| && NoneOvertaken(run[k]) && Bucket.FixedRate(run[k].calls, rate)
    ensures Bucket.AllInBound(run[k].calls, rate)
  {
    hide Run;
    var calls := run[k].calls;
    forall i, j | 0 <= i <= j < |calls| ensures calls[i].now <= calls[j].now {
      if i < j {
        RegressionMeansOvertaking(run, k, i, j);
      }
    }
    Bucket.SteadyClockKeepsTheBound(calls, rate);
  }

  // ----- Runs -----

  lemma StartRun(clock: nat, rate: nat)
    ensures Run([Start(clock, rate)])
  {
  }

  lemma ExtendRun(run: seq<System>, t: nat, a: Action) returns (longer: seq<System>)
    requires Run(run) && Enabled(run[|run| - 1], t, a)
    ensures |longer| > 1 && Run(longer) && longer[|longer| - 1] == After(run[|run| - 1], t, a)
  {
    hide After, Enabled, Init;
    longer := run + [After(run[|run| - 1], t, a)];
  }

  /** What a step before numbering leaves alone. */
  ghost predicate SameRing(s: System, s': System) {
    s'.ring == s.ring && s'.nextSeq == s.nextSeq
  }

  /** A new thread reads the clock and the rules. */
  lemma Arrive(start: seq<System>, t: nat) returns (run: seq<System>)
    requires |start| >= 1 && Run(start) && t !in start[|start| - 1].threads
    ensures |run| > 1 && Run(run)
    ensures var s, s' := start[|start| - 1], run[|run| - 1];
            SameRing(s, s') && s'.calls == s.calls && s'.clock == s.clock && s'.rate == s.rate &&
            exists at: nat :: s'.threads == s.threads[t := Ruled(s.rate, s.clock, at)]
  {
    hide Run;
    run := ExtendRun(start, t, Spawn);
    run := ExtendRun(run, t, ReadClock);
    run := ExtendRun(run, t, ReadRules);
    var s, s' := start[|start| - 1], run[|run| - 1];
    assert s'.threads == s.threads[t := Ruled(s.rate, s.clock, s.time + 1)];
  }

  /** A thread that has read both takes the bucket. */
  lemma Take(start: seq<System>, t: nat) returns (run: seq<System>)
    requires |start| >= 1 && Run(start) && t in start[|start| - 1].threads && start[|start| - 1].threads[t].Ruled?
    ensures |run| > 1 && Run(run)
    ensures var s, s' := start[|start| - 1], run[|run| - 1];
            var call := Bucket.Call(s.threads[t].rate, s.threads[t].now);
            SameRing(s, s') && s'.calls == s.calls + [call] && s'.clock == s.clock && s'.rate == s.rate &&
            s'.threads == s.threads[t := if Bucket.Accepts(Bucket.After(s.calls, |s.calls|), call.rate, call.now)
                                         then Passed else Refused]
  {
    hide Run, Bucket.Accepts, Bucket.After;
    run := ExtendRun(start, t, TakeToken);
  }

  /** Overlapping ingests can leave the ring unsorted. */
  lemma OverlapCanInvert() returns (run: seq<System>)
    ensures Run(run) && run[|run| - 1].ring == [1, 0]
  {
    hide Run, After, Enabled, At;
    run := BothPassed();
    run := DrawThenPushInverted(run);
  }

  lemma BothPassed() returns (run: seq<System>)
    ensures |run| >= 1 && Run(run) && run[|run| - 1].threads == map[0 := Passed, 1 := Passed]
    ensures run[|run| - 1].ring == [] && run[|run| - 1].nextSeq == 0
  {
    hide Run;
    StartRun(0, 2);
    run := Arrive([Start(0, 2)], 0);
    var at: nat :| run[|run| - 1].threads == map[0 := Ruled(2, 0, at)];
    run := Take(run, 0);
    assert run[|run| - 1].calls == [Bucket.Call(2, 0)];
    run := Arrive(run, 1);
    run := Take(run, 1);
    assert Bucket.After([Bucket.Call(2, 0)], 1) == Bucket.State(NANOS_PER_SEC, Some(0));
  }

  lemma PushInverted(start: seq<System>) returns (run: seq<System>)
    requires |start| >= 1 && Run(start) && start[|start| - 1].ring == []
    requires start[|start| - 1].threads == map[0 := Numbered(0), 1 := Numbered(1)]
    ensures Run(run) && run[|run| - 1].ring == [1, 0]
  {
    hide Run;
    run := ExtendRun(start, 1, Push);
    run := ExtendRun(run, 0, Push);
  }

  lemma DrawThenPushInverted(start: seq<System>) returns (run: seq<System>)
    requires |start| >= 1 && Run(start) && start[|start| - 1].threads == map[0 := Passed, 1 := Passed]
    requires start[|start| - 1].ring == [] && start[|start| - 1].nextSeq == 0
    ensures Run(run) && run[|run| - 1].ring == [1, 0]
  {
    hide Run, After, Enabled;
    run := CountAndDraw(start, 0);
    run := CountAndDraw(run, 1);
    run := PushInverted(run);
  }

  lemma CountAndDraw(start: seq<System>, t: nat) returns (run: seq<System>)
    requires |start| >= 1 && Run(start) && At(start[|start| - 1], t, Passed)
    ensures |run| >= 1 && Run(run)
    ensures var s, s' := start[|start| - 1], run[|run| - 1];
            s'.threads == s.threads[t := Numbered(s.nextSeq)] && s'.nextSeq == s.nextSeq + 1 && s'.ring == s.ring
  {
    hide Run;
    run := ExtendRun(start, t, Count);
    run := ExtendRun(run, t, Draw);
  }

  /** An ingest that is held up for a second between reading the clock and taking the bucket lets the bucket refill
      twice for that second: at rate 1, two events of one and the same instant are accepted. */
  lemma HeldUpIngestBreaksTheBound() returns (run: seq<System>)
    ensures Run(run)
    ensures var calls := run[|run| - 1].calls;
            Bucket.FixedRate(calls, 1) && |calls| == 3 && calls[0].now == calls[2].now &&
            Bucket.AcceptedIn(calls, 0, 3) == 2 && !Bucket.WindowInBound(calls, 1, 0, 2)
  {
    hide Run, Bucket.Accepts, Bucket.After, Bucket.AcceptedIn, Bucket.WindowInBound;
    StartRun(0, 1);
    run := Arrive([Start(0, 1)], 0);
    run := ExtendRun(run, 0, Tick(NANOS_PER_SEC));
    run := Arrive(run, 1);
    run := Arrive(run, 2);
    run := Take(run, 1);
    run := Take(run, 0);
    run := Take(run, 2);
    var n := NANOS_PER_SEC;
    assert run[|run| - 1].calls == [Bucket.Call(1, n), Bucket.Call(1, 0), Bucket.Call(1, n)];
    Bucket.RegressingClockBreaksTheBound();
  }
}
