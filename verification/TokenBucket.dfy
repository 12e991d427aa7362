/** `RateBucket::try_acquire` of asg-api/src/lib.rs in exact arithmetic: the balance is counted in
    token-nanoseconds, so that `tokens` of the source is `level / NANOS_PER_SEC`. */
module TokenBucket {
  import opened Options
  import opened Arithmetic

  function Min(a: int, b: int): int {
    if a <= b then a else b
  }

  /** `rate.max(1)`, which is both the refill per second and the capacity. */
  function Capacity(rate: nat): nat {
    if rate < 1 then 1 else rate
  }

  /** `saturating_duration_since`: zero when the clock went backwards. */
  function Elapsed(prev: nat, now: nat): nat {
    if now < prev then 0 else now - prev
  }

  datatype State = State(level: nat, last: Option<nat>)

  const Fresh := State(0, None)

  /** The balance a call at `now` decides on. */
  function Refilled(s: State, rate: nat, now: nat): nat {
    var cap := Capacity(rate);
    match s.last
    case Some(prev) => Min(s.level + Elapsed(prev, now) * cap, cap * NANOS_PER_SEC)
    case None => cap * NANOS_PER_SEC
  }

  predicate Accepts(s: State, rate: nat, now: nat) {
    Refilled(s, rate, now) >= NANOS_PER_SEC
  }

  function Next(s: State, rate: nat, now: nat): State {
    State(Refilled(s, rate, now) - (if Accepts(s, rate, now) then NANOS_PER_SEC else 0), Some(now))
  }

  class RateBucket {
    var level: nat
    var last: Option<nat>

    ghost function Abs(): State
      reads this
    {
      State(level, last)
    }

    constructor ()
      ensures Abs() == Fresh
    {
      level, last := 0, None;
    }

    method TryAcquire(ratePerSec: nat, now: nat) returns (ok: bool)
      modifies this
      ensures ok == Accepts(old(Abs()), ratePerSec, now)
      ensures Abs() == Next(old(Abs()), ratePerSec, now)
    {
      var capacity := if ratePerSec < 1 then 1 else ratePerSec;
      match last {
        case Some(prev) =>
          var elapsed := if now < prev then 0 else now - prev;
          level := level + elapsed * capacity;
          if level > capacity * NANOS_PER_SEC {
            level := capacity * NANOS_PER_SEC;
          }
        case None =>
          level := capacity * NANOS_PER_SEC;
      }
      last := Some(now);
      if level >= NANOS_PER_SEC {
        level := level - NANOS_PER_SEC;
        ok := true;
      } else {
        ok := false;
      }
    }
  }

  // ----- Runs -----

  /** One call: the rate in force and the clock reading. */
  datatype Call = Call(rate: nat, now: nat)

  /** The state after the first `n` calls. */
  function After(calls: seq<Call>, n: nat): State
    requires n <= |calls|
  {
    if n == 0 then Fresh else Next(After(calls, n - 1), calls[n - 1].rate, calls[n - 1].now)
  }

  predicate Accepted(calls: seq<Call>, n: nat)
    requires n < |calls|
  {
    Accepts(After(calls, n), calls[n].rate, calls[n].now)
  }

  /** How many of the calls `i..j` were accepted. */
  function AcceptedIn(calls: seq<Call>, i: nat, j: nat): nat
    requires i <= j <= |calls|
  {
    if i == j then 0 else AcceptedIn(calls, i, j - 1) + (if Accepted(calls, j - 1) then 1 else 0)
  }

  /** A later call does not change what came before it. */
  lemma {:induction false} AfterPrefix(calls: seq<Call>, call: Call, n: nat)
    requires n <= |calls|
    ensures After(calls + [call], n) == After(calls, n)
  {
    if n > 0 {
      AfterPrefix(calls, call, n - 1);
    }
  }

  lemma {:induction false} AcceptedInPrefix(calls: seq<Call>, call: Call, i: nat, j: nat)
    requires i <= j <= |calls|
    ensures AcceptedIn(calls + [call], i, j) == AcceptedIn(calls, i, j)
    decreases j
  {
    if i < j {
      AfterPrefix(calls, call, j - 1);
      AcceptedInPrefix(calls, call, i, j - 1);
    }
  }

  lemma AcceptedInAppend(calls: seq<Call>, call: Call)
    ensures AcceptedIn(calls + [call], 0, |calls| + 1) ==
            AcceptedIn(calls, 0, |calls|) + (if Accepts(After(calls, |calls|), call.rate, call.now) then 1 else 0)
  {
    AfterPrefix(calls, call, |calls|);
    AcceptedInPrefix(calls, call, 0, |calls|);
  }

  /** What can be refilled from call `i` to call `j`: the time that has passed before each call, none where the clock
      went back, at the rate in force or one token a second, whichever is more. */
  function RefillIn(calls: seq<Call>, i: nat, j: nat): nat
    requires i <= j < |calls|
  {
    if i == j then 0
    else
      RefillIn(calls, i, j - 1) +
      (if calls[j].now < calls[j - 1].now then 0 else calls[j].now - calls[j - 1].now) *
      (if calls[j].rate < 1 then 1 else calls[j].rate)
  }

  /** The budget of the window `i..j`, in token-nanoseconds, less what was accepted before call `j`. */
  function Headroom(calls: seq<Call>, i: nat, j: nat): int
    requires i <= j < |calls|
  {
    Capacity(calls[i].rate) * NANOS_PER_SEC + RefillIn(calls, i, j) - AcceptedIn(calls, i, j) * NANOS_PER_SEC
  }

  function Balance(calls: seq<Call>, j: nat): nat
    requires j < |calls|
  {
    Refilled(After(calls, j), calls[j].rate, calls[j].now)
  }

  lemma BalanceStep(calls: seq<Call>, j: nat)
    requires 1 <= j < |calls|
    ensures Balance(calls, j) ==
            Min(Balance(calls, j - 1) - (if Accepted(calls, j - 1) then NANOS_PER_SEC else 0) +
                Elapsed(calls[j - 1].now, calls[j].now) * Capacity(calls[j].rate),
                Capacity(calls[j].rate) * NANOS_PER_SEC)
  {
  }

  lemma HeadroomStep(calls: seq<Call>, i: nat, j: nat)
    requires i < j < |calls|
    ensures Headroom(calls, i, j) == Headroom(calls, i, j - 1) - (if Accepted(calls, j - 1) then NANOS_PER_SEC else 0) +
                                     Elapsed(calls[j - 1].now, calls[j].now) * Capacity(calls[j].rate)
  {
  }

  /** The balance is the least headroom over all windows that end at the call. */
  lemma {:induction false} BalanceIsLeastHeadroom(calls: seq<Call>, j: nat)
    requires j < |calls|
    ensures forall i | 0 <= i <= j :: Balance(calls, j) <= Headroom(calls, i, j)
    ensures exists i :: 0 <= i <= j && Balance(calls, j) == Headroom(calls, i, j)
    decreases j
  {
    if j == 0 {
      assert Balance(calls, 0) == Headroom(calls, 0, 0);
    } else {
      BalanceIsLeastHeadroom(calls, j - 1);
      BalanceStep(calls, j);
      forall i | 0 <= i < j
        ensures Headroom(calls, i, j) == Headroom(calls, i, j - 1) - (if Accepted(calls, j - 1) then NANOS_PER_SEC else 0) +
                                         Elapsed(calls[j - 1].now, calls[j].now) * Capacity(calls[j].rate)
      {
        HeadroomStep(calls, i, j);
      }
      assert Headroom(calls, j, j) == Capacity(calls[j].rate) * NANOS_PER_SEC;
      var k :| 0 <= k <= j - 1 && Balance(calls, j - 1) == Headroom(calls, k, j - 1);
      assert Balance(calls, j) == Headroom(calls, k, j) || Balance(calls, j) == Headroom(calls, j, j);
    }
  }

  /** Exactly when a call of any run is accepted, whatever the policy changes and clock readings:
      every window that ends with it still has room for one more. */
  lemma AcceptedExactly(calls: seq<Call>, j: nat)
    requires j < |calls|
    ensures Accepted(calls, j) <==>
            forall i | 0 <= i <= j ::
              (AcceptedIn(calls, i, j) + 1) * NANOS_PER_SEC <=
              (if calls[i].rate < 1 then 1 else calls[i].rate) * NANOS_PER_SEC + RefillIn(calls, i, j)
  {
    BalanceIsLeastHeadroom(calls, j);
    forall i | 0 <= i <= j
      ensures NANOS_PER_SEC <= Headroom(calls, i, j) <==>
              (AcceptedIn(calls, i, j) + 1) * NANOS_PER_SEC <=
              (if calls[i].rate < 1 then 1 else calls[i].rate) * NANOS_PER_SEC + RefillIn(calls, i, j)
    {
    }
  }

  // ----- What the bucket does, without its own terms -----

  function Burst(rate: nat, now: nat, n: nat): seq<Call> {
    seq(n, _ => Call(rate, now))
  }

  lemma {:induction false} BurstAfter(rate: nat, now: nat, n: nat, k: nat)
    requires k <= n
    ensures |Burst(rate, now, n)| == n && AcceptedIn(Burst(rate, now, n), 0, k) == Min(k, Capacity(rate))
    ensures k > 0 ==> After(Burst(rate, now, n), k) == State((Capacity(rate) - Min(k, Capacity(rate))) * NANOS_PER_SEC, Some(now))
  {
    if k > 0 {
      BurstAfter(rate, now, n, k - 1);
      BurstStep(rate, now, n, k - 1);
    }
  }

  lemma BurstStep(rate: nat, now: nat, n: nat, k: nat)
    requires k < n
    requires k > 0 ==> After(Burst(rate, now, n), k) == State((Capacity(rate) - Min(k, Capacity(rate))) * NANOS_PER_SEC, Some(now))
    ensures Accepted(Burst(rate, now, n), k) <==> k < Capacity(rate)
    ensures After(Burst(rate, now, n), k + 1) ==
            State((Capacity(rate) - Min(k + 1, Capacity(rate))) * NANOS_PER_SEC, Some(now))
  {
    var calls, c := Burst(rate, now, n), Capacity(rate);
    assert c >= 1 && calls[k] == Call(rate, now);
    hide Capacity, Burst;
    assert Refilled(After(calls, k), rate, now) == (c - Min(k, c)) * NANOS_PER_SEC;
  }

  /** From a fresh bucket, of `n` calls at one reading as many are accepted as the rate says, and one at rate 0. */
  lemma BurstAccepts(rate: nat, now: nat, n: nat)
    ensures |Burst(rate, now, n)| == n
    ensures AcceptedIn(Burst(rate, now, n), 0, n) == (if n <= rate || n == 1 then n else if rate == 0 then 1 else rate)
  {
    BurstAfter(rate, now, n, n);
  }

  /** Calls at `now`, which drain a fresh bucket, and one at `later`. */
  function BurstThenCall(rate: nat, now: nat, later: nat): (calls: seq<Call>)
    ensures |calls| == (if rate == 0 then 1 else rate) + 1 && forall k | 0 <= k < |calls| :: calls[k].rate == rate
    ensures forall k | 0 <= k < |calls| - 1 :: calls[k].now == now
    ensures calls[|calls| - 1].now == later
  {
    Burst(rate, now, if rate == 0 then 1 else rate) + [Call(rate, later)]
  }

  lemma BurstDrains(rate: nat, now: nat, later: nat)
    ensures var n := if rate == 0 then 1 else rate;
            n == Capacity(rate) && AcceptedIn(BurstThenCall(rate, now, later), 0, n) == n &&
            After(BurstThenCall(rate, now, later), n) == State(0, Some(now))
  {
    var n := if rate == 0 then 1 else rate;
    var calls, last := Burst(rate, now, n), Call(rate, later);
    BurstAfter(rate, now, n, n);
    AfterPrefix(calls, last, n);
    AcceptedInPrefix(calls, last, 0, n);
  }

  /** A drained bucket accepts again exactly when a whole token has been refilled: `rate` tokens for every
      1,000,000,000 ns, and one at rate 0. */
  lemma RefillAccepts(rate: nat, now: nat, later: nat)
    ensures var n := if rate == 0 then 1 else rate;
            Accepted(BurstThenCall(rate, now, later), n) <==>
            now <= later && (later - now) * n >= 1_000_000_000
  {
    BurstDrains(rate, now, later);
    var n := if rate == 0 then 1 else rate;
    hide Capacity, BurstThenCall;
    assert Refilled(State(0, Some(now)), rate, later) == Min(Elapsed(now, later) * n, n * NANOS_PER_SEC);
    if now > later {
      assert Elapsed(now, later) * n == 0;
    }
  }

  // ----- Consequences -----

  /** No window of calls, under any policy changes, accepts more than its first capacity plus its refill. */
  lemma {:induction false} WindowUpperBound(calls: seq<Call>, i: nat, j: nat)
    requires i <= j < |calls|
    ensures AcceptedIn(calls, i, j + 1) * NANOS_PER_SEC <= Capacity(calls[i].rate) * NANOS_PER_SEC + RefillIn(calls, i, j)
    decreases j
  {
    hide Accepted;
    if Accepted(calls, j) {
      AcceptedExactly(calls, j);
    } else if i < j {
      WindowUpperBound(calls, i, j - 1);
    }
  }

  /** The stored balance never exceeds the capacity the last call found. */
  lemma BalanceWithinCapacity(calls: seq<Call>, n: nat)
    requires 1 <= n <= |calls|
    ensures 0 <= After(calls, n).level <= Capacity(calls[n - 1].rate) * NANOS_PER_SEC
  {
  }

  ghost predicate FixedRate(calls: seq<Call>, rate: nat) {
    forall i | 0 <= i < |calls| :: calls[i].rate == rate
  }

  ghost predicate ClockNeverRegresses(calls: seq<Call>) {
    forall i, j | 0 <= i <= j < |calls| :: calls[i].now <= calls[j].now
  }

  lemma {:induction false} RefillAtFixedRate(calls: seq<Call>, rate: nat, i: nat, j: nat)
    requires FixedRate(calls, rate) && ClockNeverRegresses(calls) && i <= j < |calls|
    ensures RefillIn(calls, i, j) == Capacity(rate) * (calls[j].now - calls[i].now)
    decreases j
  {
    if i < j {
      RefillAtFixedRate(calls, rate, i, j - 1);
      var c, a, b := Capacity(rate), calls[j - 1].now - calls[i].now, calls[j].now - calls[j - 1].now;
      assert c * (a + b) == c * a + b * c;
    }
  }

  /** Every window of a run keeps to burst `C` plus `C` tokens a second. */
  ghost predicate Conforms(calls: seq<Call>, rate: nat) {
    forall i, j | 0 <= i <= j < |calls| ::
      (j - i + 1) * NANOS_PER_SEC <= Capacity(rate) * NANOS_PER_SEC + Capacity(rate) * (calls[j].now - calls[i].now)
  }

  lemma {:induction false} AllAcceptedCount(calls: seq<Call>, i: nat, j: nat)
    requires i <= j <= |calls| && forall k | i <= k < j :: Accepted(calls, k)
    ensures AcceptedIn(calls, i, j) == j - i
    decreases j
  {
    if i < j {
      AllAcceptedCount(calls, i, j - 1);
    }
  }

  lemma {:induction false} ConformingPrefixAccepted(calls: seq<Call>, rate: nat, n: nat)
    requires FixedRate(calls, rate) && ClockNeverRegresses(calls) && Conforms(calls, rate) && n <= |calls|
    ensures forall k | 0 <= k < n :: Accepted(calls, k)
    decreases n
  {
    if n > 0 {
      var j := n - 1;
      ConformingPrefixAccepted(calls, rate, j);
      forall i | 0 <= i <= j
        ensures (AcceptedIn(calls, i, j) + 1) * NANOS_PER_SEC <=
              (if calls[i].rate < 1 then 1 else calls[i].rate) * NANOS_PER_SEC + RefillIn(calls, i, j)
      {
        AllAcceptedCount(calls, i, j);
        RefillAtFixedRate(calls, rate, i, j);
      }
      AcceptedExactly(calls, j);
    }
  }

  /** At a fixed rate and with a clock that does not go back, nothing is shed exactly when the run conforms. */
  lemma NothingShedExactly(calls: seq<Call>, rate: nat)
    requires FixedRate(calls, rate) && ClockNeverRegresses(calls)
    ensures (forall k | 0 <= k < |calls| :: Accepted(calls, k)) <==> Conforms(calls, rate)
  {
    if forall k | 0 <= k < |calls| :: Accepted(calls, k) {
      forall i, j | 0 <= i <= j < |calls|
        ensures (j - i + 1) * NANOS_PER_SEC <= Capacity(rate) * NANOS_PER_SEC + Capacity(rate) * (calls[j].now - calls[i].now)
      {
        AllAcceptedCount(calls, i, j);
        AcceptedExactly(calls, j);
        RefillAtFixedRate(calls, rate, i, j);
      }
    }
    if Conforms(calls, rate) {
      ConformingPrefixAccepted(calls, rate, |calls|);
    }
  }

  // ----- The bound over the time on the clock -----

  /** The window `i..j` accepts no more than burst `C` plus `C` tokens for every second between its two readings. */
  predicate WindowInBound(calls: seq<Call>, rate: nat, i: nat, j: nat)
    requires i <= j < |calls|
  {
    AcceptedIn(calls, i, j + 1) * NANOS_PER_SEC <= Capacity(rate) * NANOS_PER_SEC + Capacity(rate) * (calls[j].now - calls[i].now)
  }

  ghost predicate AllInBound(calls: seq<Call>, rate: nat) {
    forall i, j | 0 <= i <= j < |calls| :: WindowInBound(calls, rate, i, j)
  }

  /** At a fixed rate and with a clock that does not go back, no window of any run exceeds the bound. */
  lemma SteadyClockKeepsTheBound(calls: seq<Call>, rate: nat)
    requires FixedRate(calls, rate) && ClockNeverRegresses(calls)
    ensures AllInBound(calls, rate)
  {
    forall i, j | 0 <= i <= j < |calls| ensures WindowInBound(calls, rate, i, j) {
      WindowUpperBound(calls, i, j);
      RefillAtFixedRate(calls, rate, i, j);
    }
  }

  /** Calls made while a clock shows `readings` one after another: any number of them at every reading. */
  ghost predicate MadeAt(calls: seq<Call>, readings: seq<nat>) {
    exists at: seq<nat> :: InTurn(calls, readings, at)
  }

  ghost predicate InTurn(calls: seq<Call>, readings: seq<nat>, at: seq<nat>) {
    && |at| == |calls|
    && (forall k | 0 <= k < |at| :: at[k] < |readings| && calls[k].now == readings[at[k]])
    && (forall k, l | 0 <= k <= l < |at| :: at[k] <= at[l])
  }

  /** Once the clock goes back the bound is broken at every rate: the burst is spent, and the time on the clock
      says that less than none has passed. */
  lemma SteppingBackBreaksTheBound(rate: nat, hi: nat, lo: nat)
    requires lo < hi
    ensures !WindowInBound(BurstThenCall(rate, hi, lo), rate, 0, if rate == 0 then 1 else rate)
  {
    var calls, c := BurstThenCall(rate, hi, lo), Capacity(rate);
    BurstDrains(rate, hi, lo);
    hide Capacity, Accepted, BurstThenCall;
    assert AcceptedIn(calls, 0, c + 1) >= c;
    NegativeMultiple(c, lo - hi);
  }

  lemma NegativeMultiple(c: nat, x: int)
    requires c >= 1 && x < 0
    ensures c * x < 0
  {
  }

  /** Exactly which clocks keep the bound: those that do not go back. */
  lemma BoundHoldsExactly(rate: nat, readings: seq<nat>)
    ensures (forall calls | FixedRate(calls, rate) && MadeAt(calls, readings) :: AllInBound(calls, rate)) <==>
            forall a, b | 0 <= a <= b < |readings| :: readings[a] <= readings[b]
  {
    if forall a, b | 0 <= a <= b < |readings| :: readings[a] <= readings[b] {
      forall calls | FixedRate(calls, rate) && MadeAt(calls, readings) ensures AllInBound(calls, rate) {
        var at: seq<nat> :| InTurn(calls, readings, at);
        SteadyClockKeepsTheBound(calls, rate);
      }
    } else {
      var a, b :| 0 <= a <= b < |readings| && readings[a] > readings[b];
      var calls := BurstThenCall(rate, readings[a], readings[b]);
      var at: seq<nat> := seq(|calls| - 1, _ => a) + [b];
      assert InTurn(calls, readings, at) && FixedRate(calls, rate);
      SteppingBackBreaksTheBound(rate, readings[a], readings[b]);
    }
  }

  /** A refill is the time on the clock, for every window of a run, exactly when the clock never goes back. */
  lemma RefillIsElapsedExactly(calls: seq<Call>, rate: nat)
    requires FixedRate(calls, rate)
    ensures (forall i, j | 0 <= i <= j < |calls| :: RefillIn(calls, i, j) == Capacity(rate) * (calls[j].now - calls[i].now)) <==>
            ClockNeverRegresses(calls)
  {
    if ClockNeverRegresses(calls) {
      forall i, j | 0 <= i <= j < |calls|
        ensures RefillIn(calls, i, j) == Capacity(rate) * (calls[j].now - calls[i].now)
      {
        RefillAtFixedRate(calls, rate, i, j);
      }
    } else {
      var i, j :| 0 <= i <= j < |calls| && calls[i].now > calls[j].now;
      assert Capacity(rate) * (calls[j].now - calls[i].now) < 0;
    }
  }

  /** A clock that steps back and forth earns the same second twice: of three calls at rate 1 two are accepted
      at the very same reading, where the bound allows one. */
  lemma RegressingClockBreaksTheBound()
    ensures var calls := [Call(1, NANOS_PER_SEC), Call(1, 0), Call(1, NANOS_PER_SEC)];
            AcceptedIn(calls, 0, 3) == 2 && !WindowInBound(calls, 1, 0, 2)
  {
    var calls := [Call(1, NANOS_PER_SEC), Call(1, 0), Call(1, NANOS_PER_SEC)];
    assert After(calls, 1) == State(0, Some(NANOS_PER_SEC));
    assert After(calls, 2) == State(0, Some(0));
    assert AcceptedIn(calls, 0, 1) == 1 && AcceptedIn(calls, 0, 2) == 1;
  }
}
