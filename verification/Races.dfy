/** What a client of `get_events` sees of the ring that overlapping ingests leave behind. */
module Races {
  import opened Options
  import opened Events
  import opened History
  import opened Paging
  import Concurrent

  /** The stored events carry these numbers. */
  ghost predicate Carries(ring: seq<StoredEvent>, numbers: seq<nat>) {
    |ring| == |numbers| && forall i | 0 <= i < |ring| :: ring[i].seqNo == numbers[i]
  }

  /** Two of the stored events were pushed by ingests of which one overtook the other. */
  ghost predicate HoldsOvertaking(s: Concurrent.System) {
    exists a, b | a in s.ring && b in s.ring :: Concurrent.Overtakes(s, a, b)
  }

  lemma RingIsPushed(s: Concurrent.System, i: nat)
    requires i < |s.ring|
    ensures |s.evicted| + i < |Concurrent.Pushed(s)| && Concurrent.Pushed(s)[|s.evicted| + i] == s.ring[i]
  {
  }

  lemma RingPair(run: seq<Concurrent.System>, k: nat, i: nat, j: nat)
    requires Concurrent.Run(run) && k < |run| && i < j < |run[k].ring|
    ensures var s := run[k];
            s.ring[i] != s.ring[j] && !Concurrent.Overtakes(s, s.ring[j], s.ring[i]) &&
            (s.ring[i] > s.ring[j] <==> Concurrent.Overtakes(s, s.ring[i], s.ring[j]))
  {
    hide Concurrent.Run, Concurrent.Overtakes, Concurrent.Pushed;
    var s := run[k];
    RingIsPushed(s, i);
    RingIsPushed(s, j);
    Concurrent.InversionExactlyOnOverlap(run, k, |s.evicted| + i, |s.evicted| + j);
    PushedAreDifferent(run, k, |s.evicted| + i, |s.evicted| + j);
  }

  lemma RingAscendsExactly(run: seq<Concurrent.System>, k: nat, ring: seq<StoredEvent>)
    requires Concurrent.Run(run) && k < |run| && Carries(ring, run[k].ring)
    ensures Ascending(ring) <==> !HoldsOvertaking(run[k])
  {
    hide Concurrent.Run, Concurrent.Overtakes;
    var s := run[k];
    if a: nat, b: nat :| a in s.ring && b in s.ring && Concurrent.Overtakes(s, a, b) {
      var i :| 0 <= i < |s.ring| && s.ring[i] == a;
      var j :| 0 <= j < |s.ring| && s.ring[j] == b;
      NoneOvertakesItself(s, a);
      if i < j {
        RingPair(run, k, i, j);
        assert ring[i].seqNo > ring[j].seqNo;
      } else if j < i {
        RingPair(run, k, j, i);
      }
    }
    if !Ascending(ring) {
      var i, j :| 0 <= i < j < |ring| && ring[i].seqNo >= ring[j].seqNo;
      RingPair(run, k, i, j);
      assert s.ring[i] in s.ring && s.ring[j] in s.ring;
    }
  }

  lemma NoneOvertakesItself(s: Concurrent.System, a: nat)
    ensures !Concurrent.Overtakes(s, a, a)
  {
  }

  lemma PushedAreDifferent(run: seq<Concurrent.System>, k: nat, i: nat, j: nat)
    requires Concurrent.Run(run) && k < |run| && i < j < |Concurrent.Pushed(run[k])|
    ensures Concurrent.Pushed(run[k])[i] != Concurrent.Pushed(run[k])[j]
  {
    Concurrent.RunKeepsInv(run, k);
  }

  /** In every state of every interleaving: feeding the last number back walks the ring, with every page size,
      exactly when no stored event belongs to an ingest that overtook another one's. */
  lemma RacedRingWalksExactly(run: seq<Concurrent.System>, k: nat, ring: seq<StoredEvent>)
    requires Concurrent.Run(run) && k < |run| && Carries(ring, run[k].ring)
    ensures (forall limit: nat | limit >= 1 :: Walk(ring, limit, None) == ring) <==> !HoldsOvertaking(run[k])
  {
    hide Concurrent.Run, Walk, Ascending, HoldsOvertaking;
    WalkVisitsAllExactly(ring);
    RingAscendsExactly(run, k, ring);
  }

  lemma AboveTwo(a: StoredEvent, b: StoredEvent, since: U64)
    ensures Above([a, b], since) == (if a.seqNo > since then [a] else []) + (if b.seqNo > since then [b] else [])
  {
    assert [a, b][1..] == [b] && [b][1..] == [];
    assert Above([b], since) == (if b.seqNo > since then [b] else []) + Above([], since);
  }

  /** Two overlapping ingests after which a client loses an event with page size 1, and gets one twice with the
      default page size. */
  lemma RacedRingLosesAndRepeats(e0: Event, e1: Event) returns (run: seq<Concurrent.System>, ring: seq<StoredEvent>)
    ensures Concurrent.Run(run) && Carries(ring, run[|run| - 1].ring)
    ensures ring == [StoredEvent(1, e1), StoredEvent(0, e0)]
    ensures Walk(ring, 1, None) == [StoredEvent(1, e1)]
    ensures Walk(ring, 500, None) == [StoredEvent(1, e1), StoredEvent(0, e0), StoredEvent(1, e1)]
  {
    hide Concurrent.Run;
    run := Concurrent.OverlapCanInvert();
    var late, early := StoredEvent(1, e1), StoredEvent(0, e0);
    ring := [late, early];
    AboveTwo(late, early, 1);
    AboveTwo(late, early, 0);
    assert EventPage(ring, Some(1), None) == [late] && EventPage(ring, Some(1), Some(1)) == [];
    assert EventPage(ring, Some(500), None) == ring && EventPage(ring, Some(500), Some(0)) == [late];
    assert EventPage(ring, Some(500), Some(1)) == [];
    assert Walk(ring, 1, Some(1)) == [] && Walk(ring, 500, Some(1)) == [];
    assert Walk(ring, 500, Some(0)) == [late] + [];
  }

  // ----- Pages read while ingests go on -----

  /** Each request finds the ring of some state of the run. */
  ghost predicate ServedDuring(run: seq<Concurrent.System>, at: seq<nat>, visits: seq<Visit>) {
    |at| == |visits| &&
    forall i | 0 <= i < |visits| :: at[i] < |run| && visits[i].limit >= 1 && Carries(visits[i].ring, run[at[i]].ring)
  }

  /** In state `s` the event numbered `x` cannot be reached behind a cursor that passes it: it has left the ring, it has
      not arrived yet, or an ingest with a higher number has overtaken it. */
  ghost predicate OutOfReach(s: Concurrent.System, x: nat) {
    x in s.evicted || Concurrent.InFlight(s, x) || exists late | late in s.ring :: Concurrent.Overtakes(s, late, x)
  }

  ghost predicate MissedBefore(run: seq<Concurrent.System>, at: seq<nat>, k: nat, x: nat)
    requires k <= |at| && forall i | 0 <= i < |at| :: at[i] < |run|
  {
    exists i | 0 <= i < k :: OutOfReach(run[at[i]], x)
  }

  /** Whichever number a state has drawn up to a stored one is in flight, evicted or stored. */
  lemma DrawnIsSomewhere(run: seq<Concurrent.System>, k: nat, c: nat, x: nat)
    requires Concurrent.Run(run) && k < |run| && c in run[k].ring && x <= c
    ensures Concurrent.InFlight(run[k], x) || x in run[k].evicted || x in run[k].ring
  {
    Concurrent.RunKeepsInv(run, k);
    var s := run[k];
    assert c in Concurrent.Pushed(s);
    assert x in Concurrent.Pushed(s) ==> x in s.evicted || x in s.ring;
  }

  /** A page that moves the cursor past `x` shows it, or `x` was out of reach. */
  lemma PageShowsOrMisses(run: seq<Concurrent.System>, k: nat, visit: Visit, since: Option<U64>, x: nat)
    requires Concurrent.Run(run) && k < |run| && Carries(visit.ring, run[k].ring)
    requires since.Some? ==> x > since.value
    requires var page := EventPage(visit.ring, Some(visit.limit), since); page != [] && x <= page[|page| - 1].seqNo
    ensures Contains(EventPage(visit.ring, Some(visit.limit), since), x) || OutOfReach(run[k], x)
  {
    hide Concurrent.Run, Concurrent.Overtakes, Concurrent.InFlight, EventPage;
    var s, page := run[k], EventPage(visit.ring, Some(visit.limit), since);
    var last := page[|page| - 1];
    var l := PageIsOfRing(visit.ring, visit.limit, since, |page| - 1);
    assert s.ring[l] in s.ring;
    DrawnIsSomewhere(run, k, last.seqNo, x);
    if x in s.ring {
      var i :| 0 <= i < |s.ring| && s.ring[i] == x;
      var p, q := PagePassesOver(visit.ring, visit.limit, since, i);
      if visit.ring[i] in page {
        var j :| 0 <= j < |page| && page[j] == visit.ring[i];
      } else {
        RingPair(run, k, p, q);
        assert s.ring[p] in s.ring;
      }
    }
  }

  lemma PageIsOfRing(ring: seq<StoredEvent>, limit: nat, since: Option<U64>, a: nat) returns (p: nat)
    requires a < |EventPage(ring, Some(limit), since)|
    ensures p < |ring| && ring[p] == EventPage(ring, Some(limit), since)[a]
  {
    match since
    case Some(c) => p := AboveAt(ring, c, a);
    case None => p := a;
  }

  /** In every interleaving of ingests and requests: each number up to the cursor was seen, or was out of reach in the
      state some earlier request found. */
  lemma {:induction false} RacedPagingMissesOnly(
    run: seq<Concurrent.System>, at: seq<nat>, visits: seq<Visit>, k: nat, x: nat)
    requires Concurrent.Run(run) && ServedDuring(run, at, visits) && k <= |visits| && UpToCursor(visits, k, x)
    ensures Contains(SeenBy(visits, k), x) || MissedBefore(run, at, k, x)
  {
    hide Concurrent.Run, EventPage, OutOfReach;
    if k > 0 {
      var n := k - 1;
      var page := PageAt(visits, n);
      ContainsConcat(SeenBy(visits, n), page, x);
      if UpToCursor(visits, n, x) {
        RacedPagingMissesOnly(run, at, visits, n, x);
        if !Contains(SeenBy(visits, n), x) {
          var i :| 0 <= i < n && OutOfReach(run[at[i]], x);
          assert MissedBefore(run, at, k, x);
        }
      } else {
        PageShowsOrMisses(run, at[n], visits[n], CursorAt(visits, n), x);
        assert OutOfReach(run[at[n]], x) ==> MissedBefore(run, at, k, x);
      }
    }
  }
}
