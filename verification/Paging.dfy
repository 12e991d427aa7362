/** The read side of the rings in asg-api/src/lib.rs: `get_events` with its forward cursor, and `get_violations`. */
module Paging {
  import opened Options
  import opened Arithmetic
  import opened Events
  import opened History

  function Take<T>(s: seq<T>, n: nat): seq<T> {
    if |s| <= n then s else s[..n]
  }

  function Reverse<T>(s: seq<T>): seq<T> {
    seq(|s|, i requires 0 <= i < |s| => s[|s| - 1 - i])
  }

  /** `limit.unwrap_or(default).min(cap)`. */
  function Bounded(limit: Option<nat>, default: nat, cap: nat): nat {
    var n := GetOr(limit, default);
    if n <= cap then n else cap
  }

  /** The items numbered above the cursor. */
  function Above(ring: seq<StoredEvent>, since: U64): seq<StoredEvent> {
    if ring == [] then []
    else (if ring[0].seqNo > since then [ring[0]] else []) + Above(ring[1..], since)
  }

  function Remaining(ring: seq<StoredEvent>, since: Option<U64>): seq<StoredEvent> {
    match since
    case Some(c) => Above(ring, c)
    case None => ring
  }

  function EventPage(ring: seq<StoredEvent>, limit: Option<nat>, since: Option<U64>): seq<StoredEvent> {
    Take(Remaining(ring, since), Bounded(limit, 500, EVENT_CAP))
  }

  function ViolationPage(ring: seq<StoredViolation>, limit: Option<nat>): seq<StoredViolation> {
    Reverse(Take(Reverse(ring), Bounded(limit, 200, VIOLATION_CAP)))
  }

  /** A page of events is what comes first above the cursor: 500 events where no limit is given, and never more
      than 20,000. */
  lemma EventPageSize(ring: seq<StoredEvent>, limit: Option<nat>, since: Option<U64>)
    ensures var page, left := EventPage(ring, limit, since), Remaining(ring, since);
            var asked := if limit.Some? then limit.value else 500;
            |page| <= asked && |page| <= 20_000 && page <= left &&
            (|page| < asked && |page| < 20_000 ==> page == left)
  {
    hide Above;
  }

  lemma TakenFromTheEnd<T>(s: seq<T>, n: nat)
    ensures Reverse(Take(Reverse(s), n)) == Newest(s, n)
  {
    var taken, newest := Take(Reverse(s), n), Newest(s, n);
    assert |taken| == |newest|;
    forall i | 0 <= i < |newest| ensures Reverse(taken)[i] == newest[i] {
      assert Reverse(taken)[i] == Reverse(s)[|taken| - 1 - i];
    }
  }

  /** A page of violations is the newest 200 where no limit is given, and never more than 5,000. */
  lemma ViolationPageSize(ring: seq<StoredViolation>, limit: Option<nat>)
    ensures var page := ViolationPage(ring, limit);
            var asked := if limit.Some? then limit.value else 200;
            |page| <= asked && |page| <= 5_000 && |page| <= |ring| && page == ring[|ring| - |page|..] &&
            (|page| < asked && |page| < 5_000 ==> page == ring)
  {
    hide Reverse, Take;
    TakenFromTheEnd(ring, Bounded(limit, 200, VIOLATION_CAP));
  }

  /** The page holds the newest violations, newest last, also of those the ring has dropped. */
  lemma ViolationPageIsNewest(all: seq<StoredViolation>, limit: Option<nat>)
    ensures ViolationPage(Newest(all, VIOLATION_CAP), limit) == Newest(all, Bounded(limit, 200, VIOLATION_CAP))
  {
  }

  // ----- A ring that does not change while it is read -----

  ghost predicate Ascending(ring: seq<StoredEvent>) {
    forall i, j | 0 <= i < j < |ring| :: ring[i].seqNo < ring[j].seqNo
  }

  /** In an ascending ring the items above the cursor are a suffix. */
  lemma {:induction false} AboveIsSuffix(ring: seq<StoredEvent>, since: U64) returns (k: nat)
    requires Ascending(ring)
    ensures k <= |ring| && Above(ring, since) == ring[k..]
    ensures forall i | 0 <= i < |ring| :: ring[i].seqNo > since <==> i >= k
  {
    hide Ascending;
    k := 0;
    if ring != [] {
      AscendingTail(ring);
      var rest := AboveIsSuffix(ring[1..], since);
      if ring[0].seqNo > since {
        assert |ring| > 1 ==> ring[1..][0] == ring[1];
        assert rest == 0;
        assert [ring[0]] + ring[1..] == ring;
      } else {
        k := rest + 1;
        forall i | 0 <= i < |ring| ensures ring[i].seqNo > since <==> i >= k {
          assert i > 0 ==> ring[i] == ring[1..][i - 1];
        }
      }
    }
  }

  lemma AscendingTail(ring: seq<StoredEvent>)
    requires ring != [] && Ascending(ring)
    ensures Ascending(ring[1..]) && forall i | 0 < i < |ring| :: ring[i].seqNo > ring[0].seqNo
  {
  }

  lemma AboveItem(ring: seq<StoredEvent>, last: nat)
    requires Ascending(ring) && last < |ring|
    ensures Above(ring, ring[last].seqNo) == ring[last + 1..]
  {
    var k := AboveIsSuffix(ring, ring[last].seqNo);
    if last + 1 < |ring| {
      assert ring[last + 1].seqNo > ring[last].seqNo;
    }
  }

  lemma NextCursor(ring: seq<StoredEvent>, limit: nat, since: Option<U64>)
    requires Ascending(ring) && limit >= 1
    ensures var page := EventPage(ring, Some(limit), since);
            var left := Remaining(ring, since);
            (page == [] <==> left == []) &&
            (page != [] ==> |page| <= |left| && left == page + Remaining(ring, Some(page[|page| - 1].seqNo)))
  {
    hide Above;
    var k := 0;
    if since.Some? {
      k := AboveIsSuffix(ring, since.value);
    }
    var left, page := Remaining(ring, since), EventPage(ring, Some(limit), since);
    assert left == ring[k..];
    if page != [] {
      var last := k + |page| - 1;
      assert page[|page| - 1] == ring[last];
      AboveItem(ring, last);
    }
  }

  lemma {:induction false} AboveShrinks(ring: seq<StoredEvent>, lo: int, x: StoredEvent)
    requires x in ring && x.seqNo > lo
    ensures |Above(ring, x.seqNo)| < (if lo < 0 then |ring| else |Above(ring, lo)|)
  {
    if x == ring[0] {
      AboveMonotone(ring[1..], lo, x.seqNo);
    } else {
      AboveShrinks(ring[1..], lo, x);
    }
  }

  lemma {:induction false} AboveMonotone(ring: seq<StoredEvent>, lo: int, hi: U64)
    requires lo <= hi
    ensures |Above(ring, hi)| <= (if lo < 0 then |ring| else |Above(ring, lo)|)
  {
    if ring != [] {
      AboveMonotone(ring[1..], lo, hi);
    }
  }

  lemma {:induction false} AboveMembers(ring: seq<StoredEvent>, since: U64)
    ensures forall x | x in Above(ring, since) :: x in ring && x.seqNo > since
  {
    if ring != [] {
      AboveMembers(ring[1..], since);
    }
  }

  /** Every nonempty page moves the cursor past at least one stored event. */
  lemma PageProgresses(ring: seq<StoredEvent>, limit: nat, since: Option<U64>)
    requires limit >= 1
    ensures var page := EventPage(ring, Some(limit), since);
            page != [] ==>
              (since.Some? ==> forall x | x in page :: x.seqNo > since.value) &&
              |Remaining(ring, Some(page[|page| - 1].seqNo))| < |Remaining(ring, since)|
  {
    hide Above;
    var page := EventPage(ring, Some(limit), since);
    if page != [] {
      var x := page[|page| - 1];
      assert forall i | 0 <= i < |page| :: page[i] == Remaining(ring, since)[i];
      if since.Some? {
        AboveMembers(ring, since.value);
        AboveShrinks(ring, since.value, x);
      } else {
        AboveShrinks(ring, -1, x);
      }
    }
  }

  /** A client that feeds back the last number it saw until a page comes back empty. */
  function Walk(ring: seq<StoredEvent>, limit: nat, since: Option<U64>): seq<StoredEvent>
    requires limit >= 1
    decreases |Remaining(ring, since)|
  {
    var page := EventPage(ring, Some(limit), since);
    PageProgresses(ring, limit, since);
    if page == [] then [] else page + Walk(ring, limit, Some(page[|page| - 1].seqNo))
  }

  lemma {:induction false} WalkCovers(ring: seq<StoredEvent>, limit: nat, since: Option<U64>)
    requires Ascending(ring) && limit >= 1
    ensures Walk(ring, limit, since) == Remaining(ring, since)
    decreases |Remaining(ring, since)|
  {
    var page := EventPage(ring, Some(limit), since);
    NextCursor(ring, limit, since);
    PageProgresses(ring, limit, since);
    if page != [] {
      WalkCovers(ring, limit, Some(page[|page| - 1].seqNo));
    }
  }

  lemma {:induction false} SingleStepsAscend(ring: seq<StoredEvent>, since: Option<U64>)
    ensures var seen := Walk(ring, 1, since);
            Ascending(seen) && (since.Some? ==> forall i | 0 <= i < |seen| :: seen[i].seqNo > since.value)
    decreases |Remaining(ring, since)|
  {
    hide EventPage;
    var page := EventPage(ring, Some(1), since);
    PageProgresses(ring, 1, since);
    if page != [] {
      assert |page| == 1 by { OneItemPage(ring, since); }
      SingleStepsAscend(ring, Some(page[0].seqNo));
    }
  }

  lemma OneItemPage(ring: seq<StoredEvent>, since: Option<U64>)
    ensures |EventPage(ring, Some(1), since)| <= 1
  {
  }

  /** Walking visits every stored event exactly once and in order, with every page size, exactly when the
      ring is in ascending order. */
  lemma WalkVisitsAllExactly(ring: seq<StoredEvent>)
    ensures (forall limit: nat | limit >= 1 :: Walk(ring, limit, None) == ring) <==> Ascending(ring)
  {
    if Ascending(ring) {
      forall limit: nat | limit >= 1 ensures Walk(ring, limit, None) == ring {
        WalkCovers(ring, limit, None);
      }
    } else {
      SingleStepsAscend(ring, None);
      assert Walk(ring, 1, None) != ring;
    }
  }

  // ----- One page size -----

  ghost predicate DifferentNumbers(ring: seq<StoredEvent>) {
    forall i, j | 0 <= i < j < |ring| :: ring[i].seqNo != ring[j].seqNo
  }

  function PageSize(limit: nat): (size: nat)
    ensures limit >= 1 ==> size >= 1
  {
    Bounded(Some(limit), 500, EVENT_CAP)
  }

  /** Item `e` is the last of a page: the pages have `size` items, the last one what is left. */
  predicate EndsPage(n: nat, size: nat, e: nat)
    requires size >= 1
  {
    e < n && (e + 1 == n || (e + 1) % size == 0)
  }

  /** No number before item `e` is above its own, and all numbers after it are. */
  ghost predicate Parts(ring: seq<StoredEvent>, e: nat)
    requires e < |ring|
  {
    (forall i | 0 <= i < e :: ring[i].seqNo <= ring[e].seqNo) && forall i | e < i < |ring| :: ring[i].seqNo > ring[e].seqNo
  }

  lemma {:induction false} AboveParted(ring: seq<StoredEvent>, since: U64, k: nat)
    requires k <= |ring|
    requires forall i | 0 <= i < |ring| :: ring[i].seqNo > since <==> i >= k
    ensures Above(ring, since) == ring[k..]
  {
    if ring != [] {
      assert forall i | 0 <= i < |ring[1..]| :: ring[1..][i] == ring[i + 1];
      AboveParted(ring[1..], since, if k > 0 then k - 1 else 0);
      assert k == 0 ==> ring == [ring[0]] + ring[1..];
    }
  }

  lemma {:induction false} AboveHead(ring: seq<StoredEvent>, since: U64, i: nat) returns (m: nat)
    requires i < |ring| && ring[i].seqNo > since
    ensures m <= i && Above(ring, since) != [] && Above(ring, since)[0] == ring[m]
  {
    if ring[0].seqNo > since {
      m := 0;
    } else {
      m := AboveHead(ring[1..], since, i - 1);
      m := m + 1;
    }
  }

  lemma {:induction false} WalkStaysAbove(ring: seq<StoredEvent>, limit: nat, c: U64)
    requires limit >= 1
    ensures forall x | x in Walk(ring, limit, Some(c)) :: x.seqNo > c
    decreases |Above(ring, c)|
  {
    hide EventPage, Above;
    var page := EventPage(ring, Some(limit), Some(c));
    PageProgresses(ring, limit, Some(c));
    if page != [] {
      assert page[|page| - 1] in page;
      WalkStaysAbove(ring, limit, page[|page| - 1].seqNo);
    }
  }

  /** A page end that does not part the ring spoils the rest of the walk. */
  lemma UnpartedEndSpoils(ring: seq<StoredEvent>, limit: nat, e: nat)
    requires limit >= 1 && DifferentNumbers(ring) && e < |ring| && !Parts(ring, e)
    ensures Walk(ring, limit, Some(ring[e].seqNo)) != ring[e + 1..]
  {
    hide Above, Walk;
    var c, rest := ring[e].seqNo, ring[e + 1..];
    if i :| e < i < |ring| && ring[i].seqNo <= c {
      WalkStaysAbove(ring, limit, c);
      assert rest[i - e - 1] == ring[i];
    } else {
      var i :| 0 <= i < e && ring[i].seqNo > c;
      var m := AboveHead(ring, c, i);
      WalkHead(ring, limit, c);
      assert rest != [] ==> rest[0] == ring[e + 1];
    }
  }

  lemma WalkHead(ring: seq<StoredEvent>, limit: nat, c: U64)
    requires limit >= 1 && Above(ring, c) != []
    ensures Walk(ring, limit, Some(c)) != [] && Walk(ring, limit, Some(c))[0] == Above(ring, c)[0]
  {
    hide Above;
  }

  /** The last item of the page that starts at item `s`. */
  function PageEnd(n: nat, size: nat, s: nat): nat
    requires size >= 1 && s < n
  {
    if s + size <= n then s + size - 1 else n - 1
  }

  /** Item `e` is the last of a page, the first page starting at item `s`. */
  predicate EndsFrom(n: nat, size: nat, s: nat, e: nat)
    requires size >= 1
    decreases n - s
  {
    s < n && (e == PageEnd(n, size, s) || EndsFrom(n, size, PageEnd(n, size, s) + 1, e))
  }

  lemma NoEndInside(q: nat, size: nat, n: nat, e: nat)
    requires size >= 1 && q * size <= e && e + 1 < n && e + 1 < q * size + size
    ensures !EndsPage(n, size, e)
  {
    assert size * q == q * size;
    ModuloOf(size, q, e + 1 - q * size);
  }

  lemma FullPageEnds(q: nat, size: nat)
    requires size >= 1
    ensures ((q + 1) * size) % size == 0
  {
    assert size * (q + 1) + 0 == (q + 1) * size;
    ModuloOf(size, q + 1, 0);
  }

  /** Counting from a multiple of the page size, the pages end at its multiples and at the end of the ring. */
  lemma {:induction false} EndsFromExactly(n: nat, size: nat, q: nat, e: nat)
    requires size >= 1
    ensures EndsFrom(n, size, q * size, e) <==> q * size <= e && EndsPage(n, size, e)
    decreases n - q * size
  {
    var s := q * size;
    if s < n {
      var end := PageEnd(n, size, s);
      assert (q + 1) * size == s + size;
      FullPageEnds(q, size);
      if s <= e < end {
        NoEndInside(q, size, n, e);
      }
      if s + size <= n {
        EndsFromExactly(n, size, q + 1, e);
      }
    }
  }

  /** The walk from item `s` on, where the cursor has just left that much. */
  lemma {:induction false} WalkFrom(ring: seq<StoredEvent>, limit: nat, since: Option<U64>, s: nat)
    requires limit >= 1 && DifferentNumbers(ring) && s <= |ring| && Remaining(ring, since) == ring[s..]
    ensures Walk(ring, limit, since) == ring[s..] <==>
            forall e | 0 <= e < |ring| && EndsFrom(|ring|, PageSize(limit), s, e) :: Parts(ring, e)
    decreases |ring| - s
  {
    hide Above, DifferentNumbers, Parts, EventPage, Bounded, Walk, Remaining;
    if s < |ring| {
      var e0 := PageEnd(|ring|, PageSize(limit), s);
      assert EndsFrom(|ring|, PageSize(limit), s, e0);
      WalkStep(ring, limit, since, s, e0);
      if Parts(ring, e0) {
        RemainingAfter(ring, e0);
        WalkFrom(ring, limit, Some(ring[e0].seqNo), e0 + 1);
      } else {
        UnpartedEndSpoils(ring, limit, e0);
      }
    } else {
      WalkEnds(ring, limit, since);
    }
  }

  /** One page of a walk that has left the items from `s` on, and the walk after it. */
  lemma WalkStep(ring: seq<StoredEvent>, limit: nat, since: Option<U64>, s: nat, e: nat)
    requires limit >= 1 && s < |ring| && Remaining(ring, since) == ring[s..]
    requires e == PageEnd(|ring|, PageSize(limit), s)
    ensures Walk(ring, limit, since) == ring[s..e + 1] + Walk(ring, limit, Some(ring[e].seqNo))
    ensures Walk(ring, limit, since) == ring[s..] <==> Walk(ring, limit, Some(ring[e].seqNo)) == ring[e + 1..]
  {
    hide Remaining;
    var page := EventPage(ring, Some(limit), since);
    assert page == ring[s..e + 1] && page[|page| - 1] == ring[e];
    var rest := Walk(ring, limit, Some(ring[e].seqNo));
    assert ring[s..] == page + ring[e + 1..];
    assert (page + rest)[|page|..] == rest && (page + ring[e + 1..])[|page|..] == ring[e + 1..];
  }

  lemma WalkEnds(ring: seq<StoredEvent>, limit: nat, since: Option<U64>)
    requires limit >= 1 && Remaining(ring, since) == []
    ensures Walk(ring, limit, since) == []
  {
    hide Remaining;
  }

  lemma RemainingAfter(ring: seq<StoredEvent>, e: nat)
    requires e < |ring| && Parts(ring, e)
    ensures Remaining(ring, Some(ring[e].seqNo)) == ring[e + 1..]
  {
    AboveParted(ring, ring[e].seqNo, e + 1);
  }

  /** With one page size, walking a ring of different numbers visits every event once and in order exactly when the
      last item of every page parts the ring: nothing before it has a higher number, everything after it has. */
  lemma WalkAtLimitExactly(ring: seq<StoredEvent>, limit: nat)
    requires limit >= 1 && DifferentNumbers(ring)
    ensures Walk(ring, limit, None) == ring <==>
            forall e | 0 <= e < |ring| && EndsPage(|ring|, PageSize(limit), e) :: Parts(ring, e)
  {
    hide Walk, Parts, EndsPage, EndsFrom;
    assert ring[0..] == ring;
    WalkFrom(ring, limit, None, 0);
    forall e: nat ensures EndsFrom(|ring|, PageSize(limit), 0, e) <==> EndsPage(|ring|, PageSize(limit), e) {
      EndsFromExactly(|ring|, PageSize(limit), 0, e);
    }
  }

  /** The walk ends, and has then seen every stored event exactly once and in order. */
  lemma WalkVisitsWholeRing(accepted: seq<Entry>, limit: nat)
    requires |accepted| <= TWO_64 && limit >= 1
    ensures Ascending(Newest(Stored(accepted), EVENT_CAP))
    ensures Walk(Newest(Stored(accepted), EVENT_CAP), limit, None) == Newest(Stored(accepted), EVENT_CAP)
  {
    EventRingConsecutive(accepted);
    WalkCovers(Newest(Stored(accepted), EVENT_CAP), limit, None);
  }

  // ----- Events arriving between the pages -----

  /** The smallest number still in the ring after `n` accepted events. */
  function Oldest(n: nat): nat {
    if n <= EVENT_CAP then 0 else n - EVENT_CAP
  }

  ghost predicate Consecutive(ring: seq<StoredEvent>, base: nat) {
    forall i | 0 <= i < |ring| :: ring[i].seqNo == base + i
  }

  lemma RemainingOfConsecutive(ring: seq<StoredEvent>, base: nat, since: Option<U64>)
    requires Consecutive(ring, base)
    ensures var start := if since.Some? && since.value >= base then since.value + 1 else base;
            var left := Remaining(ring, since);
            Consecutive(left, start) && |left| == (if start >= base + |ring| then 0 else base + |ring| - start)
  {
    if since.Some? {
      hide Above;
      var k := AboveIsSuffix(ring, since.value);
      assert k < |ring| ==> ring[k].seqNo > since.value;
      assert k > 0 ==> ring[k - 1].seqNo <= since.value;
    }
  }

  /** A page consists of consecutive numbers from the cursor, or from the oldest stored event if that is later;
      it is empty only when nothing newer is stored. */
  lemma PageIsConsecutive(accepted: seq<Entry>, limit: nat, since: Option<U64>)
    requires |accepted| <= TWO_64 && 1 <= limit
    ensures var page := EventPage(Newest(Stored(accepted), EVENT_CAP), Some(limit), since);
            var start := if since.Some? && since.value >= Oldest(|accepted|) then since.value + 1 else Oldest(|accepted|);
            (page == [] <==> start >= |accepted|) && Consecutive(page, start) &&
            (page != [] ==> start + |page| <= |accepted|)
  {
    hide Remaining, Newest, Stored;
    EventRingConsecutive(accepted);
    RemainingOfConsecutive(Newest(Stored(accepted), EVENT_CAP), Oldest(|accepted|), since);
  }

  /** One request: the ring it finds, and the limit asked for. */
  datatype Visit = Visit(ring: seq<StoredEvent>, limit: nat)

  function PageAt(visits: seq<Visit>, k: nat): seq<StoredEvent>
    requires k < |visits|
  {
    EventPage(visits[k].ring, Some(visits[k].limit), CursorAt(visits, k))
  }

  /** The cursor of request `k`: the last number seen so far. */
  function CursorAt(visits: seq<Visit>, k: nat): Option<U64>
    requires k <= |visits|
    decreases k, 0
  {
    if k == 0 then None
    else
      var page := EventPage(visits[k - 1].ring, Some(visits[k - 1].limit), CursorAt(visits, k - 1));
      if page == [] then CursorAt(visits, k - 1) else Some(page[|page| - 1].seqNo)
  }

  function SeenBy(visits: seq<Visit>, k: nat): seq<StoredEvent>
    requires k <= |visits|
  {
    if k == 0 then [] else SeenBy(visits, k - 1) + PageAt(visits, k - 1)
  }

  ghost predicate UpToCursor(visits: seq<Visit>, k: nat, x: nat)
    requires k <= |visits|
  {
    CursorAt(visits, k).Some? && x <= CursorAt(visits, k).value
  }

  ghost predicate Contains(items: seq<StoredEvent>, x: nat) {
    exists i | 0 <= i < |items| :: items[i].seqNo == x
  }

  lemma ContainsConcat(a: seq<StoredEvent>, b: seq<StoredEvent>, x: nat)
    ensures Contains(a + b, x) <==> Contains(a, x) || Contains(b, x)
  {
    if i :| 0 <= i < |a| && a[i].seqNo == x {
      assert (a + b)[i] == a[i];
    }
    if i :| 0 <= i < |b| && b[i].seqNo == x {
      assert (a + b)[|a| + i] == b[i];
    }
  }

  /** The requests find what growing lists of accepted events leave in the ring. */
  ghost predicate Growing(accepted: seq<seq<Entry>>, visits: seq<Visit>) {
    && |accepted| == |visits|
    && (forall i | 0 <= i < |visits| ::
          |accepted[i]| <= TWO_64 && visits[i].limit >= 1 && visits[i].ring == Newest(Stored(accepted[i]), EVENT_CAP))
    && forall i, j | 0 <= i <= j < |visits| :: accepted[i] <= accepted[j]
  }

  /** `x` was dropped from the ring before one of the first `k` requests. */
  ghost predicate EvictedBefore(accepted: seq<seq<Entry>>, k: nat, x: nat)
    requires k <= |accepted|
  {
    exists j | 0 <= j < k :: x < Oldest(|accepted[j]|)
  }

  /** With events arriving and leaving between the requests, the numbers seen are strictly ascending, none
      is above the cursor, and every number up to the cursor was seen or had been evicted before it was asked for. */
  lemma {:induction false} PagingSkipsOnlyEvicted(accepted: seq<seq<Entry>>, visits: seq<Visit>, k: nat)
    requires Growing(accepted, visits) && k <= |visits|
    ensures Ascending(SeenBy(visits, k))
    ensures forall i | 0 <= i < |SeenBy(visits, k)| :: UpToCursor(visits, k, SeenBy(visits, k)[i].seqNo)
    ensures forall x: nat | UpToCursor(visits, k, x) :: Contains(SeenBy(visits, k), x) || EvictedBefore(accepted, k, x)
  {
    hide EventPage, Newest, Stored;
    if k > 0 {
      var n := k - 1;
      PagingSkipsOnlyEvicted(accepted, visits, n);
      var page, cursor, oldest := PageAt(visits, n), CursorAt(visits, n), Oldest(|accepted[n]|);
      PageIsConsecutive(accepted[n], visits[n].limit, cursor);
      forall x: nat | UpToCursor(visits, k, x) ensures Contains(SeenBy(visits, k), x) || EvictedBefore(accepted, k, x) {
        ContainsConcat(SeenBy(visits, n), page, x);
        if UpToCursor(visits, n, x) {
          if EvictedBefore(accepted, n, x) {
            var j :| 0 <= j < n && x < Oldest(|accepted[j]|);
            assert EvictedBefore(accepted, k, x);
          }
        } else if x >= page[0].seqNo {
          assert page[x - page[0].seqNo].seqNo == x;
        } else {
          assert x < oldest;
        }
      }
    }
  }

  // ----- Any ring: what a page can pass over -----

  /** The items above the cursor keep the order of the ring. */
  lemma {:induction false} AboveKeepsOrder(ring: seq<StoredEvent>, since: U64, a: nat, b: nat) returns (p: nat, q: nat)
    requires a < b < |Above(ring, since)|
    ensures p < q < |ring| && ring[p] == Above(ring, since)[a] && ring[q] == Above(ring, since)[b]
  {
    if ring[0].seqNo > since {
      if a == 0 {
        q := AboveAt(ring[1..], since, b - 1);
        p, q := 0, q + 1;
      } else {
        p, q := AboveKeepsOrder(ring[1..], since, a - 1, b - 1);
        p, q := p + 1, q + 1;
      }
    } else {
      p, q := AboveKeepsOrder(ring[1..], since, a, b);
      p, q := p + 1, q + 1;
    }
  }

  lemma {:induction false} AboveAt(ring: seq<StoredEvent>, since: U64, a: nat) returns (p: nat)
    requires a < |Above(ring, since)|
    ensures p < |ring| && ring[p] == Above(ring, since)[a]
  {
    if ring[0].seqNo > since {
      p := 0;
      if a > 0 {
        p := AboveAt(ring[1..], since, a - 1);
        p := p + 1;
      }
    } else {
      p := AboveAt(ring[1..], since, a);
      p := p + 1;
    }
  }

  lemma {:induction false} AboveHas(ring: seq<StoredEvent>, since: U64, i: nat) returns (a: nat)
    requires i < |ring| && ring[i].seqNo > since
    ensures a < |Above(ring, since)| && Above(ring, since)[a] == ring[i]
  {
    if i == 0 {
      a := 0;
    } else {
      a := AboveHas(ring[1..], since, i - 1);
      a := if ring[0].seqNo > since then a + 1 else a;
    }
  }

  lemma RemainingKeepsOrder(ring: seq<StoredEvent>, since: Option<U64>, a: nat, b: nat) returns (p: nat, q: nat)
    requires a < b < |Remaining(ring, since)|
    ensures p < q < |ring| && ring[p] == Remaining(ring, since)[a] && ring[q] == Remaining(ring, since)[b]
  {
    match since
    case Some(c) => p, q := AboveKeepsOrder(ring, c, a, b);
    case None => p, q := a, b;
  }

  /** Where a page is not empty, a stored number beyond the cursor is on the page, is above its last number, or stands
      behind the last item of the page in the ring. */
  lemma PagePassesOver(ring: seq<StoredEvent>, limit: nat, since: Option<U64>, i: nat) returns (p: nat, q: nat)
    requires i < |ring| && (since.Some? ==> ring[i].seqNo > since.value)
    requires EventPage(ring, Some(limit), since) != []
    ensures var page := EventPage(ring, Some(limit), since);
            ring[i] in page || (p < q < |ring| && ring[p] == page[|page| - 1] && ring[q] == ring[i])
  {
    var page, left := EventPage(ring, Some(limit), since), Remaining(ring, since);
    var b := i;
    if since.Some? {
      b := AboveHas(ring, since.value, i);
    }
    assert left[b] == ring[i];
    p, q := 0, 0;
    if b < |page| {
      assert page[b] == left[b];
    } else {
      p, q := RemainingKeepsOrder(ring, since, |page| - 1, b);
    }
  }
}
