/** `build_process_forest` of asg-api/src/lib.rs with its maps, its memo and its loops, on any records on which the
    recursion ends. */
module ForestBuilder {
  import opened Events
  import opened Numerals
  import opened Sorting
  import opened ProcessTree
  import opened CallTree

  /** Collecting into a map keyed by `tgid`: of records with the same id the last one stays. */
  function ByTgid(records: seq<ProcRecord>): Table {
    if records == [] then map[]
    else
      var last := records[|records| - 1];
      ByTgid(records[..|records| - 1])[last.tgid := last]
  }

  lemma {:induction false} ByTgidKeys(records: seq<ProcRecord>)
    ensures forall i | 0 <= i < |records| :: records[i].tgid in ByTgid(records)
    ensures forall t | t in ByTgid(records) :: ByTgid(records)[t] in records && ByTgid(records)[t].tgid == t
    decreases |records|
  {
    if records != [] {
      ByTgidKeys(records[..|records| - 1]);
    }
  }

  /** Record `i` is the last one of `t`. */
  ghost predicate LastRecord(records: seq<ProcRecord>, i: nat, t: U32) {
    i < |records| && records[i].tgid == t && forall j | i < j < |records| :: records[j].tgid != t
  }

  /** The table holds the last record of every id, and only ids that have one. */
  lemma {:induction false} ByTgidExactly(records: seq<ProcRecord>, t: U32)
    ensures t in ByTgid(records) <==> exists i: nat :: LastRecord(records, i, t)
    ensures forall i: nat | LastRecord(records, i, t) :: ByTgid(records)[t] == records[i]
    decreases |records|
  {
    if records != [] {
      var n := |records| - 1;
      ByTgidExactly(records[..n], t);
      if records[n].tgid == t {
        assert LastRecord(records, n, t);
        assert forall i: nat | LastRecord(records, i, t) :: i == n;
      } else {
        forall i: nat ensures LastRecord(records, i, t) <==> LastRecord(records[..n], i, t) {
          if LastRecord(records[..n], i, t) {
            assert forall j | i < j < n :: records[..n][j] == records[j];
          }
        }
      }
    }
  }

  function RecordKey(r: ProcRecord): Key {
    (r.firstSeenTsNs, r.tgid)
  }

  function NodeKey(n: ProcNode): Key {
    (n.tsNs, n.id)
  }

  function Sorted(records: seq<ProcRecord>): seq<ProcRecord> {
    SortBy(records, RecordKey)
  }

  lemma SortedMembers(records: seq<ProcRecord>)
    ensures forall r :: r in Sorted(records) <==> r in records
    ensures forall r | r in Sorted(records) :: r.tgid in ByTgid(records)
  {
    SortByArranges(records, RecordKey);
    forall r ensures r in Sorted(records) <==> r in records {
      assert r in Sorted(records) <==> r in multiset(Sorted(records));
    }
    ByTgidKeys(records);
  }

  // ----- The result, without memo and loops -----

  /** The records whose node the builder asks for: its own parent, or the child of an unobserved one. */
  predicate IsStart(m: Table, r: ProcRecord) {
    r.ppid == r.tgid || r.ppid !in m
  }

  /** The recursion ends for every record it is started on. */
  ghost predicate Terminates(m: Table, sorted: seq<ProcRecord>) {
    forall i | 0 <= i < |sorted| && IsStart(m, sorted[i]) :: Halts(sorted, sorted[i].tgid)
  }

  /** The ids that are their own parent, once for every record that says so. */
  function SelfParents(sorted: seq<ProcRecord>): seq<U32> {
    if sorted == [] then []
    else
      var last := sorted[|sorted| - 1];
      SelfParents(sorted[..|sorted| - 1]) + (if last.ppid == last.tgid then [last.tgid] else [])
  }

  /** The parents no record was seen for. */
  function Unobserved(m: Table, sorted: seq<ProcRecord>): set<U32> {
    set i | 0 <= i < |sorted| && sorted[i].ppid !in m :: sorted[i].ppid
  }

  lemma {:induction false} SelfParentsHalt(m: Table, sorted: seq<ProcRecord>, n: nat)
    requires Terminates(m, sorted) && n <= |sorted|
    ensures forall t | t in SelfParents(sorted[..n]) :: Halts(sorted, t)
    decreases n
  {
    if n > 0 {
      SelfParentsHalt(m, sorted, n - 1);
      assert sorted[..n][..n - 1] == sorted[..n - 1];
      assert IsStart(m, sorted[n - 1]) ==> Halts(sorted, sorted[n - 1].tgid);
    }
  }

  /** Every record stands for an observed process. */
  ghost predicate Observed(m: Table, sorted: seq<ProcRecord>) {
    forall i | 0 <= i < |sorted| :: sorted[i].tgid in m
  }

  lemma UnobservedHalt(m: Table, sorted: seq<ProcRecord>, q: U32)
    requires Terminates(m, sorted) && Observed(m, sorted) && q !in m
    ensures Halts(sorted, q)
  {
    hide Calls, Loops, Halts;
    HaltsExactly(sorted, q);
    if Loops(sorted, q) {
      assert q !in Tgids(sorted);
      var k := LoopsThroughCall(sorted, q);
      CallsExactly(sorted, q, k);
      var r :| r in sorted && r.tgid == k && r.ppid == q;
      var i :| 0 <= i < |sorted| && sorted[i] == r;
      assert IsStart(m, sorted[i]);
      HaltsExactly(sorted, k);
    }
  }

  lemma RootsHalt(m: Table, sorted: seq<ProcRecord>)
    requires Terminates(m, sorted) && Observed(m, sorted)
    ensures forall t | t in SelfParents(sorted) + Ordered(m, Unobserved(m, sorted)) :: Halts(sorted, t)
  {
    hide Halts, SelfParents, Terminates, Observed;
    SelfParentsHalt(m, sorted, |sorted|);
    assert sorted[..|sorted|] == sorted;
    forall q | q in Ordered(m, Unobserved(m, sorted)) ensures Halts(sorted, q) {
      UnobservedHalt(m, sorted, q);
    }
  }

  /** The trees of the self-parents, and of the unobserved parents in the order of their ids. */
  ghost function RootTrees(m: Table, sorted: seq<ProcRecord>): seq<ProcNode>
    requires Terminates(m, sorted) && Observed(m, sorted)
  {
    RootsHalt(m, sorted);
    TreesOf(m, sorted, SelfParents(sorted) + Ordered(m, Unobserved(m, sorted)))
  }

  lemma SortedObserved(records: seq<ProcRecord>)
    ensures Observed(ByTgid(records), Sorted(records))
  {
    SortedMembers(records);
    forall i | 0 <= i < |Sorted(records)| ensures Sorted(records)[i].tgid in ByTgid(records) {
      assert Sorted(records)[i] in Sorted(records);
    }
  }

  /** What the builder returns: the trees of its roots, ordered by first sighting and id. */
  ghost function ForestOf(records: seq<ProcRecord>): seq<ProcNode>
    requires Terminates(ByTgid(records), Sorted(records))
  {
    SortedObserved(records);
    SortBy(RootTrees(ByTgid(records), Sorted(records)), NodeKey)
  }

  /** The builder's recursion ends exactly when no chain of calls from a record it starts on visits a process twice. */
  lemma TerminatesExactly(records: seq<ProcRecord>)
    ensures Terminates(ByTgid(records), Sorted(records)) <==>
            forall r | r in records && IsStart(ByTgid(records), r) :: !Loops(Sorted(records), r.tgid)
  {
    hide Halts, Loops, IsStart, Sorted, ByTgid;
    SortedMembers(records);
    var m, sorted := ByTgid(records), Sorted(records);
    forall r ensures r in records && IsStart(m, r) ==> (Halts(sorted, r.tgid) <==> !Loops(sorted, r.tgid)) {
      HaltsExactly(sorted, r.tgid);
    }
    forall i | 0 <= i < |sorted| ensures sorted[i] in records {
      assert sorted[i] in sorted;
    }
    if forall r | r in records && IsStart(m, r) :: !Loops(sorted, r.tgid) {
      assert Terminates(m, sorted);
    }
    if Terminates(m, sorted) {
      forall r | r in records && IsStart(m, r) ensures !Loops(sorted, r.tgid) {
        assert r in sorted;
        var i :| 0 <= i < |sorted| && sorted[i] == r;
      }
    }
  }

  const OWN_PARENT := ProcRecord(1, 1, "a", [], 0, 0, 0)
  const SAME_ID := ProcRecord(1, 2, "a", [], 0, 0, 0)
  const CHILD := ProcRecord(2, 1, "b", [], 0, 0, 0)

  /** Three records of two ids: a process that is its own parent and, by a second record, the child of its child.
      The recursion from it never ends. */
  lemma RepeatedIdNeverEnds()
    ensures var records := [OWN_PARENT, SAME_ID, CHILD];
            !Terminates(ByTgid(records), Sorted(records))
  {
    var records := [OWN_PARENT, SAME_ID, CHILD];
    hide Calls, Sorted;
    SortedMembers(records);
    var sorted := Sorted(records);
    assert OWN_PARENT in sorted && SAME_ID in sorted && CHILD in sorted;
    CallsExactly(sorted, 1, 2);
    CallsExactly(sorted, 2, 1);
    var path: seq<U32> := [1, 2, 1];
    assert CallChain(sorted, path) && path[0] == path[2];
    assert Loops(sorted, 1);
    assert IsStart(ByTgid(records), OWN_PARENT);
    TerminatesExactly(records);
  }

  // ----- Grouping by parent -----

  function Get(childrenOf: map<U32, seq<U32>>, p: U32): seq<U32> {
    if p in childrenOf then childrenOf[p] else []
  }

  ghost predicate Grouped(sorted: seq<ProcRecord>, childrenOf: map<U32, seq<U32>>) {
    forall p: U32 :: Get(childrenOf, p) == ChildrenIn(sorted, p)
  }

  method GroupChildren(sorted: seq<ProcRecord>) returns (childrenOf: map<U32, seq<U32>>)
    ensures Grouped(sorted, childrenOf)
  {
    childrenOf := map[];
    var i := 0;
    while i < |sorted|
      invariant 0 <= i <= |sorted|
      invariant Grouped(sorted[..i], childrenOf)
    {
      var rec := sorted[i];
      assert sorted[..i + 1][..i] == sorted[..i];
      childrenOf := childrenOf[rec.ppid := Get(childrenOf, rec.ppid) + [rec.tgid]];
      i := i + 1;
    }
    assert sorted[..i] == sorted;
  }

  // ----- `node_for` -----

  class Memo {
    var nodes: map<U32, ProcNode>

    constructor ()
      ensures nodes == map[]
    {
      nodes := map[];
    }
  }

  ghost predicate Remembers(m: Table, sorted: seq<ProcRecord>, nodes: map<U32, ProcNode>) {
    forall t | t in nodes :: Halts(sorted, t) && nodes[t] == TreeOf(m, sorted, t)
  }

  /** `d` bounds the depth of the recursion, which ends wherever it has such a bound. */
  method NodeFor(tgid: U32, byTgid: Table, childrenOf: map<U32, seq<U32>>, memo: Memo,
                 ghost sorted: seq<ProcRecord>, ghost d: nat)
    returns (node: ProcNode)
    requires Ends(sorted, tgid, d) && Grouped(sorted, childrenOf) && Remembers(byTgid, sorted, memo.nodes)
    modifies memo
    ensures Halts(sorted, tgid) && node == TreeOf(byTgid, sorted, tgid)
    ensures Remembers(byTgid, sorted, memo.nodes)
    decreases d
  {
    hide ChildrenIn, DropSelf, TreeOf;
    assert Halts(sorted, tgid);
    if tgid in memo.nodes {
      return memo.nodes[tgid];
    }
    TreeOfUnfolds(byTgid, sorted, tgid);
    var kids := Get(childrenOf, tgid);
    var children := CollectChildren(kids, tgid, byTgid, childrenOf, memo, sorted, d);
    if tgid in byTgid {
      var rec := byTgid[tgid];
      node := ProcNode(tgid, rec.comm, rec.args, rec.firstSeenTsNs, children);
    } else {
      node := ProcNode(tgid, "(unknown pid " + Decimal(tgid) + ")", [], 0, children);
    }
    memo.nodes := memo.nodes[tgid := node];
  }

  /** The iterator chain over the kids: the node itself is filtered out, the others are mapped in order. */
  method CollectChildren(kids: seq<U32>, tgid: U32, byTgid: Table, childrenOf: map<U32, seq<U32>>, memo: Memo,
                         ghost sorted: seq<ProcRecord>, ghost d: nat)
    returns (children: seq<ProcNode>)
    requires Grouped(sorted, childrenOf) && Remembers(byTgid, sorted, memo.nodes)
    requires forall k | k in DropSelf(kids, tgid) :: d > 0 && Ends(sorted, k, d - 1)
    modifies memo
    ensures forall k | k in DropSelf(kids, tgid) :: Halts(sorted, k)
    ensures children == TreesOf(byTgid, sorted, DropSelf(kids, tgid))
    ensures Remembers(byTgid, sorted, memo.nodes)
    decreases d, 0, |kids|
  {
    hide Ends, Halts, Grouped, Remembers, DropSelf, TreeOf, TreesOf;
    DropSelfNone(kids, tgid);
    NoTrees(byTgid, sorted);
    children := [];
    var i := 0;
    while i < |kids|
      invariant 0 <= i <= |kids|
      invariant forall k | k in DropSelf(kids[..i], tgid) :: Halts(sorted, k)
      invariant children == TreesOf(byTgid, sorted, DropSelf(kids[..i], tgid))
      invariant Remembers(byTgid, sorted, memo.nodes)
    {
      DropSelfStep(kids, tgid, i);
      if kids[i] != tgid {
        DropSelfMembers(kids, tgid, kids[i]);
        var child := NodeFor(kids[i], byTgid, childrenOf, memo, sorted, d - 1);
        TreesOfAppend(byTgid, sorted, DropSelf(kids[..i], tgid), kids[i]);
        children := children + [child];
      }
      i := i + 1;
    }
    assert kids[..i] == kids;
  }

  lemma DropSelfNone(kids: seq<U32>, p: U32)
    ensures DropSelf(kids[..0], p) == []
  {
  }

  lemma NoTrees(m: Table, sorted: seq<ProcRecord>)
    ensures TreesOf(m, sorted, []) == []
  {
  }

  // ----- The roots -----

  /** After `n` records the placeholder for an unobserved parent holds the trees of its children so far. */
  ghost predicate WrapperFor(m: Table, sorted: seq<ProcRecord>, n: nat, q: U32, wrapper: ProcNode)
    requires n <= |sorted|
  {
    && (forall k | k in ChildrenIn(sorted[..n], q) :: Halts(sorted, k))
    && wrapper == NodeWith(m, q, TreesOf(m, sorted, ChildrenIn(sorted[..n], q)))
  }

  ghost predicate Wrappers(m: Table, sorted: seq<ProcRecord>, n: nat, synthetic: map<U32, ProcNode>)
    requires n <= |sorted|
  {
    && (forall q | q in synthetic :: WrapperFor(m, sorted, n, q, synthetic[q]))
    && (forall q: U32 :: q in synthetic <==> q !in m && ChildrenIn(sorted[..n], q) != [])
  }

  lemma WrappersGrow(m: Table, sorted: seq<ProcRecord>, n: nat, synthetic: map<U32, ProcNode>)
    requires n < |sorted| && Wrappers(m, sorted, n, synthetic)
    requires sorted[n].ppid !in m && Halts(sorted, sorted[n].tgid)
    ensures var q := sorted[n].ppid;
            var wrapper := if q in synthetic then synthetic[q] else NodeWith(m, q, []);
            var grown := wrapper.(children := wrapper.children + [TreeOf(m, sorted, sorted[n].tgid)]);
            Wrappers(m, sorted, n + 1, synthetic[q := grown])
  {
    hide Halts, TreeOf, TreesOf, ChildrenIn;
    var q, id := sorted[n].ppid, sorted[n].tgid;
    forall p: U32
      ensures ChildrenIn(sorted[..n + 1], p) == if p == q then ChildrenIn(sorted[..n], p) + [id] else ChildrenIn(sorted[..n], p)
    {
      ChildrenInStep(sorted, n, p);
    }
    NoTrees(m, sorted);
    assert forall k | k in ChildrenIn(sorted[..n], q) :: Halts(sorted, k);
    TreesOfAppend(m, sorted, ChildrenIn(sorted[..n], q), id);
  }

  lemma WrappersUnchanged(m: Table, sorted: seq<ProcRecord>, n: nat, synthetic: map<U32, ProcNode>)
    requires n < |sorted| && Wrappers(m, sorted, n, synthetic) && sorted[n].ppid in m
    ensures Wrappers(m, sorted, n + 1, synthetic)
  {
    hide Halts, TreesOf, ChildrenIn;
    forall p: U32 ensures p != sorted[n].ppid ==> ChildrenIn(sorted[..n + 1], p) == ChildrenIn(sorted[..n], p) {
      ChildrenInStep(sorted, n, p);
    }
  }

  lemma SelfParentsStep(sorted: seq<ProcRecord>, n: nat)
    requires n < |sorted|
    ensures SelfParents(sorted[..n + 1]) ==
            if sorted[n].ppid == sorted[n].tgid then SelfParents(sorted[..n]) + [sorted[n].tgid] else SelfParents(sorted[..n])
  {
    assert sorted[..n + 1][..n] == sorted[..n];
  }

  lemma NothingYet(m: Table, sorted: seq<ProcRecord>)
    ensures Wrappers(m, sorted, 0, map[]) && SelfParents(sorted[..0]) == []
  {
  }

  /** The loop over the records: roots that are their own parent, and placeholders by unobserved parent. */
  method CollectRoots(sorted: seq<ProcRecord>, byTgid: Table, childrenOf: map<U32, seq<U32>>, memo: Memo)
    returns (roots: seq<ProcNode>, synthetic: map<U32, ProcNode>)
    requires Terminates(byTgid, sorted) && Observed(byTgid, sorted)
    requires Grouped(sorted, childrenOf) && Remembers(byTgid, sorted, memo.nodes)
    modifies memo
    ensures forall t | t in SelfParents(sorted) :: Halts(sorted, t)
    ensures roots == TreesOf(byTgid, sorted, SelfParents(sorted)) && Wrappers(byTgid, sorted, |sorted|, synthetic)
  {
    hide Ends, Grouped, Remembers, Wrappers, TreeOf, TreesOf, SelfParents;
    NothingYet(byTgid, sorted);
    NoTrees(byTgid, sorted);
    roots, synthetic := [], map[];
    var i := 0;
    while i < |sorted|
      invariant 0 <= i <= |sorted|
      invariant Remembers(byTgid, sorted, memo.nodes)
      invariant forall t | t in SelfParents(sorted[..i]) :: Halts(sorted, t)
      invariant roots == TreesOf(byTgid, sorted, SelfParents(sorted[..i])) && Wrappers(byTgid, sorted, i, synthetic)
    {
      var rec := sorted[i];
      SelfParentsStep(sorted, i);
      var parentObserved := rec.ppid in byTgid;
      if parentObserved && rec.ppid != rec.tgid {
        WrappersUnchanged(byTgid, sorted, i, synthetic);
      } else {
        assert IsStart(byTgid, sorted[i]);
        ghost var d: nat :| Ends(sorted, rec.tgid, d);
        var childNode := NodeFor(rec.tgid, byTgid, childrenOf, memo, sorted, d);
        if rec.ppid == rec.tgid {
          WrappersUnchanged(byTgid, sorted, i, synthetic);
          TreesOfAppend(byTgid, sorted, SelfParents(sorted[..i]), rec.tgid);
          roots := roots + [childNode];
        } else {
          WrappersGrow(byTgid, sorted, i, synthetic);
          var wrapper := if rec.ppid in synthetic then synthetic[rec.ppid]
                         else ProcNode(rec.ppid, "(unknown pid " + Decimal(rec.ppid) + ")", [], 0, []);
          synthetic := synthetic[rec.ppid := wrapper.(children := wrapper.children + [childNode])];
        }
      }
      i := i + 1;
    }
    assert sorted[..i] == sorted;
  }

  // ----- Placeholders, in whatever order the map yields them -----

  lemma {:induction false} DropSelfIdle(kids: seq<U32>, p: U32)
    requires p !in kids
    ensures DropSelf(kids, p) == kids
    decreases |kids|
  {
    if kids != [] {
      DropSelfIdle(kids[..|kids| - 1], p);
    }
  }

  /** A finished placeholder is the tree of the unobserved parent. */
  lemma WrapperIsTree(m: Table, sorted: seq<ProcRecord>, synthetic: map<U32, ProcNode>, q: U32)
    requires Terminates(m, sorted) && Observed(m, sorted) && Wrappers(m, sorted, |sorted|, synthetic) && q in synthetic
    ensures Halts(sorted, q) && synthetic[q] == TreeOf(m, sorted, q)
  {
    assert WrapperFor(m, sorted, |sorted|, q, synthetic[q]);
    hide Halts, TreeOf, ChildrenIn, DropSelf;
    assert sorted[..|sorted|] == sorted;
    UnobservedHalt(m, sorted, q);
    TreeOfUnfolds(m, sorted, q);
    var kids := ChildrenIn(sorted, q);
    if q in kids {
      ChildrenInLists(sorted, q, |sorted|, q);
    }
    DropSelfIdle(kids, q);
  }

  lemma WrappersAreUnobserved(m: Table, sorted: seq<ProcRecord>, synthetic: map<U32, ProcNode>)
    requires Wrappers(m, sorted, |sorted|, synthetic)
    ensures synthetic.Keys == Unobserved(m, sorted)
  {
    hide ChildrenIn, WrapperFor;
    assert sorted[..|sorted|] == sorted;
    forall q: U32 ensures q in synthetic <==> q in Unobserved(m, sorted) {
      var kids := ChildrenIn(sorted, q);
      if kids != [] {
        assert kids[0] in kids;
        ChildrenInLists(sorted, q, |sorted|, kids[0]);
      }
      if i :| 0 <= i < |sorted| && sorted[i].ppid == q {
        assert Lists(sorted, q, |sorted|, sorted[i].tgid);
        ChildrenInLists(sorted, q, |sorted|, sorted[i].tgid);
      }
    }
  }

  lemma {:induction false} TreesCount(m: Table, sorted: seq<ProcRecord>, ids: seq<U32>, x: ProcNode)
    requires forall k | k in ids :: Halts(sorted, k)
    ensures multiset(TreesOf(m, sorted, ids))[x] ==
            if x.id in ids && x == TreeOf(m, sorted, x.id) then multiset(ids)[x.id] else 0
    decreases |ids|
  {
    hide Halts, TreeOf, TreesOf;
    if ids == [] {
      NoTrees(m, sorted);
    } else {
      var n := |ids| - 1;
      assert ids == ids[..n] + [ids[n]];
      TreesCount(m, sorted, ids[..n], x);
      TreesOfAppend(m, sorted, ids[..n], ids[n]);
      TreeOfId(m, sorted, ids[n]);
    }
  }

  /** The order of the ids does not matter to the collection of their trees. */
  lemma TreesIgnoreOrder(m: Table, sorted: seq<ProcRecord>, a: seq<U32>, b: seq<U32>)
    requires multiset(a) == multiset(b) && forall k | k in a :: Halts(sorted, k)
    ensures forall k | k in b :: Halts(sorted, k)
    ensures multiset(TreesOf(m, sorted, a)) == multiset(TreesOf(m, sorted, b))
  {
    hide Halts, TreeOf, TreesOf;
    assert forall k :: k in a <==> k in multiset(a);
    assert forall k :: k in b <==> k in multiset(b);
    forall x ensures multiset(TreesOf(m, sorted, a))[x] == multiset(TreesOf(m, sorted, b))[x] {
      TreesCount(m, sorted, a, x);
      TreesCount(m, sorted, b, x);
    }
  }

  lemma {:induction false} OrderedMultiset(m: Table, ids: set<U32>)
    ensures multiset(Ordered(m, ids)) == multiset(ids)
    decreases |ids|
  {
    if ids != {} {
      OrderedMultiset(m, ids - {Least(m, ids)});
    }
  }

  lemma AnyOrderOfPlaceholders(m: Table, sorted: seq<ProcRecord>, order: seq<U32>)
    requires Terminates(m, sorted) && Observed(m, sorted)
    requires multiset(order) == multiset(Unobserved(m, sorted))
    ensures forall t | t in SelfParents(sorted) + order :: Halts(sorted, t)
    ensures multiset(TreesOf(m, sorted, SelfParents(sorted) + order)) == multiset(RootTrees(m, sorted))
  {
    hide Halts, TreeOf, TreesOf, Terminates, Observed, SelfParents, Unobserved, Ordered;
    OrderedMultiset(m, Unobserved(m, sorted));
    RootsHalt(m, sorted);
    TreesIgnoreOrder(m, sorted, SelfParents(sorted) + Ordered(m, Unobserved(m, sorted)), SelfParents(sorted) + order);
  }

  lemma TakenGrows(keys: set<U32>, left: set<U32>, order: seq<U32>, q: U32)
    requires left <= keys && q in left && multiset(order) == multiset(keys - left)
    ensures multiset(order + [q]) == multiset(keys - (left - {q}))
  {
    assert keys - (left - {q}) == (keys - left) + {q};
  }

  method ExtendRoots(roots: seq<ProcNode>, synthetic: map<U32, ProcNode>, ghost m: Table, ghost sorted: seq<ProcRecord>)
    returns (all: seq<ProcNode>)
    requires Terminates(m, sorted) && Observed(m, sorted) && Wrappers(m, sorted, |sorted|, synthetic)
    requires forall t | t in SelfParents(sorted) :: Halts(sorted, t)
    requires roots == TreesOf(m, sorted, SelfParents(sorted))
    ensures multiset(all) == multiset(RootTrees(m, sorted))
  {
    hide Halts, TreeOf, TreesOf, Wrappers, Terminates, Observed, RootTrees, SelfParents, Unobserved;
    all := roots;
    var left := synthetic.Keys;
    ghost var own, order: seq<U32> := SelfParents(sorted), [];
    assert own + order == own;
    while left != {}
      invariant left <= synthetic.Keys
      invariant multiset(order) == multiset(synthetic.Keys - left)
      invariant forall t | t in own + order :: Halts(sorted, t)
      invariant all == TreesOf(m, sorted, own + order)
      decreases |left|
    {
      var q :| q in left;
      WrapperIsTree(m, sorted, synthetic, q);
      TreesOfAppend(m, sorted, own + order, q);
      all := all + [synthetic[q]];
      assert (own + order) + [q] == own + (order + [q]);
      TakenGrows(synthetic.Keys, left, order, q);
      order := order + [q];
      left := left - {q};
    }
    WrappersAreUnobserved(m, sorted, synthetic);
    assert synthetic.Keys - left == synthetic.Keys;
    AnyOrderOfPlaceholders(m, sorted, order);
  }

  // ----- The whole function -----

  lemma RootKeysTell(m: Table, sorted: seq<ProcRecord>)
    requires Terminates(m, sorted) && Observed(m, sorted)
    ensures KeyTells(RootTrees(m, sorted), NodeKey)
  {
    hide Halts, TreeOf, SelfParents, Ordered, Terminates, Observed;
    RootsHalt(m, sorted);
    var ids, nodes := SelfParents(sorted) + Ordered(m, Unobserved(m, sorted)), RootTrees(m, sorted);
    forall i | 0 <= i < |nodes| ensures ids[i] in ids && nodes[i] == TreeOf(m, sorted, ids[i]) && nodes[i].id == ids[i] {
      assert ids[i] in ids;
      TreeOfId(m, sorted, ids[i]);
    }
  }

  /** The places of the records of `t` among the first `n` that name it as its own parent. */
  function OwnParentPlaces(sorted: seq<ProcRecord>, n: nat, t: U32): set<nat>
    requires n <= |sorted|
  {
    set i | 0 <= i < n && sorted[i].tgid == t && sorted[i].ppid == t
  }

  lemma NoOwnParents(sorted: seq<ProcRecord>, t: U32)
    ensures OwnParentPlaces(sorted, 0, t) == {} && SelfParents(sorted[..0]) == []
  {
  }

  lemma OwnParentPlacesStep(sorted: seq<ProcRecord>, n: nat, t: U32)
    requires n < |sorted|
    ensures |OwnParentPlaces(sorted, n + 1, t)| ==
            |OwnParentPlaces(sorted, n, t)| + (if sorted[n].tgid == t && sorted[n].ppid == t then 1 else 0)
  {
    var before, after := OwnParentPlaces(sorted, n, t), OwnParentPlaces(sorted, n + 1, t);
    if sorted[n].tgid == t && sorted[n].ppid == t {
      assert after == before + {n};
    } else {
      assert after == before;
    }
  }

  lemma {:induction false} SelfParentsCount(sorted: seq<ProcRecord>, n: nat, t: U32)
    requires n <= |sorted|
    ensures multiset(SelfParents(sorted[..n]))[t] == |OwnParentPlaces(sorted, n, t)|
    decreases n
  {
    hide SelfParents, OwnParentPlaces;
    if n == 0 {
      NoOwnParents(sorted, t);
    } else {
      SelfParentsCount(sorted, n - 1, t);
      SelfParentsStep(sorted, n - 1);
      OwnParentPlacesStep(sorted, n - 1, t);
      AppendedCount(SelfParents(sorted[..n - 1]), sorted[n - 1].tgid, t);
    }
  }

  lemma AppendedCount(s: seq<U32>, x: U32, t: U32)
    ensures multiset(s + [x])[t] == multiset(s)[t] + (if x == t then 1 else 0)
  {
  }

  /** How often `t` is a root: once for every record that names it as its own parent, once if only children of it
      were seen. */
  ghost function RootCount(m: Table, sorted: seq<ProcRecord>, t: U32): nat {
    |set i | 0 <= i < |sorted| && sorted[i].tgid == t && sorted[i].ppid == t| +
    (if t !in m && exists i | 0 <= i < |sorted| :: sorted[i].ppid == t then 1 else 0)
  }

  lemma RootIdsCount(m: Table, sorted: seq<ProcRecord>, t: U32)
    ensures multiset(SelfParents(sorted) + Ordered(m, Unobserved(m, sorted)))[t] == RootCount(m, sorted, t)
  {
    hide SelfParents, Ordered;
    SelfParentsCount(sorted, |sorted|, t);
    assert OwnParentPlaces(sorted, |sorted|, t) == set i | 0 <= i < |sorted| && sorted[i].tgid == t && sorted[i].ppid == t;
    assert sorted[..|sorted|] == sorted;
    OrderedMultiset(m, Unobserved(m, sorted));
  }

  /** Exactly the trees of the roots are returned, in the order of first sighting and id. */
  lemma RootsExactly(records: seq<ProcRecord>, x: ProcNode)
    requires Terminates(ByTgid(records), Sorted(records))
    ensures var m, sorted, forest := ByTgid(records), Sorted(records), ForestOf(records);
            var n := RootCount(m, sorted, x.id);
            (n > 0 ==> Halts(sorted, x.id)) &&
            multiset(forest)[x] == (if n > 0 && x == TreeOf(m, sorted, x.id) then n else 0) &&
            forall i, j | 0 <= i < j < |forest| ::
              forest[i].tsNs < forest[j].tsNs || (forest[i].tsNs == forest[j].tsNs && forest[i].id <= forest[j].id)
  {
    hide Terminates, Observed, Halts, TreeOf, TreesOf, SelfParents, Ordered, Unobserved, Sorted, RootCount, SortBy;
    var m, sorted := ByTgid(records), Sorted(records);
    SortedObserved(records);
    RootsHalt(m, sorted);
    var ids := SelfParents(sorted) + Ordered(m, Unobserved(m, sorted));
    RootIdsCount(m, sorted, x.id);
    TreesCount(m, sorted, ids, x);
    SortByArranges(RootTrees(m, sorted), NodeKey);
    assert x.id in ids <==> x.id in multiset(ids);
  }

  /** For any records on which the recursion ends, whatever the iteration order of the maps. */
  method BuildProcessForest(records: seq<ProcRecord>) returns (roots: seq<ProcNode>)
    requires Terminates(ByTgid(records), Sorted(records))
    ensures roots == ForestOf(records)
  {
    hide Terminates, Observed, Sorted, RootTrees;
    var byTgid := CollectByTgid(records);
    SortedObserved(records);
    var sorted := SortBy(records, RecordKey);
    assert sorted == Sorted(records) by { SortedIs(records); }
    var childrenOf := GroupChildren(sorted);
    var memo := new Memo();
    var synthetic;
    roots, synthetic := CollectRoots(sorted, byTgid, childrenOf, memo);
    roots := ExtendRoots(roots, synthetic, byTgid, sorted);
    RootKeysTell(byTgid, sorted);
    SortByIgnoresOrder(RootTrees(byTgid, sorted), roots, NodeKey);
    roots := SortBy(roots, NodeKey);
  }

  lemma SortedIs(records: seq<ProcRecord>)
    ensures Sorted(records) == SortBy(records, RecordKey)
  {
  }

  method CollectByTgid(records: seq<ProcRecord>) returns (m: Table)
    ensures m == ByTgid(records)
  {
    m := map[];
    for i := 0 to |records|
      invariant m == ByTgid(records[..i])
    {
      assert records[..i + 1][..i] == records[..i];
      m := m[records[i].tgid := records[i]];
    }
    assert records[..|records|] == records;
  }
}
