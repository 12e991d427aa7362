/** For records with different ids the builder of asg-api/src/lib.rs always ends, and returns the forest of their
    table. */
module ForestOfTable {
  import opened Events
  import opened Sorting
  import opened ProcessTree
  import opened CallTree
  import opened ForestBuilder

  predicate UniqueTgids(records: seq<ProcRecord>) {
    forall i, j | 0 <= i < j < |records| :: records[i].tgid != records[j].tgid
  }

  /** With different ids the table holds every record under its id, and nothing else. */
  lemma ByTgidHolds(records: seq<ProcRecord>)
    requires UniqueTgids(records)
    ensures forall r | r in records :: r.tgid in ByTgid(records) && ByTgid(records)[r.tgid] == r
    ensures forall t | t in ByTgid(records) :: ByTgid(records)[t] in records && ByTgid(records)[t].tgid == t
  {
    ByTgidKeys(records);
    var m := ByTgid(records);
    forall r | r in records ensures r.tgid in m && m[r.tgid] == r {
      var i :| 0 <= i < |records| && records[i] == r;
      var j :| 0 <= j < |records| && records[j] == m[r.tgid];
    }
  }

  /** The table, and with it the forest, depends on the set of records only. */
  lemma TableIgnoresOrder(a: seq<ProcRecord>, b: seq<ProcRecord>)
    requires UniqueTgids(a) && UniqueTgids(b) && forall r :: r in a <==> r in b
    ensures ByTgid(a) == ByTgid(b)
  {
    ByTgidHolds(a);
    ByTgidHolds(b);
    var m, n := ByTgid(a), ByTgid(b);
    forall t | t in m ensures t in n && m[t] == n[t] {
      assert m[t] in b;
    }
    forall t | t in n ensures t in m {
      assert n[t] in a;
    }
  }

  /** The records of `m` in ascending order. */
  ghost predicate SortedTable(m: Table, sorted: seq<ProcRecord>) {
    (forall r :: r in sorted <==> r.tgid in m && m[r.tgid] == r) &&
    (forall t | t in m :: m[t].tgid == t) &&
    AscendingKeys(sorted, RecordKey)
  }

  lemma SortedRecords(records: seq<ProcRecord>)
    requires UniqueTgids(records)
    ensures SortedTable(ByTgid(records), Sorted(records))
  {
    SortByIsAscending(records, RecordKey);
    ByTgidHolds(records);
    var m, sorted := ByTgid(records), Sorted(records);
    forall r ensures r in sorted <==> r.tgid in m && m[r.tgid] == r {
      assert r in sorted <==> r in records;
    }
  }

  lemma DifferentTgids(m: Table, sorted: seq<ProcRecord>, i: nat, j: nat)
    requires SortedTable(m, sorted) && i < j < |sorted|
    ensures sorted[i].tgid != sorted[j].tgid
  {
    assert sorted[i] in sorted && sorted[j] in sorted;
    assert KeyBefore(RecordKey(sorted[i]), RecordKey(sorted[j]));
  }

  // ----- The calls of the recursion are the kids -----

  lemma {:induction false} ChildrenInAscending(m: Table, sorted: seq<ProcRecord>, p: U32, n: nat)
    requires SortedTable(m, sorted) && n <= |sorted|
    ensures Ascending(m, ChildrenIn(sorted[..n], p))
    decreases n
  {
    if n > 0 {
      ChildrenInAscending(m, sorted, p, n - 1);
      assert sorted[..n][..n - 1] == sorted[..n - 1];
      var kids, last := ChildrenIn(sorted[..n - 1], p), sorted[n - 1];
      assert last in sorted;
      forall j | 0 <= j < |kids| ensures KeyLess(m, kids[j], last.tgid) {
        ChildrenInLists(sorted, p, n - 1, kids[j]);
        var i :| 0 <= i < n - 1 && sorted[i].tgid == kids[j] && sorted[i].ppid == p;
        assert sorted[i] in sorted && KeyBefore(RecordKey(sorted[i]), RecordKey(last));
      }
    }
  }

  lemma {:induction false} DropSelfAscending(m: Table, kids: seq<U32>, p: U32)
    requires Ascending(m, kids)
    ensures Ascending(m, DropSelf(kids, p))
    decreases |kids|
  {
    if kids != [] {
      var n := |kids| - 1;
      DropSelfAscending(m, kids[..n], p);
      var rest := DropSelf(kids[..n], p);
      forall j | 0 <= j < |rest| ensures KeyLess(m, rest[j], kids[n]) {
        DropSelfMembers(kids[..n], p, rest[j]);
        var i :| 0 <= i < n && kids[i] == rest[j];
      }
    }
  }

  /** What the map holds for `p`, self-loops dropped, is the ordered list of its kids. */
  lemma GroupedKids(m: Table, sorted: seq<ProcRecord>, p: U32)
    requires SortedTable(m, sorted)
    ensures Calls(sorted, p) == Ordered(m, Kids(m, p))
  {
    ChildrenInAscending(m, sorted, p, |sorted|);
    assert sorted[..|sorted|] == sorted;
    DropSelfAscending(m, ChildrenIn(sorted, p), p);
    forall k: U32 ensures k in Calls(sorted, p) <==> k in Kids(m, p) {
      CallsExactly(sorted, p, k);
      if k in Kids(m, p) {
        assert m[k] in sorted;
      }
    }
    AscendingIsOrdered(m, Calls(sorted, p), Kids(m, p));
  }

  /** Below a process of level `n` no chain of calls is longer than what the table leaves below that level. */
  lemma {:induction false} LevelEnds(m: Table, sorted: seq<ProcRecord>, t: U32, n: nat)
    requires SortedTable(m, sorted) && AtLevel(m, t, n)
    ensures n <= |m| && Ends(sorted, t, |m| - n)
    decreases |m| + 1 - n
  {
    hide SortedTable, AtLevel, Calls, Ordered, Kids, Ends;
    LevelBound(m, t, n);
    GroupedKids(m, sorted, t);
    forall k | k in Calls(sorted, t) ensures n + 1 <= |m| && Ends(sorted, k, |m| - n - 1) {
      KidsLevel(m, t, n, k);
      LevelBound(m, k, n + 1);
      LevelEnds(m, sorted, k, n + 1);
    }
    EndsWhenCallsEnd(sorted, t, |m| - n);
  }

  /** The tree the recursion returns is the node of the process. */
  lemma {:induction false} TreeOfIsNode(m: Table, sorted: seq<ProcRecord>, t: U32, n: nat)
    requires SortedTable(m, sorted) && AtLevel(m, t, n)
    ensures Halts(sorted, t) && TreeOf(m, sorted, t) == Node(m, t, n)
    decreases |m| + 1 - n
  {
    hide SortedTable, AtLevel, Calls, Ordered, Kids, Ends, TreeOf;
    LevelEnds(m, sorted, t, n);
    LevelBound(m, t, n);
    GroupedKids(m, sorted, t);
    TreeOfUnfolds(m, sorted, t);
    var ids := Calls(sorted, t);
    forall k | k in ids
      ensures AtLevel(m, k, n + 1) && Halts(sorted, k) && TreeOf(m, sorted, k) == Node(m, k, n + 1)
    {
      KidsLevel(m, t, n, k);
      TreeOfIsNode(m, sorted, k, n + 1);
    }
    TreesAreNodes(m, sorted, ids, n + 1);
  }

  lemma TreesAreNodes(m: Table, sorted: seq<ProcRecord>, ids: seq<U32>, n: nat)
    requires n <= |m| + 1
    requires forall k | k in ids :: AtLevel(m, k, n) && Halts(sorted, k) && TreeOf(m, sorted, k) == Node(m, k, n)
    ensures TreesOf(m, sorted, ids) == Nodes(m, ids, n)
  {
    hide AtLevel, Halts, TreeOf, Node;
    forall i | 0 <= i < |ids| ensures TreesOf(m, sorted, ids)[i] == Nodes(m, ids, n)[i] {
      assert ids[i] in ids;
    }
  }

  /** With different ids the recursion ends wherever the builder starts it, whatever cycles the parents form. */
  lemma TableTerminates(m: Table, sorted: seq<ProcRecord>)
    requires SortedTable(m, sorted)
    ensures Terminates(m, sorted) && Observed(m, sorted)
  {
    hide Halts;
    forall i | 0 <= i < |sorted| ensures sorted[i].tgid in m && (IsStart(m, sorted[i]) ==> Halts(sorted, sorted[i].tgid)) {
      var r := sorted[i];
      assert r in sorted;
      if r.ppid == r.tgid {
        TreeOfIsNode(m, sorted, r.tgid, 0);
      } else if r.ppid !in m {
        assert AtLevel(m, r.ppid, 0);
        TreeOfIsNode(m, sorted, r.tgid, 1);
      }
    }
  }

  // ----- The roots -----

  lemma {:induction false} SelfParentsOf(m: Table, sorted: seq<ProcRecord>, n: nat)
    requires SortedTable(m, sorted) && n <= |sorted|
    ensures forall t :: t in SelfParents(sorted[..n]) <==> exists i | 0 <= i < n :: sorted[i].tgid == t && sorted[i].ppid == t
    ensures forall i, j | 0 <= i < j < |SelfParents(sorted[..n])| :: SelfParents(sorted[..n])[i] != SelfParents(sorted[..n])[j]
    decreases n
  {
    hide SortedTable;
    if n > 0 {
      SelfParentsOf(m, sorted, n - 1);
      SelfParentsStep(sorted, n - 1);
      var before := SelfParents(sorted[..n - 1]);
      forall i | 0 <= i < |before| ensures before[i] != sorted[n - 1].tgid {
        assert before[i] in before;
        var k :| 0 <= k < n - 1 && sorted[k].tgid == before[i] && sorted[k].ppid == before[i];
        DifferentTgids(m, sorted, k, n - 1);
      }
    }
  }

  lemma SelfParentsAreRoots(m: Table, sorted: seq<ProcRecord>, t: U32)
    requires SortedTable(m, sorted)
    ensures t in SelfParents(sorted) <==> t in m && m[t].ppid == t
  {
    SelfParentsOf(m, sorted, |sorted|);
    assert sorted[..|sorted|] == sorted;
    if t in m && m[t].ppid == t {
      assert m[t] in sorted;
    }
    if i :| 0 <= i < |sorted| && sorted[i].tgid == t && sorted[i].ppid == t {
      assert sorted[i] in sorted;
    }
  }

  lemma UnobservedAreRoots(m: Table, sorted: seq<ProcRecord>, t: U32)
    requires SortedTable(m, sorted)
    ensures t in Unobserved(m, sorted) <==> t !in m && exists k | k in m :: m[k].ppid == t
  {
    if k :| k in m && m[k].ppid == t {
      assert m[k] in sorted;
    }
    if i :| 0 <= i < |sorted| && sorted[i].ppid == t {
      assert sorted[i] in sorted;
    }
  }

  /** Different roots of the forest, each with its whole tree. */
  ghost predicate RootNodes(m: Table, nodes: seq<ProcNode>) {
    (forall i | 0 <= i < |nodes| :: AtLevel(m, nodes[i].id, 0) && nodes[i] == Node(m, nodes[i].id, 0)) &&
    (forall i, j | 0 <= i < j < |nodes| :: nodes[i].id != nodes[j].id)
  }

  ghost predicate Shows(nodes: seq<ProcNode>, t: U32) {
    exists i | 0 <= i < |nodes| :: nodes[i].id == t
  }

  lemma RootIdsDiffer(m: Table, sorted: seq<ProcRecord>, ids: seq<U32>)
    requires SortedTable(m, sorted) && ids == SelfParents(sorted) + Ordered(m, Unobserved(m, sorted))
    ensures forall t: U32 :: t in ids <==> t in RootIds(m)
    ensures forall i, j | 0 <= i < j < |ids| :: ids[i] != ids[j]
  {
    hide SortedTable, Unobserved, SelfParents, Ordered, KeyLess;
    var own, others := SelfParents(sorted), Ordered(m, Unobserved(m, sorted));
    forall t: U32
      ensures t in own <==> t in m && m[t].ppid == t
      ensures t in others <==> t !in m && exists k | k in m :: m[k].ppid == t
    {
      SelfParentsAreRoots(m, sorted, t);
      UnobservedAreRoots(m, sorted, t);
    }
    SelfParentsOf(m, sorted, |sorted|);
    assert sorted[..|sorted|] == sorted;
    AscendingDiffers(m, others);
    ConcatDiffers(own, others);
  }

  lemma AscendingDiffers(m: Table, s: seq<U32>)
    requires Ascending(m, s)
    ensures forall i, j | 0 <= i < j < |s| :: s[i] != s[j]
  {
    forall i, j | 0 <= i < j < |s| ensures s[i] != s[j] {
      assert KeyLess(m, s[i], s[j]);
    }
  }

  lemma ConcatDiffers(a: seq<U32>, b: seq<U32>)
    requires forall i, j | 0 <= i < j < |a| :: a[i] != a[j]
    requires forall i, j | 0 <= i < j < |b| :: b[i] != b[j]
    requires forall x | x in a :: x !in b
    ensures forall i, j | 0 <= i < j < |a + b| :: (a + b)[i] != (a + b)[j]
  {
    forall i, j | 0 <= i < |a| && 0 <= j < |b| ensures a[i] != b[j] {
      assert a[i] in a && b[j] in b;
    }
  }

  lemma RootTreesAreRoots(m: Table, sorted: seq<ProcRecord>)
    requires SortedTable(m, sorted) && Terminates(m, sorted) && Observed(m, sorted)
    ensures RootNodes(m, RootTrees(m, sorted))
    ensures forall t: U32 :: Shows(RootTrees(m, sorted), t) <==> t in RootIds(m)
  {
    hide SortedTable, Unobserved, SelfParents, RootIds, Terminates, Observed, AtLevel, Halts, TreeOf, Node, Ordered;
    RootsHalt(m, sorted);
    var ids, nodes := SelfParents(sorted) + Ordered(m, Unobserved(m, sorted)), RootTrees(m, sorted);
    RootIdsDiffer(m, sorted, ids);
    forall i | 0 <= i < |nodes|
      ensures nodes[i].id == ids[i] && AtLevel(m, nodes[i].id, 0) && nodes[i] == Node(m, nodes[i].id, 0)
    {
      assert ids[i] in ids;
      RootsAreTop(m, ids[i]);
      TreeOfIsNode(m, sorted, ids[i], 0);
      TreeOfId(m, sorted, ids[i]);
    }
    forall i, j | 0 <= i < j < |nodes| ensures nodes[i].id != nodes[j].id {
      assert ids[i] != ids[j];
    }
    forall t: U32 ensures Shows(nodes, t) <==> t in ids {
      if t in ids {
        var i :| 0 <= i < |ids| && ids[i] == t;
        assert nodes[i].id == t;
      }
    }
  }

  // ----- Sorting them -----

  ghost function IdsOf(nodes: seq<ProcNode>): seq<U32> {
    seq(|nodes|, i requires 0 <= i < |nodes| => nodes[i].id)
  }

  lemma SameMembersShow(s: seq<ProcNode>, nodes: seq<ProcNode>, t: U32)
    requires SameMembers(s, nodes)
    ensures t in IdsOf(s) <==> Shows(nodes, t)
  {
    if Shows(nodes, t) {
      var j :| 0 <= j < |nodes| && nodes[j].id == t;
      assert nodes[j] in s;
      var i :| 0 <= i < |s| && s[i] == nodes[j];
      assert IdsOf(s)[i] == t;
    }
    if t in IdsOf(s) {
      var i :| 0 <= i < |s| && IdsOf(s)[i] == t;
      assert s[i] in nodes;
    }
  }

  lemma NodeId(m: Table, t: U32)
    requires AtLevel(m, t, 0)
    ensures Node(m, t, 0).id == t && Node(m, t, 0).tsNs == Seen(m, t)
  {
  }

  lemma SortedRootNodes(m: Table, s: seq<ProcNode>, nodes: seq<ProcNode>)
    requires RootNodes(m, nodes) && SameMembers(s, nodes) && AscendingKeys(s, NodeKey)
    ensures Ascending(m, IdsOf(s))
    ensures forall i | 0 <= i < |s| :: AtLevel(m, s[i].id, 0) && s[i] == Node(m, s[i].id, 0)
  {
    hide AtLevel, Node;
    forall i | 0 <= i < |s| ensures AtLevel(m, s[i].id, 0) && s[i] == Node(m, s[i].id, 0) && s[i].tsNs == Seen(m, s[i].id) {
      assert s[i] in nodes;
      var j :| 0 <= j < |nodes| && nodes[j] == s[i];
      NodeId(m, s[i].id);
    }
    forall i, j | 0 <= i < j < |s| ensures KeyLess(m, s[i].id, s[j].id) {
      assert KeyBefore(NodeKey(s[i]), NodeKey(s[j]));
    }
  }

  /** Sorting a complete set of root nodes gives the forest. */
  lemma SortedRootsAreForest(m: Table, nodes: seq<ProcNode>)
    requires RootNodes(m, nodes) && forall t: U32 :: Shows(nodes, t) <==> t in RootIds(m)
    ensures SortBy(nodes, NodeKey) == Forest(m)
  {
    hide AtLevel, Node, Nodes, Ordered, RootIds, Shows, SortBy, AscendingKeys, Ascending, SameMembers;
    SortByIsAscending(nodes, NodeKey);
    var s := SortBy(nodes, NodeKey);
    SortedRootNodes(m, s, nodes);
    forall t: U32 ensures t in IdsOf(s) <==> t in RootIds(m) {
      SameMembersShow(s, nodes, t);
    }
    AscendingIsOrdered(m, IdsOf(s), RootIds(m));
    NodesPointwise(m, IdsOf(s), s);
  }

  lemma NodesPointwise(m: Table, ids: seq<U32>, s: seq<ProcNode>)
    requires |s| == |ids| && forall i | 0 <= i < |ids| :: AtLevel(m, ids[i], 0) && s[i] == Node(m, ids[i], 0)
    ensures s == Nodes(m, ids, 0)
  {
    hide AtLevel, Node;
  }

  /** For records with different ids the builder ends, and its result is the forest of the table. */
  lemma ForestOfDistinct(records: seq<ProcRecord>)
    requires UniqueTgids(records)
    ensures Terminates(ByTgid(records), Sorted(records))
    ensures ForestOf(records) == Forest(ByTgid(records))
  {
    hide Terminates, Observed, RootTrees, SortBy, RootNodes, Shows, RootIds, Forest, Sorted, SortedTable;
    SortedRecords(records);
    var m, sorted := ByTgid(records), Sorted(records);
    TableTerminates(m, sorted);
    RootTreesAreRoots(m, sorted);
    SortedRootsAreForest(m, RootTrees(m, sorted));
  }
}
