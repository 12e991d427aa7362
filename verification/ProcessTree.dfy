/** What `build_process_forest` of asg-api/src/lib.rs is meant to return, without memo, maps or loops. */
module ProcessTree {
  import opened Events
  import opened Numerals

  datatype ProcRecord = ProcRecord(
    tgid: U32, ppid: U32, comm: string, args: seq<string>, cgroupId: U64, uid: U32, firstSeenTsNs: U64)

  datatype ProcNode = ProcNode(id: U32, comm: string, args: seq<string>, tsNs: U64, children: seq<ProcNode>)

  /** The observed processes by thread-group id. */
  type Table = map<U32, ProcRecord>

  // ----- Levels: how far a process is below the top of its ancestor chain -----

  /** Chains end at a process that is its own parent or was never observed. */
  predicate IsTop(m: Table, t: U32) {
    t !in m || m[t].ppid == t
  }

  predicate AtLevel(m: Table, t: U32, n: nat)
    decreases n
  {
    if IsTop(m, t) then n == 0 else n > 0 && AtLevel(m, m[t].ppid, n - 1)
  }

  lemma {:induction false} LevelIsUnique(m: Table, t: U32, a: nat, b: nat)
    requires AtLevel(m, t, a) && AtLevel(m, t, b)
    ensures a == b
    decreases a
  {
    if !IsTop(m, t) {
      LevelIsUnique(m, m[t].ppid, a - 1, b - 1);
    }
  }

  /** The ancestor chain of `t` with the level of each process on it. */
  lemma {:induction false} ChainOf(m: Table, t: U32, n: nat) returns (chain: map<U32, nat>)
    requires AtLevel(m, t, n)
    ensures chain.Keys <= m.Keys && |chain| == n
    ensures forall x | x in chain :: 1 <= chain[x] <= n && AtLevel(m, x, chain[x])
    decreases n
  {
    chain := map[];
    if !IsTop(m, t) {
      var above := ChainOf(m, m[t].ppid, n - 1);
      if t in above {
        LevelIsUnique(m, t, above[t], n);
      }
      chain := above[t := n];
    }
  }

  lemma SubsetSize<T>(a: set<T>, b: set<T>)
    requires a <= b
    ensures |a| <= |b|
  {
    assert b == a + (b - a);
  }

  /** A list of different items of a set is no longer than the set. */
  lemma {:induction false} DistinctIsShort<T>(s: seq<T>, all: set<T>)
    requires forall i, j | 0 <= i < j < |s| :: s[i] != s[j]
    requires forall i | 0 <= i < |s| :: s[i] in all
    ensures |s| <= |all|
    decreases |s|
  {
    if s != [] {
      var n := |s| - 1;
      DistinctIsShort(s[..n], all - {s[n]});
    }
  }

  /** A level is bounded by the number of observed processes, whatever cycles the parents form elsewhere. */
  lemma LevelBound(m: Table, t: U32, n: nat)
    requires AtLevel(m, t, n)
    ensures n <= |m|
  {
    var chain := ChainOf(m, t, n);
    SubsetSize(chain.Keys, m.Keys);
    assert |chain.Keys| == |chain| && |m.Keys| == |m|;
  }

  // ----- Order -----

  function Seen(m: Table, t: U32): U64 {
    if t in m then m[t].firstSeenTsNs else 0
  }

  /** First seen first, ties by id. */
  predicate KeyLess(m: Table, a: U32, b: U32) {
    Seen(m, a) < Seen(m, b) || (Seen(m, a) == Seen(m, b) && a < b)
  }

  predicate Ascending(m: Table, s: seq<U32>) {
    forall i, j | 0 <= i < j < |s| :: KeyLess(m, s[i], s[j])
  }

  ghost predicate IsLeast(m: Table, ids: set<U32>, least: U32) {
    least in ids && forall x | x in ids :: x == least || KeyLess(m, least, x)
  }

  lemma LesserIsLeast(m: Table, ids: set<U32>, one: U32, other: U32)
    requires one in ids && IsLeast(m, ids - {one}, other)
    ensures IsLeast(m, ids, if KeyLess(m, other, one) then other else one)
  {
    assert forall x | x in ids :: x == one || x in ids - {one};
  }

  lemma {:induction false} LeastExists(m: Table, ids: set<U32>)
    requires ids != {}
    ensures exists least :: IsLeast(m, ids, least)
    decreases |ids|
  {
    hide KeyLess;
    var one :| one in ids;
    if ids == {one} {
      assert IsLeast(m, ids, one);
    } else {
      assert ids == {one} + (ids - {one});
      LeastExists(m, ids - {one});
      var other :| IsLeast(m, ids - {one}, other);
      LesserIsLeast(m, ids, one, other);
    }
  }

  ghost function Least(m: Table, ids: set<U32>): (least: U32)
    requires ids != {}
    ensures IsLeast(m, ids, least)
  {
    LeastExists(m, ids);
    var least :| IsLeast(m, ids, least);
    least
  }

  /** The ids of a set in ascending order. */
  ghost function Ordered(m: Table, ids: set<U32>): (s: seq<U32>)
    ensures Ascending(m, s) && |s| == |ids|
    ensures forall x :: x in s <==> x in ids
    decreases |ids|
  {
    if ids == {} then []
    else
      var least := Least(m, ids);
      [least] + Ordered(m, ids - {least})
  }

  lemma AscendingHead(m: Table, s: seq<U32>, ids: set<U32>)
    requires s != [] && Ascending(m, s) && forall x :: x in s <==> x in ids
    ensures ids != {} && s[0] == Least(m, ids)
  {
    assert s[0] in ids;
    var least := Least(m, ids);
    var k :| 0 <= k < |s| && s[k] == least;
    if k > 0 {
      assert KeyLess(m, s[0], s[k]);
    }
  }

  lemma AscendingTail(m: Table, s: seq<U32>, ids: set<U32>)
    requires s != [] && Ascending(m, s) && forall x :: x in s <==> x in ids
    ensures Ascending(m, s[1..]) && forall x :: x in s[1..] <==> x in ids - {s[0]}
  {
    forall x ensures x in s[1..] <==> x in ids - {s[0]} {
      if x in s[1..] {
        var i :| 0 <= i < |s[1..]| && s[1..][i] == x;
        assert s[i + 1] == x && KeyLess(m, s[0], s[i + 1]);
      }
      if x in ids - {s[0]} {
        var i :| 0 <= i < |s| && s[i] == x;
        assert s[1..][i - 1] == x;
      }
    }
  }

  lemma OrderedUnfolds(m: Table, ids: set<U32>)
    requires ids != {}
    ensures Ordered(m, ids) == [Least(m, ids)] + Ordered(m, ids - {Least(m, ids)})
  {
  }

  lemma NothingOrdered(m: Table)
    ensures Ordered(m, {}) == []
  {
  }

  /** There is only one ascending arrangement. */
  lemma {:induction false} AscendingIsOrdered(m: Table, s: seq<U32>, ids: set<U32>)
    requires Ascending(m, s) && forall x :: x in s <==> x in ids
    ensures s == Ordered(m, ids)
    decreases |s|
  {
    hide Ascending, KeyLess, IsLeast, Ordered, Least;
    if s == [] {
      assert ids == {};
      NothingOrdered(m);
    } else {
      AscendingHead(m, s, ids);
      AscendingTail(m, s, ids);
      AscendingIsOrdered(m, s[1..], ids - {s[0]});
      OrderedUnfolds(m, ids);
      assert s == [s[0]] + s[1..];
    }
  }

  // ----- The forest -----

  /** A process that is its own parent is not its own child. */
  function Kids(m: Table, t: U32): set<U32> {
    set k | k in m && m[k].ppid == t && k != t
  }

  lemma KidsLevel(m: Table, t: U32, n: nat, k: U32)
    requires AtLevel(m, t, n) && k in Kids(m, t)
    ensures AtLevel(m, k, n + 1)
  {
  }

  /** The node of `t`: its record, or a placeholder when it was never observed. */
  function NodeWith(m: Table, t: U32, children: seq<ProcNode>): ProcNode {
    if t in m then ProcNode(t, m[t].comm, m[t].args, m[t].firstSeenTsNs, children)
    else ProcNode(t, "(unknown pid " + Decimal(t) + ")", [], 0, children)
  }

  ghost function Node(m: Table, t: U32, n: nat): ProcNode
    requires AtLevel(m, t, n)
    decreases |m| + 1 - n, 0
  {
    LevelBound(m, t, n);
    NodeWith(m, t, Nodes(m, Ordered(m, Kids(m, t)), n + 1))
  }

  ghost function Nodes(m: Table, ids: seq<U32>, n: nat): (nodes: seq<ProcNode>)
    requires n <= |m| + 1 && forall k | k in ids :: AtLevel(m, k, n)
    ensures |nodes| == |ids| && forall i | 0 <= i < |ids| :: nodes[i] == Node(m, ids[i], n)
    decreases |m| + 1 - n, 1 + |ids|
  {
    if ids == [] then []
    else
      LevelBound(m, ids[0], n);
      [Node(m, ids[0], n)] + Nodes(m, ids[1..], n)
  }

  /** Processes that are their own parent, and parents that were never observed. */
  function RootIds(m: Table): set<U32> {
    (set k | k in m && m[k].ppid == k) + (set k | k in m && m[k].ppid !in m :: m[k].ppid)
  }

  lemma RootsAreTop(m: Table, r: U32)
    requires r in RootIds(m)
    ensures IsTop(m, r) && AtLevel(m, r, 0)
  {
  }

  ghost function Forest(m: Table): seq<ProcNode> {
    assert forall r | r in RootIds(m) :: AtLevel(m, r, 0);
    Nodes(m, Ordered(m, RootIds(m)), 0)
  }

  // ----- The shape of the forest -----

  ghost predicate AscendingNodes(s: seq<ProcNode>) {
    forall i, j | 0 <= i < j < |s| :: s[i].tsNs < s[j].tsNs || (s[i].tsNs == s[j].tsNs && s[i].id < s[j].id)
  }

  /** The node carries the record of its process, or the label of one that was never observed. */
  ghost predicate Describes(m: Table, node: ProcNode) {
    if node.id in m then
      node.comm == m[node.id].comm && node.args == m[node.id].args && node.tsNs == m[node.id].firstSeenTsNs
    else
      node.comm == "(unknown pid " + Decimal(node.id) + ")" && node.args == [] && node.tsNs == 0
  }

  /** Every edge follows `ppid`, no child is missing, and siblings are in ascending order. */
  ghost predicate IsTree(m: Table, node: ProcNode) {
    && Describes(m, node)
    && AscendingNodes(node.children)
    && (forall c | c in node.children :: c.id in m && m[c.id].ppid == node.id && c.id != node.id)
    && (forall k | k in m && m[k].ppid == node.id && k != node.id :: exists c | c in node.children :: c.id == k)
    && (forall c | c in node.children :: IsTree(m, c))
  }

  lemma {:induction false} NodeIsTree(m: Table, t: U32, n: nat)
    requires AtLevel(m, t, n)
    ensures IsTree(m, Node(m, t, n)) && Node(m, t, n).id == t
    decreases |m| + 1 - n, 0
  {
    hide Ordered, AtLevel, IsTree;
    LevelBound(m, t, n);
    var ids := Ordered(m, Kids(m, t));
    forall k | k in ids ensures AtLevel(m, k, n + 1) {
      KidsLevel(m, t, n, k);
    }
    NodesAreTrees(m, ids, n + 1);
    ChildrenMakeTree(m, t, ids, Nodes(m, ids, n + 1));
  }

  /** Trees of all the kids, in order, make the tree of their parent. */
  lemma ChildrenMakeTree(m: Table, t: U32, ids: seq<U32>, children: seq<ProcNode>)
    requires forall k :: k in ids <==> k in Kids(m, t)
    requires |children| == |ids| && AscendingNodes(children)
    requires forall i | 0 <= i < |ids| :: IsTree(m, children[i]) && children[i].id == ids[i]
    ensures IsTree(m, NodeWith(m, t, children))
  {
    hide AscendingNodes;
    var node := NodeWith(m, t, children);
    assert node.children == children && node.id == t;
    forall c | c in children ensures IsTree(m, c) && c.id in Kids(m, t) {
      var i :| 0 <= i < |children| && children[i] == c;
      assert ids[i] in ids;
    }
    forall k | k in m && m[k].ppid == t && k != t ensures exists c | c in node.children :: c.id == k {
      assert k in ids;
      var i :| 0 <= i < |ids| && ids[i] == k;
      assert children[i] in node.children;
    }
  }

  lemma {:induction false} NodesAreTrees(m: Table, ids: seq<U32>, n: nat)
    requires n <= |m| + 1 && Ascending(m, ids) && forall k | k in ids :: AtLevel(m, k, n)
    ensures AscendingNodes(Nodes(m, ids, n))
    ensures forall i | 0 <= i < |ids| :: IsTree(m, Nodes(m, ids, n)[i]) && Nodes(m, ids, n)[i].id == ids[i]
    decreases |m| + 1 - n, 1
  {
    hide Ordered, IsTop, IsTree;
    var nodes := Nodes(m, ids, n);
    forall i | 0 <= i < |ids| ensures IsTree(m, nodes[i]) && nodes[i].id == ids[i] && nodes[i].tsNs == Seen(m, ids[i]) {
      LevelBound(m, ids[i], n);
      NodeIsTree(m, ids[i], n);
    }
    forall i, j | 0 <= i < j < |ids|
      ensures nodes[i].tsNs < nodes[j].tsNs || (nodes[i].tsNs == nodes[j].tsNs && nodes[i].id < nodes[j].id)
    {
      assert KeyLess(m, ids[i], ids[j]);
    }
  }

  /** The roots are exactly the self-parents and the unobserved parents, in ascending order, and
      below every root hangs its whole tree. */
  lemma ForestShape(m: Table)
    ensures AscendingNodes(Forest(m))
    ensures forall i | 0 <= i < |Forest(m)| :: IsTree(m, Forest(m)[i])
    ensures forall r :: r in RootIds(m) <==> exists node | node in Forest(m) :: node.id == r
  {
    hide Ordered, Nodes, IsTree, AtLevel, RootIds, AscendingNodes;
    var ids, nodes := Ordered(m, RootIds(m)), Forest(m);
    forall r | r in ids ensures AtLevel(m, r, 0) {
      RootsAreTop(m, r);
    }
    NodesAreTrees(m, ids, 0);
    forall r ensures r in RootIds(m) <==> exists node | node in nodes :: node.id == r {
      if r in RootIds(m) {
        var i :| 0 <= i < |ids| && ids[i] == r;
        assert nodes[i] in nodes;
      }
      if node :| node in nodes && node.id == r {
        var i :| 0 <= i < |nodes| && nodes[i] == node;
        assert ids[i] in ids;
      }
    }
  }

  /** `x` stands anywhere in these trees. */
  ghost predicate Within(x: ProcNode, nodes: seq<ProcNode>) {
    exists i | 0 <= i < |nodes| :: nodes[i] == x || Within(x, nodes[i].children)
  }

  lemma {:induction false} WithinTrees(m: Table, x: ProcNode, nodes: seq<ProcNode>)
    requires Within(x, nodes) && forall i | 0 <= i < |nodes| :: IsTree(m, nodes[i])
    ensures IsTree(m, x)
    decreases nodes
  {
    hide Describes, AscendingNodes;
    var i :| 0 <= i < |nodes| && (nodes[i] == x || Within(x, nodes[i].children));
    if nodes[i] != x {
      WithinTrees(m, x, nodes[i].children);
    }
  }

  /** Every node of the forest, however deep, shows its own process. */
  lemma NodesShowRecords(m: Table, x: ProcNode)
    requires Within(x, Forest(m))
    ensures if x.id in m then
              x.comm == m[x.id].comm && x.args == m[x.id].args && x.tsNs == m[x.id].firstSeenTsNs
            else
              x.comm == "(unknown pid " + Decimal(x.id) + ")" && x.args == [] && x.tsNs == 0
  {
    hide Forest, Within, AscendingNodes, RootIds, Numeral;
    ForestShape(m);
    WithinTrees(m, x, Forest(m));
  }
}
