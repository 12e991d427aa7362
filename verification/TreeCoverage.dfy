/** Which processes the forest shows, and how often. */
module TreeCoverage {
  import opened Events
  import opened ProcessTree

  // ----- All ids of a forest, with multiplicity -----

  function Ids(node: ProcNode): multiset<U32> {
    multiset{node.id} + IdsOf(node.children)
  }

  function IdsOf(nodes: seq<ProcNode>): multiset<U32> {
    if nodes == [] then multiset{} else Ids(nodes[0]) + IdsOf(nodes[1..])
  }

  // ----- Climbing the ancestor chain -----

  /** `d` steps from child to parent lead from `x` to `t`. */
  predicate Climbs(m: Table, x: U32, t: U32, d: nat)
    decreases d
  {
    if d == 0 then x == t else !IsTop(m, x) && Climbs(m, m[x].ppid, t, d - 1)
  }

  ghost predicate Under(m: Table, x: U32, t: U32) {
    exists d :: Climbs(m, x, t, d)
  }

  lemma {:induction false} ClimbLevels(m: Table, x: U32, t: U32, d: nat, n: nat)
    requires Climbs(m, x, t, d)
    ensures AtLevel(m, t, n) ==> AtLevel(m, x, n + d)
    ensures AtLevel(m, x, n) ==> d <= n && AtLevel(m, t, n - d)
    decreases d
  {
    if d > 0 {
      ClimbLevels(m, m[x].ppid, t, d - 1, n);
      if AtLevel(m, x, n) {
        ClimbLevels(m, m[x].ppid, t, d - 1, n - 1);
      }
    }
  }

  /** The last step of a climb to `t` passes one of its kids. */
  lemma {:induction false} ClimbThroughKid(m: Table, x: U32, t: U32, d: nat) returns (k: U32)
    requires Climbs(m, x, t, d) && d > 0
    ensures k in Kids(m, t) && Climbs(m, x, k, d - 1)
    decreases d
  {
    if d == 1 {
      k := x;
    } else {
      k := ClimbThroughKid(m, m[x].ppid, t, d - 1);
    }
  }

  lemma {:induction false} ClimbFromKid(m: Table, x: U32, k: U32, t: U32, d: nat)
    requires Climbs(m, x, k, d) && k in Kids(m, t)
    ensures Climbs(m, x, t, d + 1)
    decreases d
  {
    if d > 0 {
      ClimbFromKid(m, m[x].ppid, k, t, d - 1);
    } else {
      assert Climbs(m, t, t, 0);
    }
  }

  lemma {:induction false} ClimbIsUnique(m: Table, x: U32, a: U32, b: U32, d: nat)
    requires Climbs(m, x, a, d) && Climbs(m, x, b, d)
    ensures a == b
    decreases d
  {
    if d > 0 {
      ClimbIsUnique(m, m[x].ppid, a, b, d - 1);
    }
  }

  /** Two places of one level cannot both be above `x`. */
  lemma OneAbove(m: Table, x: U32, a: U32, b: U32, n: nat)
    requires AtLevel(m, a, n) && AtLevel(m, b, n) && Under(m, x, a) && Under(m, x, b)
    ensures a == b
  {
    var d: nat, e: nat :| Climbs(m, x, a, d) && Climbs(m, x, b, e);
    ClimbLevels(m, x, a, d, n);
    ClimbLevels(m, x, b, e, n);
    LevelIsUnique(m, x, n + d, n + e);
    ClimbIsUnique(m, x, a, b, d);
  }

  lemma UnderExactly(m: Table, x: U32, t: U32, n: nat)
    requires AtLevel(m, t, n)
    ensures Under(m, x, t) <==> x == t || exists k | k in Kids(m, t) :: Under(m, x, k)
    ensures forall k | k in Kids(m, t) :: !Under(m, t, k)
  {
    if d: nat :| Climbs(m, x, t, d) {
      if d > 0 {
        var k := ClimbThroughKid(m, x, t, d);
        assert Under(m, x, k);
      }
    }
    if x == t {
      assert Climbs(m, x, t, 0);
    }
    if k :| k in Kids(m, t) && Under(m, x, k) {
      var d: nat :| Climbs(m, x, k, d);
      ClimbFromKid(m, x, k, t, d);
    }
    forall k | k in Kids(m, t) ensures !Under(m, t, k) {
      if d: nat :| Climbs(m, t, k, d) {
        ClimbFromKid(m, t, k, t, d);
        ClimbLevels(m, t, t, d + 1, n);
      }
    }
  }

  // ----- Every node of a tree once -----

  lemma {:induction false} NodeShows(m: Table, t: U32, n: nat, x: U32)
    requires AtLevel(m, t, n)
    ensures Ids(Node(m, t, n))[x] == if Under(m, x, t) then 1 else 0
    decreases |m| + 1 - n, 0
  {
    hide Ordered, Under, AtLevel, Ids, IdsOf, NodeWith, Nodes;
    LevelBound(m, t, n);
    var ids := Ordered(m, Kids(m, t));
    forall k | k in ids ensures AtLevel(m, k, n + 1) {
      KidsLevel(m, t, n, k);
    }
    NodesShow(m, ids, n + 1, x);
    UnderExactly(m, x, t, n);
    IdsOfNode(m, t, Nodes(m, ids, n + 1));
  }

  lemma {:induction false} NodesShow(m: Table, ids: seq<U32>, n: nat, x: U32)
    requires n <= |m| + 1 && Ascending(m, ids) && forall k | k in ids :: AtLevel(m, k, n)
    ensures IdsOf(Nodes(m, ids, n))[x] == if exists k | k in ids :: Under(m, x, k) then 1 else 0
    decreases |m| + 1 - n, 1 + |ids|
  {
    hide Under, AtLevel, IdsOf, Node;
    IdsOfNodes(m, ids, n);
    if ids != [] {
      LevelBound(m, ids[0], n);
      NodeShows(m, ids[0], n, x);
      NodesShow(m, ids[1..], n, x);
      forall k | k in ids[1..] ensures k != ids[0] && !(Under(m, x, ids[0]) && Under(m, x, k)) {
        var i :| 0 <= i < |ids[1..]| && ids[1..][i] == k;
        assert KeyLess(m, ids[0], ids[i + 1]);
        if Under(m, x, ids[0]) && Under(m, x, k) {
          OneAbove(m, x, ids[0], k, n);
        }
      }
      assert forall k :: k in ids <==> k == ids[0] || k in ids[1..];
    }
  }

  lemma IdsOfNode(m: Table, t: U32, children: seq<ProcNode>)
    ensures Ids(NodeWith(m, t, children)) == multiset{t} + IdsOf(children)
  {
  }

  lemma IdsOfNodes(m: Table, ids: seq<U32>, n: nat)
    requires n <= |m| + 1 && forall k | k in ids :: AtLevel(m, k, n)
    ensures IdsOf(Nodes(m, ids, n)) ==
            if ids == [] then multiset{} else Ids(Node(m, ids[0], n)) + IdsOf(Nodes(m, ids[1..], n))
  {
    if ids != [] {
      LevelBound(m, ids[0], n);
      assert Nodes(m, ids, n)[1..] == Nodes(m, ids[1..], n);
    }
  }

  // ----- Main results -----

  /** The chain of `x` ends at a self-parent or an unobserved process. */
  ghost predicate Anchored(m: Table, x: U32) {
    exists n :: AtLevel(m, x, n)
  }

  lemma {:induction false} ClimbToTop(m: Table, x: U32, n: nat) returns (r: U32)
    requires AtLevel(m, x, n) && x in m
    ensures r in RootIds(m) && Climbs(m, x, r, n)
    decreases n
  {
    if IsTop(m, x) {
      r := x;
    } else if m[x].ppid !in m {
      r := m[x].ppid;
      assert Climbs(m, r, r, 0);
    } else {
      r := ClimbToTop(m, m[x].ppid, n - 1);
    }
  }

  /** An observed process is shown exactly once when its chain is anchored and not at all otherwise;
      an id that was never observed is shown exactly once when it is some process's parent. */
  lemma ForestShowsExactly(m: Table, x: U32)
    ensures IdsOf(Forest(m))[x] ==
            if (if x in m then Anchored(m, x) else x in RootIds(m)) then 1 else 0
  {
    var roots := Ordered(m, RootIds(m));
    forall r | r in roots ensures AtLevel(m, r, 0) {
      RootsAreTop(m, r);
    }
    NodesShow(m, roots, 0, x);
    if x in m {
      if n: nat :| AtLevel(m, x, n) {
        var r := ClimbToTop(m, x, n);
        assert r in roots && Under(m, x, r);
      }
    } else {
      assert Climbs(m, x, x, 0);
      assert Under(m, x, x);
    }
    if r :| r in roots && Under(m, x, r) {
      var d: nat :| Climbs(m, x, r, d);
      ClimbLevels(m, x, r, d, 0);
      assert AtLevel(m, x, d);
    }
  }

  /** The chain of `x` runs into a cycle of at least two processes. */
  ghost predicate EntersCycle(m: Table, x: U32) {
    exists c, d, len :: len >= 2 && Climbs(m, x, c, d) && Climbs(m, c, c, len)
  }

  predicate LinkAt(m: Table, path: seq<U32>, x: U32, i: nat)
    requires i < |path|
  {
    !IsTop(m, path[i]) && m[path[i]].ppid == (if i + 1 < |path| then path[i + 1] else x)
  }

  /** Different processes, each the child of the next, and the last one a child of `x`. */
  ghost predicate IsPath(m: Table, path: seq<U32>, x: U32) {
    (forall i | 0 <= i < |path| :: LinkAt(m, path, x, i)) &&
    forall i, j | 0 <= i < j < |path| :: path[i] != path[j]
  }

  lemma {:induction false} PathClimbs(m: Table, path: seq<U32>, x: U32, i: nat)
    requires IsPath(m, path, x) && i <= |path|
    ensures Climbs(m, if i < |path| then path[i] else x, x, |path| - i)
    decreases |path| - i
  {
    if i < |path| {
      assert LinkAt(m, path, x, i);
      PathClimbs(m, path, x, i + 1);
    }
  }

  lemma PathClimbsTo(m: Table, path: seq<U32>, x: U32, i: nat)
    requires IsPath(m, path, x) && i < |path|
    ensures Climbs(m, path[0], path[i], i)
  {
    forall k | 0 <= k < i ensures LinkAt(m, path[..i], path[i], k) {
      assert LinkAt(m, path, x, k);
    }
    PathClimbs(m, path[..i], path[i], 0);
  }

  lemma PathIsShort(m: Table, path: seq<U32>, x: U32)
    requires IsPath(m, path, x)
    ensures |path| <= |m|
  {
    forall i | 0 <= i < |path| ensures path[i] in m.Keys {
      assert LinkAt(m, path, x, i);
    }
    DistinctIsShort(path, m.Keys);
    assert |m.Keys| == |m|;
  }

  /** Following the parents from the start of a path ends, or comes back to the path. */
  lemma {:induction false} FollowParents(m: Table, start: U32, path: seq<U32>, x: U32)
    requires IsPath(m, path, x) && start == (if path == [] then x else path[0])
    ensures Anchored(m, start) || EntersCycle(m, start)
    decreases |m| - |path|
  {
    PathIsShort(m, path, x);
    PathClimbs(m, path, x, 0);
    if IsTop(m, x) {
      ClimbLevels(m, start, x, |path|, 0);
      assert AtLevel(m, start, |path|);
    } else if x in path {
      var i :| 0 <= i < |path| && path[i] == x;
      PathClimbs(m, path, x, i);
      PathClimbsTo(m, path, x, i);
      assert |path| - i != 1;
    } else {
      var longer := path + [x];
      forall i | 0 <= i < |longer| ensures LinkAt(m, longer, m[x].ppid, i) {
        assert i < |path| ==> LinkAt(m, path, x, i);
      }
      PathIsShort(m, longer, m[x].ppid);
      FollowParents(m, start, longer, m[x].ppid);
    }
  }

  /** A process is missing from the forest exactly when its ancestor chain enters a cycle of length two or more. */
  lemma MissingExactlyOnCycles(m: Table, x: U32)
    ensures !Anchored(m, x) <==> EntersCycle(m, x)
  {
    FollowParents(m, x, [], x);
    if EntersCycle(m, x) && Anchored(m, x) {
      var c, d: nat, len: nat :| len >= 2 && Climbs(m, x, c, d) && Climbs(m, c, c, len);
      var n: nat :| AtLevel(m, x, n);
      ClimbLevels(m, x, c, d, n);
      ClimbLevels(m, c, c, len, n - d);
      LevelIsUnique(m, c, n - d, n - d - len);
    }
  }

  /** Two processes that are each other's parents are not shown, whatever else the table holds. */
  lemma MutualParentsAreMissing(m: Table, a: U32, b: U32)
    requires a in m && b in m && a != b && m[a].ppid == b && m[b].ppid == a
    ensures IdsOf(Forest(m))[a] == 0 && IdsOf(Forest(m))[b] == 0
  {
    assert Climbs(m, a, a, 0) && Climbs(m, b, b, 0);
    assert Climbs(m, b, a, 1) && Climbs(m, a, b, 1);
    assert Climbs(m, a, a, 2) && Climbs(m, b, b, 2);
    MissingExactlyOnCycles(m, a);
    MissingExactlyOnCycles(m, b);
    ForestShowsExactly(m, a);
    ForestShowsExactly(m, b);
  }
}
