/** The recursion of `node_for` in asg-api/src/lib.rs on any records, ids repeated or not: when it ends, and what it
    then returns. */
module CallTree {
  import opened Events
  import opened Numerals
  import opened ProcessTree

  // ----- Which calls a call makes -----

  /** The children recorded for `p`, in the order of `sorted`. */
  function ChildrenIn(sorted: seq<ProcRecord>, p: U32): seq<U32> {
    if sorted == [] then []
    else
      var last := sorted[|sorted| - 1];
      ChildrenIn(sorted[..|sorted| - 1], p) + (if last.ppid == p then [last.tgid] else [])
  }

  lemma ChildrenInStep(sorted: seq<ProcRecord>, n: nat, p: U32)
    requires n < |sorted|
    ensures ChildrenIn(sorted[..n + 1], p) ==
            if sorted[n].ppid == p then ChildrenIn(sorted[..n], p) + [sorted[n].tgid] else ChildrenIn(sorted[..n], p)
  {
    assert sorted[..n + 1][..n] == sorted[..n];
  }

  function DropSelf(kids: seq<U32>, p: U32): seq<U32> {
    if kids == [] then []
    else
      var last := kids[|kids| - 1];
      DropSelf(kids[..|kids| - 1], p) + (if last != p then [last] else [])
  }

  lemma DropSelfStep(kids: seq<U32>, p: U32, i: nat)
    requires i < |kids|
    ensures DropSelf(kids[..i + 1], p) == if kids[i] != p then DropSelf(kids[..i], p) + [kids[i]] else DropSelf(kids[..i], p)
  {
    assert kids[..i + 1][..i] == kids[..i];
  }

  lemma {:induction false} DropSelfMembers(kids: seq<U32>, p: U32, k: U32)
    ensures k in DropSelf(kids, p) <==> k in kids && k != p
    decreases |kids|
  {
    if kids != [] {
      DropSelfMembers(kids[..|kids| - 1], p, k);
      assert k in kids <==> k in kids[..|kids| - 1] || k == kids[|kids| - 1];
    }
  }

  /** One of the first `n` records is `k`, a child of `p`. */
  ghost predicate Lists(sorted: seq<ProcRecord>, p: U32, n: nat, k: U32)
    requires n <= |sorted|
  {
    exists i | 0 <= i < n :: sorted[i].tgid == k && sorted[i].ppid == p
  }

  lemma {:induction false} ChildrenInLists(sorted: seq<ProcRecord>, p: U32, n: nat, k: U32)
    requires n <= |sorted|
    ensures k in ChildrenIn(sorted[..n], p) <==> Lists(sorted, p, n, k)
    decreases n
  {
    if n > 0 {
      ChildrenInLists(sorted, p, n - 1, k);
      assert sorted[..n][..n - 1] == sorted[..n - 1];
    }
  }

  /** What `node_for(t)` calls itself on. */
  function Calls(sorted: seq<ProcRecord>, t: U32): seq<U32> {
    DropSelf(ChildrenIn(sorted, t), t)
  }

  /** Exactly the children some record names, the process itself left out. */
  lemma CallsExactly(sorted: seq<ProcRecord>, t: U32, k: U32)
    ensures k in Calls(sorted, t) <==> k != t && exists r | r in sorted :: r.tgid == k && r.ppid == t
  {
    DropSelfMembers(ChildrenIn(sorted, t), t, k);
    ChildrenInLists(sorted, t, |sorted|, k);
    assert sorted[..|sorted|] == sorted;
    if Lists(sorted, t, |sorted|, k) {
      var i :| 0 <= i < |sorted| && sorted[i].tgid == k && sorted[i].ppid == t;
      assert sorted[i] in sorted;
    }
  }

  // ----- When the recursion ends -----

  /** No chain of calls from `t` is longer than `d`. */
  predicate Ends(sorted: seq<ProcRecord>, t: U32, d: nat)
    decreases d
  {
    forall k | k in Calls(sorted, t) :: d > 0 && Ends(sorted, k, d - 1)
  }

  ghost predicate Halts(sorted: seq<ProcRecord>, t: U32) {
    exists d :: Ends(sorted, t, d)
  }

  lemma CallsHalt(sorted: seq<ProcRecord>, t: U32)
    requires Halts(sorted, t)
    ensures forall k | k in Calls(sorted, t) :: Halts(sorted, k)
  {
    hide Calls;
    var d: nat :| Ends(sorted, t, d);
    forall k | k in Calls(sorted, t) ensures Halts(sorted, k) {
      assert Ends(sorted, k, d - 1);
    }
  }

  /** A chain of nested calls. */
  ghost predicate CallChain(sorted: seq<ProcRecord>, path: seq<U32>) {
    |path| >= 1 && forall i | 0 < i < |path| :: path[i] in Calls(sorted, path[i - 1])
  }

  ghost predicate Repeats(path: seq<U32>) {
    exists i, j :: 0 <= i < j < |path| && path[i] == path[j]
  }

  /** Some chain of calls from `t` comes back to a process it is still working on. */
  ghost predicate Loops(sorted: seq<ProcRecord>, t: U32) {
    exists path :: CallChain(sorted, path) && path[0] == t && Repeats(path)
  }

  lemma {:induction false} EndsAlong(sorted: seq<ProcRecord>, path: seq<U32>, d: nat, i: nat)
    requires CallChain(sorted, path) && Ends(sorted, path[0], d) && i < |path|
    ensures i <= d && Ends(sorted, path[i], d - i)
  {
    hide Calls;
    if i > 0 {
      EndsAlong(sorted, path, d, i - 1);
      assert path[i] in Calls(sorted, path[i - 1]);
    }
  }

  lemma {:induction false} CycleNeverEnds(sorted: seq<ProcRecord>, cycle: seq<U32>, d: nat)
    requires CallChain(sorted, cycle) && |cycle| >= 2 && cycle[0] == cycle[|cycle| - 1]
    ensures !Ends(sorted, cycle[0], d)
    decreases d
  {
    hide Ends, CallChain;
    if Ends(sorted, cycle[0], d) {
      EndsAlong(sorted, cycle, d, |cycle| - 1);
      CycleNeverEnds(sorted, cycle, d - (|cycle| - 1));
    }
  }

  function Tgids(sorted: seq<ProcRecord>): set<U32> {
    set i | 0 <= i < |sorted| :: sorted[i].tgid
  }

  lemma ChainInTgids(sorted: seq<ProcRecord>, path: seq<U32>, i: nat)
    requires CallChain(sorted, path) && 0 < i < |path|
    ensures path[i] in Tgids(sorted)
  {
    CallsExactly(sorted, path[i - 1], path[i]);
    var r :| r in sorted && r.tgid == path[i];
    var k :| 0 <= k < |sorted| && sorted[k] == r;
  }

  /** Where no chain from `path[0]` repeats, what is still to come is bounded by the ids not yet visited. */
  lemma {:induction false} UnrepeatedEnds(sorted: seq<ProcRecord>, path: seq<U32>, ids: set<U32>)
    requires CallChain(sorted, path) && !Loops(sorted, path[0]) && ids == Tgids(sorted) + {path[0]}
    ensures |path| <= |ids| && Ends(sorted, path[|path| - 1], |ids| - |path|)
    decreases |ids| - |path|
  {
    hide Calls, Loops, Ends, Repeats, Tgids;
    var last := path[|path| - 1];
    ChainIsShort(sorted, path, ids);
    forall k | k in Calls(sorted, last) ensures |path| < |ids| && Ends(sorted, k, |ids| - |path| - 1) {
      var longer := path + [k];
      assert CallChain(sorted, longer);
      ChainIsShort(sorted, longer, ids);
      UnrepeatedEnds(sorted, longer, ids);
    }
    EndsWhenCallsEnd(sorted, last, |ids| - |path|);
  }

  lemma EndsWhenCallsEnd(sorted: seq<ProcRecord>, t: U32, d: nat)
    requires forall k | k in Calls(sorted, t) :: d > 0 && Ends(sorted, k, d - 1)
    ensures Ends(sorted, t, d)
  {
  }

  lemma ChainIsShort(sorted: seq<ProcRecord>, path: seq<U32>, ids: set<U32>)
    requires CallChain(sorted, path) && !Loops(sorted, path[0]) && ids == Tgids(sorted) + {path[0]}
    ensures |path| <= |ids|
  {
    hide Calls, Tgids;
    forall i | 0 <= i < |path| ensures path[i] in ids {
      if i > 0 { ChainInTgids(sorted, path, i); }
    }
    DistinctIsShort(path, ids);
  }

  /** The recursion from `t` ends exactly when no chain of calls visits a process twice. */
  lemma HaltsExactly(sorted: seq<ProcRecord>, t: U32)
    ensures Halts(sorted, t) <==> !Loops(sorted, t)
  {
    hide Calls, Ends;
    if !Loops(sorted, t) {
      UnrepeatedEnds(sorted, [t], Tgids(sorted) + {t});
    } else {
      var path :| CallChain(sorted, path) && path[0] == t && Repeats(path);
      var i, j :| 0 <= i < j < |path| && path[i] == path[j];
      if d: nat :| Ends(sorted, t, d) {
        EndsAlong(sorted, path, d, i);
        var cycle := path[i..j + 1];
        forall k | 0 < k < |cycle| ensures cycle[k] in Calls(sorted, cycle[k - 1]) {
          assert cycle[k] == path[i + k] && cycle[k - 1] == path[i + k - 1];
        }
        CycleNeverEnds(sorted, cycle, d - i);
      }
    }
  }

  /** Nothing calls a process without a record, so a loop below it is one below one of its calls. */
  lemma LoopsThroughCall(sorted: seq<ProcRecord>, q: U32) returns (k: U32)
    requires q !in Tgids(sorted) && Loops(sorted, q)
    ensures k in Calls(sorted, q) && Loops(sorted, k)
  {
    hide Calls;
    var path :| CallChain(sorted, path) && path[0] == q && Repeats(path);
    var i, j :| 0 <= i < j < |path| && path[i] == path[j];
    ChainInTgids(sorted, path, j);
    var rest := path[1..];
    RestOfChain(sorted, path);
    assert rest[i - 1] == rest[j - 1];
    k := rest[0];
  }

  lemma RestOfChain(sorted: seq<ProcRecord>, path: seq<U32>)
    requires CallChain(sorted, path) && |path| >= 2
    ensures CallChain(sorted, path[1..]) && path[1] in Calls(sorted, path[0])
  {
  }

  // ----- What it returns -----

  /** The calls with `d` levels at most below their caller. */
  predicate AllEnd(sorted: seq<ProcRecord>, ids: seq<U32>, d: nat) {
    forall k | k in ids :: d > 0 && Ends(sorted, k, d - 1)
  }

  lemma AllEndAt(sorted: seq<ProcRecord>, ids: seq<U32>, d: nat)
    requires AllEnd(sorted, ids, d) && ids != []
    ensures d > 0 && Ends(sorted, ids[0], d - 1) && AllEnd(sorted, ids[1..], d)
  {
    hide Ends;
    assert ids[0] in ids && forall k | k in ids[1..] :: k in ids;
  }

  ghost function Tree(m: Table, sorted: seq<ProcRecord>, t: U32, d: nat): ProcNode
    requires Ends(sorted, t, d)
    decreases d, |Calls(sorted, t)| + 1
  {
    NodeWith(m, t, Trees(m, sorted, Calls(sorted, t), d))
  }

  ghost function Trees(m: Table, sorted: seq<ProcRecord>, ids: seq<U32>, d: nat): (nodes: seq<ProcNode>)
    requires AllEnd(sorted, ids, d)
    ensures |nodes| == |ids|
    decreases d, |ids|
  {
    if ids == [] then []
    else
      AllEndAt(sorted, ids, d);
      [Tree(m, sorted, ids[0], d - 1)] + Trees(m, sorted, ids[1..], d)
  }

  lemma {:induction false} TreesAt(m: Table, sorted: seq<ProcRecord>, ids: seq<U32>, d: nat, i: nat)
    requires AllEnd(sorted, ids, d) && i < |ids|
    ensures d > 0 && Ends(sorted, ids[i], d - 1) && Trees(m, sorted, ids, d)[i] == Tree(m, sorted, ids[i], d - 1)
    decreases |ids|
  {
    hide Ends, AllEnd, Tree;
    AllEndAt(sorted, ids, d);
    if i > 0 {
      TreesAt(m, sorted, ids[1..], d, i - 1);
    }
  }

  lemma {:induction false} TreeIgnoresBound(m: Table, sorted: seq<ProcRecord>, t: U32, d: nat, e: nat)
    requires Ends(sorted, t, d) && Ends(sorted, t, e)
    ensures Tree(m, sorted, t, d) == Tree(m, sorted, t, e)
    decreases d
  {
    hide Calls;
    var ids := Calls(sorted, t);
    forall i | 0 <= i < |ids| ensures Trees(m, sorted, ids, d)[i] == Trees(m, sorted, ids, e)[i] {
      TreesAt(m, sorted, ids, d, i);
      TreesAt(m, sorted, ids, e, i);
      TreeIgnoresBound(m, sorted, ids[i], d - 1, e - 1);
    }
    assert Trees(m, sorted, ids, d) == Trees(m, sorted, ids, e);
  }

  /** The tree below `t`. */
  ghost function TreeOf(m: Table, sorted: seq<ProcRecord>, t: U32): ProcNode
    requires Halts(sorted, t)
  {
    var d: nat :| Ends(sorted, t, d);
    Tree(m, sorted, t, d)
  }

  ghost function TreesOf(m: Table, sorted: seq<ProcRecord>, ids: seq<U32>): (nodes: seq<ProcNode>)
    requires forall k | k in ids :: Halts(sorted, k)
    ensures |nodes| == |ids|
  {
    seq(|ids|, i requires 0 <= i < |ids| => assert ids[i] in ids; TreeOf(m, sorted, ids[i]))
  }

  lemma TreeOfWitness(m: Table, sorted: seq<ProcRecord>, t: U32) returns (d: nat)
    requires Halts(sorted, t)
    ensures Ends(sorted, t, d) && TreeOf(m, sorted, t) == Tree(m, sorted, t, d)
  {
    hide Ends, Tree;
    d :| Ends(sorted, t, d) && TreeOf(m, sorted, t) == Tree(m, sorted, t, d);
  }

  /** It is the node of `t` over the trees of its calls, in their order. */
  lemma TreeOfUnfolds(m: Table, sorted: seq<ProcRecord>, t: U32)
    requires Halts(sorted, t)
    ensures forall k | k in Calls(sorted, t) :: Halts(sorted, k)
    ensures TreeOf(m, sorted, t) == NodeWith(m, t, TreesOf(m, sorted, Calls(sorted, t)))
  {
    hide Calls, TreeOf, Halts;
    CallsHalt(sorted, t);
    var ids := Calls(sorted, t);
    var d := TreeOfWitness(m, sorted, t);
    forall i | 0 <= i < |ids| ensures Trees(m, sorted, ids, d)[i] == TreesOf(m, sorted, ids)[i] {
      TreesAt(m, sorted, ids, d, i);
      TreeOfIs(m, sorted, ids[i], d - 1);
    }
    assert Trees(m, sorted, ids, d) == TreesOf(m, sorted, ids);
    assert Tree(m, sorted, t, d) == NodeWith(m, t, Trees(m, sorted, ids, d));
  }

  lemma TreeOfIs(m: Table, sorted: seq<ProcRecord>, t: U32, d: nat)
    requires Ends(sorted, t, d)
    ensures Halts(sorted, t) && TreeOf(m, sorted, t) == Tree(m, sorted, t, d)
  {
    hide Calls, Ends, TreeOf, Tree;
    var e := TreeOfWitness(m, sorted, t);
    TreeIgnoresBound(m, sorted, t, d, e);
  }

  lemma TreesOfAppend(m: Table, sorted: seq<ProcRecord>, ids: seq<U32>, id: U32)
    requires Halts(sorted, id) && forall k | k in ids :: Halts(sorted, k)
    ensures forall k | k in ids + [id] :: Halts(sorted, k)
    ensures TreesOf(m, sorted, ids + [id]) == TreesOf(m, sorted, ids) + [TreeOf(m, sorted, id)]
  {
    hide Halts;
    assert forall k :: k in ids + [id] <==> k in ids || k == id;
  }

  lemma TreeOfId(m: Table, sorted: seq<ProcRecord>, t: U32)
    requires Halts(sorted, t)
    ensures TreeOf(m, sorted, t).id == t && TreeOf(m, sorted, t).tsNs == Seen(m, t)
  {
    TreeOfUnfolds(m, sorted, t);
  }

  /** It shows the process of `t`, and its children are the trees of the calls, in their order. */
  lemma TreeOfExactly(m: Table, sorted: seq<ProcRecord>, t: U32)
    requires Halts(sorted, t)
    ensures var node := TreeOf(m, sorted, t);
            node.id == t && Describes(m, node) && |node.children| == |Calls(sorted, t)| &&
            forall i | 0 <= i < |node.children| ::
              Halts(sorted, Calls(sorted, t)[i]) && node.children[i] == TreeOf(m, sorted, Calls(sorted, t)[i])
  {
    hide Calls, Halts, TreeOf, Numeral;
    TreeOfUnfolds(m, sorted, t);
    var ids := Calls(sorted, t);
    forall i | 0 <= i < |ids| ensures ids[i] in ids {
    }
  }

  /** `ks` are the places of the records that name `t` as parent of another process. */
  ghost predicate ChildPlaces(sorted: seq<ProcRecord>, t: U32, ks: seq<nat>) {
    (forall i, j | 0 <= i < j < |ks| :: ks[i] < ks[j]) &&
    (forall k: nat :: k in ks <==> k < |sorted| && sorted[k].ppid == t && sorted[k].tgid != t)
  }

  lemma DropSelfEnd(kids: seq<U32>, k: U32, p: U32)
    ensures DropSelf(kids + [k], p) == DropSelf(kids, p) + (if k != p then [k] else [])
  {
    assert (kids + [k])[..|kids|] == kids;
  }

  lemma PlacesGrow(sorted: seq<ProcRecord>, t: U32, ks: seq<nat>)
    requires sorted != [] && ChildPlaces(sorted[..|sorted| - 1], t, ks)
    ensures var n := |sorted| - 1;
            ChildPlaces(sorted, t, if sorted[n].ppid == t && sorted[n].tgid != t then ks + [n] else ks)
  {
    forall i | 0 <= i < |ks| ensures ks[i] < |sorted| - 1 {
      assert ks[i] in ks;
    }
  }

  lemma NoCalls(t: U32)
    ensures Calls([], t) == [] && ChildPlaces([], t, [])
  {
  }

  /** The calls are made in the order of the records, once for each. */
  lemma {:induction false} CallsInOrder(sorted: seq<ProcRecord>, t: U32) returns (ks: seq<nat>)
    ensures ChildPlaces(sorted, t, ks) && |Calls(sorted, t)| == |ks|
    ensures forall i | 0 <= i < |ks| :: ks[i] < |sorted| && Calls(sorted, t)[i] == sorted[ks[i]].tgid
    decreases |sorted|
  {
    hide Calls, ChildPlaces;
    ks := [];
    if sorted == [] {
      NoCalls(t);
    } else {
      var n := |sorted| - 1;
      ks := CallsInOrder(sorted[..n], t);
      CallsStep(sorted, t);
      PlacesGrow(sorted, t, ks);
      if sorted[n].ppid == t && sorted[n].tgid != t {
        ks := ks + [n];
      }
    }
  }

  lemma CallsStep(sorted: seq<ProcRecord>, t: U32)
    requires sorted != []
    ensures var n := |sorted| - 1;
            Calls(sorted, t) == Calls(sorted[..n], t) +
                                (if sorted[n].ppid == t && sorted[n].tgid != t then [sorted[n].tgid] else [])
  {
    hide DropSelf;
    var n := |sorted| - 1;
    var kids := ChildrenIn(sorted[..n], t);
    assert kids + [] == kids;
    DropSelfEnd(kids, sorted[n].tgid, t);
  }
}
