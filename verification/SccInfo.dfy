/**
 What the compiler reads off the component DAG (internal/tdp/compiler/ir.go, newSCCInfo):
 whether a message type contains, directly or through submessages, a required field.
 The answer is as good as the recorded `deps`, which keep only the edges of the last member
 of a component.
 */
module SccInfo {
  import opened Graphs
  import opened Scc

  /** The recorded deps of component c are all the earlier components its members have edges into. */
  ghost predicate DepsComplete<Node(!new)>(g: Node -> seq<Node>, d: DAG<Node>, c: nat)
    requires c < |d.components|
  {
    forall u, v :: u in d.components[c].members && v in g(u) && v in d.keys && d.keys[v] < c ==>
      d.keys[v] in d.components[c].deps
  }

  /** Every recorded dep is earlier in the order and is the target of an edge from a member. */
  lemma DepsSound<Node(!new)>(g: Node -> seq<Node>, root: Node, d: DAG<Node>, c: nat, i: nat)
    requires Decomposes(g, root, d) && c < |d.components| && i in d.components[c].deps
    ensures i < c
    ensures exists u, v :: u in d.components[c].members && v in g(u) && v in d.keys && d.keys[v] == i
  {
    hide Reach;
    var u := Last(d.components[c].members);
    assert i in EarlierTargets(g, d.keys, u, c);
  }

  /** The recorded deps are complete exactly when the last member has every outgoing dependency of the others. */
  lemma DepsCompleteIff<Node(!new)>(g: Node -> seq<Node>, root: Node, d: DAG<Node>, c: nat)
    requires Decomposes(g, root, d) && c < |d.components|
    ensures DepsComplete(g, d, c) <==>
            forall u :: u in d.components[c].members ==>
              EarlierTargets(g, d.keys, u, c) <= EarlierTargets(g, d.keys, Last(d.components[c].members), c)
    ensures |d.components[c].members| == 1 ==> DepsComplete(g, d, c)
  {
    hide Reach;
    var members, deps := d.components[c].members, d.components[c].deps;
    var last := EarlierTargets(g, d.keys, Last(members), c);
    assert Lists(deps, last);
    if DepsComplete(g, d, c) {
      forall u, i | u in members && i in EarlierTargets(g, d.keys, u, c)
        ensures i in last
      {
        var v :| v in g(u) && v in d.keys && d.keys[v] < c && d.keys[v] == i;
        assert i in deps;
      }
    }
    if forall u :: u in members ==> EarlierTargets(g, d.keys, u, c) <= last {
      forall u, v | u in members && v in g(u) && v in d.keys && d.keys[v] < c
        ensures d.keys[v] in deps
      {
        assert d.keys[v] in EarlierTargets(g, d.keys, u, c);
      }
    }
  }

  // ----- A graph whose recorded deps are incomplete -----

  /** Nodes 0 and 1 form a cycle; only node 0 has an edge to node 2. */
  function CycleWithExit(n: nat): seq<nat> {
    if n == 0 then [2, 1] else if n == 1 then [0] else []
  }

  /** Whatever the search does on CycleWithExit, the edge from 0 to 2 goes unrecorded. */
  lemma CycleLosesDep(d: DAG<nat>)
    requires Decomposes(CycleWithExit, 0, d)
    ensures 0 in d.keys && 2 in d.keys && d.keys[2] < d.keys[0]
    ensures 2 in CycleWithExit(0) && d.keys[2] !in d.components[d.keys[0]].deps
    ensures !DepsComplete(CycleWithExit, d, d.keys[0])
  {
    var g := CycleWithExit;
    CycleReach();
    hide Reach;
    var c := d.keys[0];
    assert d.keys[1] == c && d.keys[2] != c;
    assert 2 in g(0);
    var members := d.components[c].members;
    CycleMembers(d);
    assert EarlierTargets(g, d.keys, 1, c) == {} by {
      assert g(1) == [0];
    }
    assert Lists(d.components[c].deps, EarlierTargets(g, d.keys, Last(members), c));
    assert 0 in members;
  }

  lemma CycleMembers(d: DAG<nat>)
    requires Decomposes(CycleWithExit, 0, d)
    ensures 0 in d.keys && d.keys[0] < |d.components|
    ensures d.components[d.keys[0]].members != [] && Last(d.components[d.keys[0]].members) == 1
  {
    CycleReach();
    hide Reach;
    var g := CycleWithExit;
    var c := d.keys[0];
    var members := d.components[c].members;
    assert d.keys[1] == c && d.keys[2] != c;
    assert 1 in members && members[0] == 0;
    var last := Last(members);
    assert members[|members| - 1] in d.keys && d.keys[last] == c;
    CycleNodes(last);
    var k :| 0 <= k < |members| && members[k] == 1;
    assert last == 0 ==> |members| == 1;
  }

  lemma CycleReach()
    ensures Reach(CycleWithExit, 0, 0) && Reach(CycleWithExit, 0, 1) && Reach(CycleWithExit, 1, 0)
    ensures Reach(CycleWithExit, 0, 2) && !Reach(CycleWithExit, 2, 0)
  {
    var g := CycleWithExit;
    ReachSelf(g, 0);
    assert 1 in g(0) && 2 in g(0) && 0 in g(1);
    ReachEdge(g, 0, 1);
    ReachEdge(g, 1, 0);
    ReachEdge(g, 0, 2);
    if Reach(g, 2, 0) {
      ClosedContainsReach(g, {2}, 2, 0);
    }
  }

  lemma CycleNodes(v: nat)
    requires Reach(CycleWithExit, 0, v)
    ensures v in {0, 1, 2}
  {
    ClosedContainsReach(CycleWithExit, {0, 1, 2}, 0, v);
  }

  // ----- Required fields -----

  /** newSCCInfo's hasRequired for component c: a recorded dep has it, or a member has a required field. */
  predicate HasRequired<Node>(d: DAG<Node>, required: Node -> bool, c: nat)
    decreases c
  {
    c < |d.components| &&
    ((exists i :: 0 <= i < |d.components[c].deps| && d.components[c].deps[i] < c &&
        HasRequired(d, required, d.components[c].deps[i]))
     || (exists i :: 0 <= i < |d.components[c].members| && required(d.components[c].members[i])))
  }

  /** newSCCInfo for one component, given the answers for the earlier ones. */
  method NewSccInfo<Node>(c: Component<Node>, info: seq<bool>, required: Node -> bool) returns (has: bool)
    requires forall i :: 0 <= i < |c.deps| ==> c.deps[i] < |info|
    ensures has <==> (exists i :: 0 <= i < |c.deps| && info[c.deps[i]]) ||
                     (exists i :: 0 <= i < |c.members| && required(c.members[i]))
  {
    has := false;
    for i := 0 to |c.deps|
      invariant has <==> exists k :: 0 <= k < i && info[c.deps[k]]
    {
      has := has || info[c.deps[i]];
    }
    ghost var fromDeps := has;
    for i := 0 to |c.members|
      invariant has <==> fromDeps || exists k :: 0 <= k < i && required(c.members[k])
    {
      has := has || required(c.members[i]);
    }
  }

  /** The compiler's pass over the components in topological order. */
  method ComputeRequired<Node(!new)>(ghost g: Node -> seq<Node>, ghost root: Node, d: DAG<Node>, required: Node -> bool)
    returns (info: seq<bool>)
    requires Decomposes(g, root, d)
    ensures |info| == |d.components|
    ensures forall c :: 0 <= c < |info| ==> info[c] == HasRequired(d, required, c)
  {
    hide Decomposes, HasRequired;
    info := [];
    for c := 0 to |d.components|
      invariant |info| == c
      invariant forall k :: 0 <= k < c ==> info[k] == HasRequired(d, required, k)
    {
      DepsEarlier(g, root, d, c);
      var has := NewSccInfo(d.components[c], info, required);
      HasRequiredStep(d, required, c, info, has);
      info := info + [has];
    }
  }

  lemma HasRequiredStep<Node>(d: DAG<Node>, required: Node -> bool, c: nat, info: seq<bool>, has: bool)
    requires c < |d.components| && |info| == c
    requires forall i :: 0 <= i < |d.components[c].deps| ==> d.components[c].deps[i] < c
    requires forall k :: 0 <= k < c ==> info[k] == HasRequired(d, required, k)
    requires has <==> (exists i :: 0 <= i < |d.components[c].deps| && info[d.components[c].deps[i]]) ||
                      (exists i :: 0 <= i < |d.components[c].members| && required(d.components[c].members[i]))
    ensures has == HasRequired(d, required, c)
  {
  }

  lemma DepsEarlier<Node(!new)>(g: Node -> seq<Node>, root: Node, d: DAG<Node>, c: nat)
    requires Decomposes(g, root, d) && c < |d.components|
    ensures forall i :: 0 <= i < |d.components[c].deps| ==> d.components[c].deps[i] < c
  {
    forall i | 0 <= i < |d.components[c].deps|
      ensures d.components[c].deps[i] < c
    {
      DepsSound(g, root, d, c, d.components[c].deps[i]);
    }
  }

  /** Component k is c or is reached from it along recorded deps. */
  ghost predicate Below<Node>(d: DAG<Node>, c: nat, k: nat)
    decreases c
  {
    c == k ||
    (c < |d.components| &&
     exists i :: 0 <= i < |d.components[c].deps| && d.components[c].deps[i] < c && Below(d, d.components[c].deps[i], k))
  }

  lemma {:induction false} RequiredBelow<Node>(d: DAG<Node>, required: Node -> bool, c: nat)
    requires HasRequired(d, required, c)
    ensures exists k: nat, i: nat :: Below(d, c, k) && k < |d.components| && i < |d.components[k].members| &&
                           required(d.components[k].members[i])
    decreases c
  {
    var deps := d.components[c].deps;
    if i :| 0 <= i < |deps| && deps[i] < c && HasRequired(d, required, deps[i]) {
      RequiredBelow(d, required, deps[i]);
      var k: nat, j: nat :| Below(d, deps[i], k) && k < |d.components| && j < |d.components[k].members| &&
                  required(d.components[k].members[j]);
      assert Below(d, c, k);
    } else {
      assert Below(d, c, c);
    }
  }

  lemma {:induction false} BelowRequired<Node>(d: DAG<Node>, required: Node -> bool, c: nat, k: nat, i: nat)
    requires c < |d.components| && Below(d, c, k)
    requires k < |d.components| && i < |d.components[k].members| && required(d.components[k].members[i])
    ensures HasRequired(d, required, c)
    decreases c
  {
    if c != k {
      var deps := d.components[c].deps;
      var j :| 0 <= j < |deps| && deps[j] < c && Below(d, deps[j], k);
      BelowRequired(d, required, deps[j], k, i);
    }
  }

  lemma {:induction false} BelowReach<Node(!new)>(g: Node -> seq<Node>, root: Node, d: DAG<Node>, c: nat, k: nat,
                                                  u: Node, v: Node)
    requires Decomposes(g, root, d) && c < |d.components| && Below(d, c, k)
    requires u in d.keys && d.keys[u] == c && v in d.keys && d.keys[v] == k
    ensures Reach(g, u, v)
    decreases c
  {
    hide Reach;
    if c != k {
      var deps := d.components[c].deps;
      var j :| 0 <= j < |deps| && deps[j] < c && Below(d, deps[j], k);
      DepsSound(g, root, d, c, deps[j]);
      var x, y :| x in d.components[c].members && y in g(x) && y in d.keys && d.keys[y] == deps[j];
      BelowReach(g, root, d, deps[j], k, y, v);
      ReachEdge(g, x, y);
      assert Reach(g, u, x);
      ReachTrans(g, u, x, y);
      ReachTrans(g, u, y, v);
    }
  }

  /** Something u reaches, u included, has a required field. */
  ghost predicate ReachesRequired<Node(!new)>(g: Node -> seq<Node>, required: Node -> bool, u: Node) {
    exists v :: Reach(g, u, v) && required(v)
  }

  /** A positive answer is always right. */
  lemma RequiredSound<Node(!new)>(g: Node -> seq<Node>, root: Node, d: DAG<Node>, required: Node -> bool, u: Node)
    requires Decomposes(g, root, d) && u in d.keys && HasRequired(d, required, d.keys[u])
    ensures ReachesRequired(g, required, u)
  {
    hide Reach;
    RequiredBelow(d, required, d.keys[u]);
    var k: nat, i: nat :| Below(d, d.keys[u], k) && k < |d.components| && i < |d.components[k].members| &&
                required(d.components[k].members[i]);
    BelowReach(g, root, d, d.keys[u], k, u, d.components[k].members[i]);
  }

  /** Every edge leads to a component that recorded deps lead to. */
  ghost predicate EdgesCovered<Node(!new)>(g: Node -> seq<Node>, d: DAG<Node>) {
    forall u, v :: u in d.keys && v in g(u) && v in d.keys ==> Below(d, d.keys[u], d.keys[v])
  }

  /** hasRequired is right for every reached type and every placement of required fields. */
  ghost predicate AnswersRight<Node(!new)>(g: Node -> seq<Node>, d: DAG<Node>) {
    forall required: Node -> bool, u :: u in d.keys ==>
      (HasRequired(d, required, d.keys[u]) <==> ReachesRequired(g, required, u))
  }

  lemma {:induction false} BelowTrans<Node>(d: DAG<Node>, a: nat, b: nat, c: nat)
    requires Below(d, a, b) && Below(d, b, c)
    ensures Below(d, a, c)
    decreases a
  {
    if a != b {
      var deps := d.components[a].deps;
      var j :| 0 <= j < |deps| && deps[j] < a && Below(d, deps[j], b);
      BelowTrans(d, deps[j], b, c);
    }
  }

  lemma CoveredReach<Node(!new)>(g: Node -> seq<Node>, root: Node, d: DAG<Node>, u: Node, v: Node)
    requires Decomposes(g, root, d) && EdgesCovered(g, d) && u in d.keys && Reach(g, u, v)
    ensures v in d.keys && Below(d, d.keys[u], d.keys[v])
  {
    hide Decomposes;
    assert Topological(g, d) by { DecomposesTopological(g, root, d); }
    var p: seq<Node> :| IsPath(g, u, v, p);
    for i := 0 to |p| - 1
      invariant p[i] in d.keys && Below(d, d.keys[u], d.keys[p[i]])
    {
      BelowTrans(d, d.keys[u], d.keys[p[i]], d.keys[p[i + 1]]);
    }
  }

  lemma DecomposesTopological<Node(!new)>(g: Node -> seq<Node>, root: Node, d: DAG<Node>)
    requires Decomposes(g, root, d)
    ensures Topological(g, d) && Partitions(d)
  {
  }

  /** hasRequired is right for every placement of required fields exactly when recorded deps cover every edge. */
  lemma RequiredExact<Node(!new)>(g: Node -> seq<Node>, root: Node, d: DAG<Node>)
    requires Decomposes(g, root, d)
    ensures AnswersRight(g, d) <==> EdgesCovered(g, d)
  {
    hide Decomposes, Reach;
    DecomposesTopological(g, root, d);
    if EdgesCovered(g, d) {
      forall required: Node -> bool, u | u in d.keys
        ensures HasRequired(d, required, d.keys[u]) <==> ReachesRequired(g, required, u)
      {
        if HasRequired(d, required, d.keys[u]) {
          RequiredSound(g, root, d, required, u);
        }
        if ReachesRequired(g, required, u) {
          var v :| Reach(g, u, v) && required(v);
          CoveredReach(g, root, d, u, v);
          RequiredAt(d, required, d.keys[u], v);
        }
      }
    }
    if AnswersRight(g, d) {
      forall u, v | u in d.keys && v in g(u) && v in d.keys
        ensures Below(d, d.keys[u], d.keys[v])
      {
        ReachEdge(g, u, v);
        var onlyV := x => x == v;
        assert ReachesRequired(g, onlyV, u);
        RequiredBelow(d, onlyV, d.keys[u]);
      }
    }
  }

  lemma RequiredAt<Node(!new)>(d: DAG<Node>, required: Node -> bool, c: nat, v: Node)
    requires Partitions(d) && c < |d.components| && v in d.keys && Below(d, c, d.keys[v]) && required(v)
    ensures HasRequired(d, required, c)
  {
    var k := d.keys[v];
    assert v in d.components[k].members;
    var i :| 0 <= i < |d.components[k].members| && d.components[k].members[i] == v;
    BelowRequired(d, required, c, k, i);
  }

  /** When every component records all its dependencies, as single-member components do, every edge is covered. */
  lemma CompleteDepsCover<Node(!new)>(g: Node -> seq<Node>, root: Node, d: DAG<Node>)
    requires Decomposes(g, root, d)
    requires forall c :: 0 <= c < |d.components| ==> DepsComplete(g, d, c)
    ensures EdgesCovered(g, d)
  {
    hide Reach;
    forall u, v | u in d.keys && v in g(u) && v in d.keys
      ensures Below(d, d.keys[u], d.keys[v])
    {
      var c, k := d.keys[u], d.keys[v];
      if k < c {
        assert u in d.components[c].members && DepsComplete(g, d, c);
        var i :| 0 <= i < |d.components[c].deps| && d.components[c].deps[i] == k;
        assert Below(d, k, k);
      }
    }
  }

  lemma ListsNothing(r: seq<nat>, s: set<nat>)
    requires Lists(r, s)
    ensures s == {} ==> r == []
  {
    assert r != [] ==> r[0] in r;
  }

  /** On CycleWithExit a required field of node 2 is missed for node 0. */
  lemma CycleMissesRequired(d: DAG<nat>)
    requires Decomposes(CycleWithExit, 0, d)
    ensures var required := (v: nat) => v == 2;
            0 in d.keys && ReachesRequired(CycleWithExit, required, 0) && !HasRequired(d, required, d.keys[0])
  {
    var required := (v: nat) => v == 2;
    CycleReach();
    CycleMembers(d);
    CycleLosesDep(d);
    hide Reach;
    var c := d.keys[0];
    assert Lists(d.components[c].deps, EarlierTargets(CycleWithExit, d.keys, 1, c));
    assert EarlierTargets(CycleWithExit, d.keys, 1, c) == {};
    ListsNothing(d.components[c].deps, {});
    forall i | 0 <= i < |d.components[c].members|
      ensures !required(d.components[c].members[i])
    {
      assert d.keys[d.components[c].members[i]] == c;
    }
  }
}
