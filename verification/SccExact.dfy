/**
 When the analysis of required fields is right whatever the search finds: a condition on the graph alone
 (internal/tdp/compiler/ir.go, newSCCInfo, on the dependencies of internal/scc/scc.go).
 */
module SccExact {
  import opened Graphs
  import opened Scc
  import opened SccInfo

  ghost predicate Together<Node(!new)>(g: Node -> seq<Node>, u: Node, v: Node) {
    Reach(g, u, v) && Reach(g, v, u)
  }

  /** Node v can be the last of its component: the root is its first, so only if it is alone there. */
  ghost predicate MayBeLast<Node(!new)>(g: Node -> seq<Node>, root: Node, v: Node) {
    v == root ==> forall u :: Together(g, u, v) ==> u == v
  }

  /** Some edge of v leaves its component and leads on to w. */
  ghost predicate LeadsOn<Node(!new)>(g: Node -> seq<Node>, v: Node, w: Node) {
    exists x :: x in g(v) && !Reach(g, x, v) && Reach(g, x, w)
  }

  /**
   What an edge of a component leads to, outside it, the edges of every node that may be last in the component lead on
   to as well.
   */
  ghost predicate LastLeadsOn<Node(!new)>(g: Node -> seq<Node>, root: Node) {
    forall u, v, w |
      Reach(g, root, u) && Together(g, u, v) && MayBeLast(g, root, v) && w in g(u) && !Reach(g, w, u) ::
      LeadsOn(g, v, w)
  }

  /** The answers are right on every correct decomposition. */
  ghost predicate AlwaysRight<Node(!new)>(g: Node -> seq<Node>, root: Node) {
    forall d :: Decomposes(g, root, d) ==> AnswersRight(g, d)
  }

  // ----- What a decomposition says of reachability -----

  lemma KeysAre<Node(!new)>(g: Node -> seq<Node>, root: Node, d: DAG<Node>, u: Node, v: Node)
    requires Decomposes(g, root, d) && u in d.keys && Reach(g, u, v)
    ensures Reach(g, root, u) && v in d.keys && d.keys[v] <= d.keys[u] < |d.components|
    ensures d.keys[v] == d.keys[u] <==> Reach(g, v, u)
  {
    hide Reach, Partitions, RootFirst, DepsAsRecorded;
    ReachTrans(g, root, u, v);
    assert Partitions(d) && Topological(g, d);
    LabelsFallAlongReach(g, d.keys, u, v);
    KeyBound(d, u);
  }

  lemma KeyBound<Node(!new)>(d: DAG<Node>, u: Node)
    requires Partitions(d) && u in d.keys
    ensures d.keys[u] < |d.components| && u in d.components[d.keys[u]].members && d.components[d.keys[u]].members != []
  {
  }

  /** The last member of a component, its key, and that it may be last. */
  lemma LastOf<Node(!new)>(g: Node -> seq<Node>, root: Node, d: DAG<Node>, u: Node) returns (v: Node)
    requires Decomposes(g, root, d) && u in d.keys
    ensures d.keys[u] < |d.components| && d.components[d.keys[u]].members != []
    ensures v == Last(d.components[d.keys[u]].members)
    ensures v in d.keys && d.keys[v] == d.keys[u] && Together(g, u, v) && MayBeLast(g, root, v)
    ensures Lists(d.components[d.keys[u]].deps, EarlierTargets(g, d.keys, v, d.keys[u]))
  {
    hide Reach, Lists, Topological;
    KeyBound(d, u);
    var members := d.components[d.keys[u]].members;
    v := Last(members);
    assert members[|members| - 1] in d.keys;
    if v == root {
      assert members[0] == root && |members| == 1;
      forall x | Together(g, x, v)
        ensures x == v
      {
        assert Reach(g, root, x) && d.keys[x] == d.keys[v];
        KeyBound(d, x);
      }
    }
  }

  /** A walk that leaves the component of u does so along some edge. */
  lemma Leaves<Node(!new)>(g: Node -> seq<Node>, u: Node, w: Node) returns (a: Node, b: Node)
    requires Reach(g, u, w) && !Reach(g, w, u)
    ensures Together(g, u, a) && b in g(a) && !Reach(g, b, a) && Reach(g, b, w)
  {
    var p: seq<Node> :| IsPath(g, u, w, p);
    var i := 0;
    ReachSelf(g, u);
    while Reach(g, p[i + 1], u)
      invariant 0 <= i < |p| - 1 && Together(g, u, p[i])
      decreases |p| - i
    {
      ReachEdge(g, p[i], p[i + 1]);
      ReachTrans(g, u, p[i], p[i + 1]);
      i := i + 1;
    }
    a, b := p[i], p[i + 1];
    assert IsPath(g, b, w, p[i + 1..]);
    if Reach(g, b, a) {
      ReachTrans(g, b, a, u);
    }
  }

  // ----- The condition suffices -----

  /** From every node, recorded deps lead to the component of everything it reaches. */
  lemma {:induction false} CoversReach<Node(!new)>(g: Node -> seq<Node>, root: Node, d: DAG<Node>, u: Node, w: Node)
    requires Decomposes(g, root, d) && LastLeadsOn(g, root) && u in d.keys && Reach(g, u, w)
    ensures w in d.keys && Below(d, d.keys[u], d.keys[w])
    decreases if u in d.keys then d.keys[u] else 0
  {
    hide Reach, Decomposes, LastLeadsOn;
    KeysAre(g, root, d, u, w);
    var c := d.keys[u];
    if d.keys[w] != c {
      var a, b := Leaves(g, u, w);
      var v := LastOf(g, root, d, u);
      var x := Onward(g, root, u, v, a, b);
      var i := RecordedAt(g, root, d, v, x);
      ReachTrans(g, x, b, w);
      CoversReach(g, root, d, x, w);
    }
  }

  /** The edge of v by which it leads on to where a leads. */
  lemma Onward<Node(!new)>(g: Node -> seq<Node>, root: Node, u: Node, v: Node, a: Node, b: Node) returns (x: Node)
    requires LastLeadsOn(g, root) && Together(g, u, a) && Together(g, u, v) && MayBeLast(g, root, v)
    requires b in g(a) && !Reach(g, b, a) && Reach(g, root, u)
    ensures x in g(v) && !Reach(g, x, v) && Reach(g, x, b)
  {
    hide Reach;
    ReachTrans(g, root, u, a);
    ReachTrans(g, a, u, v);
    ReachTrans(g, v, u, a);
    assert Together(g, a, v);
    assert LeadsOn(g, v, b);
    x :| x in g(v) && !Reach(g, x, v) && Reach(g, x, b);
  }

  /** An edge of the last member that leaves its component is recorded. */
  lemma RecordedAt<Node(!new)>(g: Node -> seq<Node>, root: Node, d: DAG<Node>, v: Node, x: Node) returns (i: nat)
    requires Decomposes(g, root, d) && v in d.keys && x in g(v) && !Reach(g, x, v)
    requires d.keys[v] < |d.components|
    requires Lists(d.components[d.keys[v]].deps, EarlierTargets(g, d.keys, v, d.keys[v]))
    ensures x in d.keys && i < |d.components[d.keys[v]].deps|
    ensures d.components[d.keys[v]].deps[i] == d.keys[x] < d.keys[v]
  {
    hide Reach, Decomposes;
    ReachEdge(g, v, x);
    KeysAre(g, root, d, v, x);
    assert d.keys[x] in EarlierTargets(g, d.keys, v, d.keys[v]);
    var deps := d.components[d.keys[v]].deps;
    i :| i < |deps| && deps[i] == d.keys[x];
  }

  lemma Sufficient<Node(!new)>(g: Node -> seq<Node>, root: Node, d: DAG<Node>)
    requires Decomposes(g, root, d) && LastLeadsOn(g, root)
    ensures AnswersRight(g, d)
  {
    hide Reach, Decomposes, LastLeadsOn, AnswersRight;
    forall u, w | u in d.keys && w in g(u) && w in d.keys
      ensures Below(d, d.keys[u], d.keys[w])
    {
      ReachEdge(g, u, w);
      CoversReach(g, root, d, u, w);
    }
    RequiredExact(g, root, d);
  }

  // ----- The condition is needed -----

  function Swap<T>(s: seq<T>, i: nat): seq<T>
    requires i < |s|
  {
    s[i := Last(s)][|s| - 1 := s[i]]
  }

  lemma SwapLast<T>(s: seq<T>, i: nat)
    requires i < |s| && Distinct(s)
    ensures Distinct(Swap(s, i)) && Last(Swap(s, i)) == s[i]
    ensures forall x :: x in Swap(s, i) <==> x in s
  {
    var r := Swap(s, i);
    assert r[i] == Last(s) || i == |s| - 1;
    forall x | x in s
      ensures x in r
    {
      var k :| 0 <= k < |s| && s[k] == x;
      assert r[if k == i then |s| - 1 else if k == |s| - 1 then i else k] == x;
    }
  }

  lemma {:induction false} Listing(s: set<nat>) returns (r: seq<nat>)
    ensures Lists(r, s)
    decreases |s|
  {
    if s == {} {
      r := [];
    } else {
      var m := Greatest(s);
      r := Listing(s - {m});
      assert forall x :: x in r <==> x in s - {m};
      assert forall i :: 0 <= i < |r| ==> r[i] in r;
      r := r + [m];
    }
  }

  lemma {:induction false} Greatest(s: set<nat>) returns (m: nat)
    requires s != {}
    ensures m in s && forall x :: x in s ==> x <= m
    decreases |s|
  {
    m :| m in s;
    if s - {m} != {} {
      var n := Greatest(s - {m});
      assert forall x :: x in s ==> x == m || x in s - {m};
      m := if n > m then n else m;
    } else {
      assert forall x :: x in s ==> x == m || x in s - {m};
    }
  }

  /** The decomposition d with member i of component c last. */
  function WithLast<Node>(d: DAG<Node>, c: nat, i: nat, deps: seq<nat>): DAG<Node>
    requires c < |d.components| && i < |d.components[c].members|
  {
    d.(components := d.components[c := Component(Swap(d.components[c].members, i), deps)])
  }

  lemma WithLastPartitions<Node(!new)>(d: DAG<Node>, c: nat, i: nat, deps: seq<nat>)
    requires Partitions(d) && c < |d.components| && i < |d.components[c].members|
    ensures Partitions(WithLast(d, c, i, deps))
  {
    hide Swap, Distinct;
    var e := WithLast(d, c, i, deps);
    var before, after := d.components[c].members, e.components[c].members;
    SwapLast(before, i);
    assert after == Swap(before, i);
    forall k | 0 <= k < |after|
      ensures after[k] in d.keys && d.keys[after[k]] == c
    {
      assert after[k] in before;
    }
  }

  lemma WithLastRoot<Node(!new)>(g: Node -> seq<Node>, root: Node, d: DAG<Node>, v: Node, i: nat, deps: seq<nat>)
    requires Decomposes(g, root, d) && v in d.keys && MayBeLast(g, root, v) && d.keys[v] < |d.components|
    requires i < |d.components[d.keys[v]].members| && d.components[d.keys[v]].members[i] == v
    ensures RootFirst(WithLast(d, d.keys[v], i, deps), root)
  {
    hide Reach, Lists, Topological, DepsAsRecorded;
    var members := d.components[d.keys[v]].members;
    if v == root {
      var u := members[|members| - 1];
      assert u in d.keys && Together(g, u, v);
      assert i == 0 && |members| == 1;
    } else if d.keys[root] == d.keys[v] {
      assert members[0] == root && i > 0;
    }
  }

  lemma WithLastRecorded<Node(!new)>(g: Node -> seq<Node>, d: DAG<Node>, v: Node, i: nat, deps: seq<nat>)
    requires Partitions(d) && DepsAsRecorded(g, d) && v in d.keys && d.keys[v] < |d.components|
    requires i < |d.components[d.keys[v]].members| && d.components[d.keys[v]].members[i] == v
    requires Lists(deps, EarlierTargets(g, d.keys, v, d.keys[v]))
    ensures DepsAsRecorded(g, WithLast(d, d.keys[v], i, deps))
  {
    hide Lists, EarlierTargets;
    SwapLast(d.components[d.keys[v]].members, i);
  }

  lemma WithLastDecomposes<Node(!new)>(g: Node -> seq<Node>, root: Node, d: DAG<Node>, v: Node, i: nat, deps: seq<nat>)
    requires Decomposes(g, root, d) && v in d.keys && MayBeLast(g, root, v) && d.keys[v] < |d.components|
    requires i < |d.components[d.keys[v]].members| && d.components[d.keys[v]].members[i] == v
    requires Lists(deps, EarlierTargets(g, d.keys, v, d.keys[v]))
    ensures Decomposes(g, root, WithLast(d, d.keys[v], i, deps))
  {
    hide Reach, Lists, EarlierTargets, Partitions, RootFirst, DepsAsRecorded, MayBeLast;
    WithLastPartitions(d, d.keys[v], i, deps);
    WithLastRoot(g, root, d, v, i, deps);
    WithLastRecorded(g, d, v, i, deps);
  }

  /** Some correct decomposition has v as the last of its component. */
  lemma LastBecomes<Node(!new)>(g: Node -> seq<Node>, root: Node, d: DAG<Node>, v: Node) returns (e: DAG<Node>)
    requires Decomposes(g, root, d) && v in d.keys && MayBeLast(g, root, v)
    ensures Decomposes(g, root, e) && e.keys == d.keys && d.keys[v] < |e.components|
    ensures Lists(e.components[d.keys[v]].deps, EarlierTargets(g, d.keys, v, d.keys[v]))
  {
    hide Reach, Lists, EarlierTargets, Decomposes, MayBeLast;
    DecomposesTopological(g, root, d);
    KeyBound(d, v);
    var members := d.components[d.keys[v]].members;
    var i :| 0 <= i < |members| && members[i] == v;
    var deps := Listing(EarlierTargets(g, d.keys, v, d.keys[v]));
    WithLastDecomposes(g, root, d, v, i, deps);
    e := WithLast(d, d.keys[v], i, deps);
  }

  /** If only w has a required field, the answer for v is right only if v leads on to w. */
  lemma Needed<Node(!new)>(g: Node -> seq<Node>, root: Node, e: DAG<Node>, v: Node, w: Node)
    requires Decomposes(g, root, e) && AnswersRight(g, e) && v in e.keys && e.keys[v] < |e.components|
    requires Lists(e.components[e.keys[v]].deps, EarlierTargets(g, e.keys, v, e.keys[v]))
    requires Reach(g, v, w) && !Reach(g, w, v)
    ensures LeadsOn(g, v, w)
  {
    hide Reach, Decomposes;
    KeysAre(g, root, e, v, w);
    DecomposesTopological(g, root, e);
    var c := e.keys[v];
    var onlyW := x => x == w;
    assert ReachesRequired(g, onlyW, v);
    RequiredBelow(e, onlyW, c);
    var k: nat, i: nat :| Below(e, c, k) && k < |e.components| && i < |e.components[k].members| &&
                onlyW(e.components[k].members[i]);
    assert e.keys[w] == k;
    var deps := e.components[c].deps;
    var j :| 0 <= j < |deps| && deps[j] < c && Below(e, deps[j], k);
    assert deps[j] in deps;
    assert deps[j] in EarlierTargets(g, e.keys, v, c);
    var x :| x in g(v) && x in e.keys && e.keys[x] < c && e.keys[x] == deps[j];
    ReachEdge(g, v, x);
    KeysAre(g, root, e, v, x);
    BelowReach(g, root, e, deps[j], k, x, w);
  }

  /**
   hasRequired is right, whatever correct decomposition the search finds and wherever the required fields are, exactly
   on the graphs in which every node that may be last in its component leads on to all that its component leads to.
   */
  lemma RightExactly<Node(!new)>(g: Node -> seq<Node>, root: Node, d: DAG<Node>)
    requires Decomposes(g, root, d)
    ensures AlwaysRight(g, root) <==> LastLeadsOn(g, root)
  {
    hide Reach, Decomposes, AnswersRight, LeadsOn, MayBeLast;
    if LastLeadsOn(g, root) {
      forall e | Decomposes(g, root, e)
        ensures AnswersRight(g, e)
      {
        Sufficient(g, root, e);
      }
    }
    if AlwaysRight(g, root) {
      forall u, v, w |
        Reach(g, root, u) && Together(g, u, v) && MayBeLast(g, root, v) && w in g(u) && !Reach(g, w, u)
        ensures LeadsOn(g, v, w)
      {
        NeededAt(g, root, d, u, v, w);
      }
    }
  }

  lemma NeededAt<Node(!new)>(g: Node -> seq<Node>, root: Node, d: DAG<Node>, u: Node, v: Node, w: Node)
    requires Decomposes(g, root, d) && AlwaysRight(g, root)
    requires Reach(g, root, u) && Together(g, u, v) && MayBeLast(g, root, v) && w in g(u) && !Reach(g, w, u)
    ensures LeadsOn(g, v, w)
  {
    hide Reach, AnswersRight, LeadsOn, MayBeLast, Partitions, Topological, DepsAsRecorded, RootFirst;
    ReachTrans(g, root, u, v);
    var e := LastBecomes(g, root, d, v);
    ReachEdge(g, u, w);
    ReachTrans(g, v, u, w);
    if Reach(g, w, v) {
      ReachTrans(g, w, v, u);
    }
    Needed(g, root, e, v, w);
  }

  // ----- Graphs on which every answer is right -----

  /** Some edge of v leads to w or to a node that is in one cycle with w. */
  ghost predicate LeadsInto<Node(!new)>(g: Node -> seq<Node>, v: Node, w: Node) {
    exists x :: x in g(v) && Together(g, x, w)
  }

  /** What one node of a cycle has an edge into, outside the cycle, every node of the cycle has an edge into. */
  ghost predicate SameExits<Node(!new)>(g: Node -> seq<Node>, root: Node) {
    forall u, v, w | Reach(g, root, u) && Together(g, u, v) && w in g(u) && !Reach(g, w, u) :: LeadsInto(g, v, w)
  }

  /** On such a graph hasRequired is right, whichever decomposition is found and wherever the required fields are. */
  lemma SameExitsRight<Node(!new)>(g: Node -> seq<Node>, root: Node, d: DAG<Node>)
    requires Decomposes(g, root, d) && SameExits(g, root)
    ensures AlwaysRight(g, root)
  {
    hide Reach, Decomposes, AlwaysRight;
    forall u, v, w |
      Reach(g, root, u) && Together(g, u, v) && MayBeLast(g, root, v) && w in g(u) && !Reach(g, w, u)
      ensures LeadsOn(g, v, w)
    {
      assert LeadsInto(g, v, w);
      var x :| x in g(v) && Together(g, x, w);
      if Reach(g, x, v) {
        ReachTrans(g, w, x, v);
        ReachTrans(g, w, v, u);
      }
    }
    RightExactly(g, root, d);
  }

  /** So it is in a graph without cycles of two or more nodes. */
  lemma AcyclicRight<Node(!new)>(g: Node -> seq<Node>, root: Node, d: DAG<Node>)
    requires Decomposes(g, root, d)
    requires forall u, v | Reach(g, root, u) && Together(g, u, v) :: u == v
    ensures AlwaysRight(g, root)
  {
    hide Reach, Decomposes, AlwaysRight;
    forall u, v, w | Reach(g, root, u) && Together(g, u, v) && w in g(u) && !Reach(g, w, u)
      ensures LeadsInto(g, v, w)
    {
      ReachSelf(g, w);
      assert w in g(v) && Together(g, w, w);
    }
    SameExitsRight(g, root, d);
  }
}
