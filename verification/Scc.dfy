/**
 Strongly connected components by Tarjan's algorithm (internal/scc/scc.go).

 The recursive search is a class whose methods update the stack, the metadata and the
 DAG under construction. Its state is summarised by the value `State`, over which the
 invariant and the lemmas are stated.
 */
module Scc {
  import opened Graphs

  /** A component: its members in stack order, and the recorded component indices it depends on. */
  datatype Component<Node> = Component(members: seq<Node>, deps: seq<nat>)

  /** The result: the component index of every reached node, and the components in topological order. */
  datatype DAG<Node> = DAG(keys: map<Node, nat>, components: seq<Component<Node>>)

  datatype Metadata = Metadata(index: nat, low: nat, onStack: bool)

  datatype State<Node> = State(
    dag: DAG<Node>,
    index: nat,
    stack: seq<Node>,
    metadata: map<Node, Metadata>)

  // ----- What a DAG of components must satisfy -----

  /** Every keyed node is a member of exactly the component its key names, once. */
  ghost predicate Partitions<Node(!new)>(d: DAG<Node>) {
    && (forall v :: v in d.keys ==> d.keys[v] < |d.components| && v in d.components[d.keys[v]].members)
    && (forall c, i :: 0 <= c < |d.components| && 0 <= i < |d.components[c].members| ==>
          d.components[c].members[i] in d.keys && d.keys[d.components[c].members[i]] == c)
    && (forall c :: 0 <= c < |d.components| ==> d.components[c].members != [] && Distinct(d.components[c].members))
  }

  ghost predicate Distinct<T>(s: seq<T>) {
    forall i, j :: 0 <= i < j < |s| ==> s[i] != s[j]
  }

  /** Edges stay inside the keyed nodes and never lead to a later component. */
  ghost predicate Topological<Node(!new)>(g: Node -> seq<Node>, d: DAG<Node>) {
    forall u, v :: u in d.keys && v in g(u) ==> v in d.keys && d.keys[v] <= d.keys[u]
  }

  /** Members of one component reach each other. */
  ghost predicate Connected<Node(!new)>(g: Node -> seq<Node>, d: DAG<Node>) {
    forall u, v :: u in d.keys && v in d.keys && d.keys[u] == d.keys[v] ==> Reach(g, u, v)
  }

  /** The earlier components that u has an edge into. */
  ghost function EarlierTargets<Node>(g: Node -> seq<Node>, keys: map<Node, nat>, u: Node, c: nat): set<nat> {
    set v | v in g(u) && v in keys && keys[v] < c :: keys[v]
  }

  /** r lists s in increasing order. */
  ghost predicate Lists(r: seq<nat>, s: set<nat>) {
    && (forall i, j :: 0 <= i < j < |r| ==> r[i] < r[j])
    && (forall x :: x in r <==> x in s)
  }

  /** What scc.go records as `deps`: the earlier targets of the component's last member. */
  ghost predicate DepsAsRecorded<Node(!new)>(g: Node -> seq<Node>, d: DAG<Node>) {
    forall c :: 0 <= c < |d.components| && d.components[c].members != [] ==>
      Lists(d.components[c].deps, EarlierTargets(g, d.keys, Last(d.components[c].members), c))
  }

  function Last<T>(s: seq<T>): T
    requires s != []
  {
    s[|s| - 1]
  }

  ghost predicate DagOk<Node(!new)>(g: Node -> seq<Node>, d: DAG<Node>) {
    Partitions(d) && Topological(g, d) && Connected(g, d) && DepsAsRecorded(g, d)
  }

  // ----- The invariant of the search -----

  type Meta<!Node> = map<Node, Metadata>

  ghost predicate OnStack<Node>(m: Meta<Node>, v: Node) {
    v in m && m[v].onStack
  }

  /** Visited nodes carry different numbers below n. */
  ghost predicate Numbered<Node(!new)>(m: Meta<Node>, n: nat) {
    && (forall v :: v in m ==> m[v].index < n)
    && (forall u, v :: u in m && v in m && m[u].index == m[v].index ==> u == v)
  }

  /** The stack lists the nodes marked onStack, in the order of their numbers. */
  ghost predicate StackSorted<Node(!new)>(stack: seq<Node>, m: Meta<Node>) {
    && (forall i :: 0 <= i < |stack| ==> OnStack(m, stack[i]))
    && (forall v :: OnStack(m, v) ==> v in stack)
    && (forall i, j :: 0 <= i < j < |stack| ==> m[stack[i]].index < m[stack[j]].index)
  }

  ghost predicate KeysAreDone<Node(!new)>(keys: map<Node, nat>, m: Meta<Node>) {
    forall v :: v in keys <==> v in m && !m[v].onStack
  }

  /** Stack nodes reach the stack nodes above them. */
  ghost predicate Chain<Node(!new)>(g: Node -> seq<Node>, m: Meta<Node>) {
    forall u, v :: OnStack(m, u) && OnStack(m, v) && m[u].index <= m[v].index ==> Reach(g, u, v)
  }

  /** Active nodes, those whose call to Rec has not returned, are on the stack. */
  ghost predicate ActiveOnStack<Node(!new)>(m: Meta<Node>, active: set<Node>) {
    forall a :: a in active ==> OnStack(m, a)
  }

  /** Every edge of a node whose call has returned leads to a visited node. */
  ghost predicate Explored<Node(!new)>(g: Node -> seq<Node>, m: Meta<Node>, active: set<Node>) {
    forall u, v :: u in m && u !in active && v in g(u) ==> v in m
  }

  /** Stack node y reaches the active node a at or below it on the stack. */
  ghost predicate AnchoredAt<Node(!new)>(g: Node -> seq<Node>, m: Meta<Node>, active: set<Node>, y: Node, a: Node) {
    a in active && OnStack(m, a) && OnStack(m, y) && m[a].index <= m[y].index && Reach(g, y, a)
  }

  ghost predicate Anchored<Node(!new)>(g: Node -> seq<Node>, m: Meta<Node>, active: set<Node>) {
    forall y :: OnStack(m, y) ==> exists a :: AnchoredAt(g, m, active, y, a)
  }

  ghost predicate Inv<Node(!new)>(g: Node -> seq<Node>, s: State<Node>, active: set<Node>) {
    && Numbered(s.metadata, s.index)
    && StackSorted(s.stack, s.metadata)
    && KeysAreDone(s.dag.keys, s.metadata)
    && Chain(g, s.metadata)
    && ActiveOnStack(s.metadata, active)
    && Explored(g, s.metadata, active)
    && Anchored(g, s.metadata, active)
    && DagOk(g, s.dag)
  }

  /** n extends m: nothing recorded in m changes, and new nodes are numbered from `index`. */
  ghost predicate Extends<Node(!new)>(m: Meta<Node>, n: Meta<Node>, index: nat) {
    && (forall v :: v in m ==> v in n && n[v] == m[v])
    && (forall v :: v in n && v !in m ==> n[v].index >= index)
  }

  /** e extends d: nothing recorded in d changes. */
  ghost predicate DagExtends<Node(!new)>(d: DAG<Node>, e: DAG<Node>) {
    && (forall v :: v in d.keys ==> v in e.keys && e.keys[v] == d.keys[v])
    && d.components <= e.components
  }

  /** Stack edges from numbers at or above `from` to numbers below `base` lead to number `low` or higher. */
  ghost predicate LowBounds<Node(!new)>(g: Node -> seq<Node>, m: Meta<Node>, base: nat, from: nat, low: nat) {
    forall u, w :: OnStack(m, u) && OnStack(m, w) && m[w].index < base && from <= m[u].index && w in g(u) ==>
      low <= m[w].index
  }

  /** Node x reaches the stack node numbered low. */
  ghost predicate LowReached<Node(!new)>(g: Node -> seq<Node>, m: Meta<Node>, x: Node, low: nat) {
    exists y :: OnStack(m, y) && m[y].index == low && Reach(g, x, y)
  }

  ghost predicate NewReachable<Node(!new)>(g: Node -> seq<Node>, m0: Meta<Node>, m: Meta<Node>, x: Node) {
    forall v :: v in m && v !in m0 ==> Reach(g, x, v)
  }

  /** What a call Rec(x) from state s that ends in t with result r guarantees. */
  ghost predicate Visited<Node(!new)>(g: Node -> seq<Node>, s: State<Node>, t: State<Node>, x: Node, r: Metadata) {
    && Extends(s.metadata, t.metadata, s.index) && DagExtends(s.dag, t.dag)
    && s.stack <= t.stack && s.index <= t.index
    && x in t.metadata && t.metadata[x] == r
    && r.low <= r.index && r.index == s.index
    && NewReachable(g, s.metadata, t.metadata, x)
    && LowBounds(g, t.metadata, s.index, s.index, r.low)
    && (r.low < r.index ==> LowReached(g, t.metadata, x, r.low))
  }

  /** The state inside Rec(x): s extends the state s0 at entry, and x sits on top of s0's stack. */
  ghost predicate Searching<Node(!new)>(g: Node -> seq<Node>, s0: State<Node>, s: State<Node>, x: Node) {
    && x !in s0.metadata && OnStack(s.metadata, x)
    && Extends(s0.metadata, s.metadata, s0.index) && DagExtends(s0.dag, s.dag)
    && s0.stack + [x] <= s.stack && s0.index < s.index
    && s.metadata[x].low <= s.metadata[x].index == s0.index
    && NewReachable(g, s0.metadata, s.metadata, x)
    && LowBounds(g, s.metadata, s0.index, s0.index + 1, s.metadata[x].low)
    && LowReached(g, s.metadata, x, s.metadata[x].low)
  }

  // ----- Entering Rec -----

  function Entered<Node>(s: State<Node>, x: Node): State<Node> {
    s.(index := s.index + 1,
       stack := s.stack + [x],
       metadata := s.metadata[x := Metadata(s.index, s.index, true)])
  }

  lemma EnterChain<Node(!new)>(g: Node -> seq<Node>, m: Meta<Node>, index: nat, x: Node, active: set<Node>)
    requires Chain(g, m) && Anchored(g, m, active)
    requires x !in m && forall a :: a in active ==> Reach(g, a, x)
    requires forall v :: v in m ==> m[v].index < index
    ensures var n := m[x := Metadata(index, index, true)];
            Chain(g, n) && Anchored(g, n, active + {x})
  {
    var n := m[x := Metadata(index, index, true)];
    hide Reach;
    ReachSelf(g, x);
    assert AnchoredAt(g, n, active + {x}, x, x);
    forall u | OnStack(m, u)
      ensures Reach(g, u, x) && exists a :: AnchoredAt(g, n, active + {x}, u, a)
    {
      var a :| AnchoredAt(g, m, active, u, a);
      ReachTrans(g, u, a, x);
      assert AnchoredAt(g, n, active + {x}, u, a);
    }
  }

  lemma EnterStack<Node(!new)>(stack: seq<Node>, m: Meta<Node>, index: nat, x: Node)
    requires StackSorted(stack, m) && Numbered(m, index) && x !in m
    ensures var n := m[x := Metadata(index, index, true)];
            StackSorted(stack + [x], n) && Numbered(n, index + 1)
  {
    var n := m[x := Metadata(index, index, true)];
    forall v | OnStack(n, v)
      ensures v in stack + [x]
    {
      assert v != x ==> OnStack(m, v);
    }
  }

  lemma Enter<Node(!new)>(g: Node -> seq<Node>, s: State<Node>, x: Node, active: set<Node>)
    requires Inv(g, s, active) && x !in s.metadata
    requires forall a :: a in active ==> Reach(g, a, x)
    ensures Inv(g, Entered(s, x), active + {x}) && Searching(g, s, Entered(s, x), x)
  {
    hide Reach, Chain, Anchored, StackSorted, DagOk;
    var t := Entered(s, x);
    EnterStack(s.stack, s.metadata, s.index, x);
    EnterChain(g, s.metadata, s.index, x, active);
    ReachSelf(g, x);
    assert OnStack(t.metadata, x) && t.metadata[x].index == s.index;
  }

  // ----- Lowering -----

  function Min(a: nat, b: nat): nat {
    if a < b then a else b
  }

  function Lowered<Node>(s: State<Node>, x: Node, low: nat): State<Node>
    requires x in s.metadata
  {
    s.(metadata := s.metadata[x := s.metadata[x].(low := Min(s.metadata[x].low, low))])
  }

  lemma LowerAnchored<Node(!new)>(g: Node -> seq<Node>, m: Meta<Node>, n: Meta<Node>, active: set<Node>)
    requires Anchored(g, m, active)
    requires m.Keys == n.Keys && forall v :: v in m ==> m[v].index == n[v].index && m[v].onStack == n[v].onStack
    ensures Anchored(g, n, active)
  {
    hide Reach;
    forall y | OnStack(n, y)
      ensures exists a :: AnchoredAt(g, n, active, y, a)
    {
      assert OnStack(m, y);
      var a :| AnchoredAt(g, m, active, y, a);
      assert AnchoredAt(g, n, active, y, a);
    }
  }

  lemma LowerStack<Node(!new)>(stack: seq<Node>, m: Meta<Node>, n: Meta<Node>, index: nat)
    requires StackSorted(stack, m) && Numbered(m, index)
    requires m.Keys == n.Keys && forall v :: v in m ==> m[v].index == n[v].index && m[v].onStack == n[v].onStack
    ensures StackSorted(stack, n) && Numbered(n, index)
  {
    forall v | OnStack(n, v)
      ensures v in stack
    {
      assert OnStack(m, v);
    }
  }

  lemma LowerKeepsInv<Node(!new)>(g: Node -> seq<Node>, s: State<Node>, x: Node, low: nat, active: set<Node>)
    requires Inv(g, s, active) && x in s.metadata
    ensures Inv(g, Lowered(s, x, low), active)
  {
    hide Reach, Anchored, StackSorted, Numbered, DagOk;
    var t := Lowered(s, x, low);
    LowerAnchored(g, s.metadata, t.metadata, active);
    LowerStack(s.stack, s.metadata, t.metadata, s.index);
    assert forall v :: OnStack(t.metadata, v) ==> OnStack(s.metadata, v);
  }

  lemma AfterCallLow<Node(!new)>(g: Node -> seq<Node>, s0: State<Node>, s1: State<Node>, s2: State<Node>, x: Node,
                                 dep: Node, r: Metadata)
    requires Searching(g, s0, s1, x) && dep in g(x)
    requires Numbered(s1.metadata, s1.index)
    requires Visited(g, s1, s2, dep, r)
    ensures var low := Min(s1.metadata[x].low, r.low);
            LowBounds(g, s2.metadata, s0.index, s0.index + 1, low) && LowReached(g, s2.metadata, x, low)
  {
    hide Reach;
    var m, n := s1.metadata, s2.metadata;
    ReachEdge(g, x, dep);
    if r.low < m[x].low {
      var y :| OnStack(n, y) && n[y].index == r.low && Reach(g, dep, y);
      ReachTrans(g, x, dep, y);
    } else {
      var y :| OnStack(m, y) && m[y].index == m[x].low && Reach(g, x, y);
      assert OnStack(n, y);
    }
    forall u, w | OnStack(n, u) && OnStack(n, w) && n[w].index < s0.index && s0.index + 1 <= n[u].index && w in g(u)
      ensures Min(m[x].low, r.low) <= n[w].index
    {
      assert OnStack(m, w);
      if u in m {
        assert OnStack(m, u);
      }
    }
  }

  lemma AfterCall<Node(!new)>(g: Node -> seq<Node>, s0: State<Node>, s1: State<Node>, s2: State<Node>,
                              x: Node, dep: Node, r: Metadata, active: set<Node>)
    requires Inv(g, s1, active + {x}) && Searching(g, s0, s1, x) && dep in g(x)
    requires Inv(g, s2, active + {x}) && Visited(g, s1, s2, dep, r)
    ensures Inv(g, Lowered(s2, x, r.low), active + {x}) && Searching(g, s0, Lowered(s2, x, r.low), x)
  {
    AfterCallLow(g, s0, s1, s2, x, dep, r);
    LowerKeepsInv(g, s2, x, r.low, active + {x});
    AfterCallSearching(g, s0, s1, s2, x, dep, r);
  }

  lemma AfterCallSearching<Node(!new)>(g: Node -> seq<Node>, s0: State<Node>, s1: State<Node>, s2: State<Node>,
                                       x: Node, dep: Node, r: Metadata)
    requires Searching(g, s0, s1, x) && dep in g(x)
    requires Visited(g, s1, s2, dep, r)
    requires var low := Min(s1.metadata[x].low, r.low);
             LowBounds(g, s2.metadata, s0.index, s0.index + 1, low) && LowReached(g, s2.metadata, x, low)
    ensures Searching(g, s0, Lowered(s2, x, r.low), x)
  {
    hide Reach, LowBounds, LowReached, Extends, DagExtends;
    var low := Min(s1.metadata[x].low, r.low);
    ExtendsMore(s0, s1, s2, x, low);
    var t := Lowered(s2, x, r.low);
    ReachEdge(g, x, dep);
    forall v | v in t.metadata && v !in s0.metadata
      ensures Reach(g, x, v)
    {
      if v !in s1.metadata {
        ReachTrans(g, x, dep, v);
      }
    }
    LowerLow(g, s2.metadata, x, s0.index, low);
  }

  lemma ExtendsMore<Node(!new)>(s0: State<Node>, s1: State<Node>, s2: State<Node>, x: Node, low: nat)
    requires Extends(s0.metadata, s1.metadata, s0.index) && DagExtends(s0.dag, s1.dag)
    requires Extends(s1.metadata, s2.metadata, s1.index) && DagExtends(s1.dag, s2.dag)
    requires x !in s0.metadata && x in s1.metadata && s0.index <= s1.index
    ensures x in s2.metadata && s2.metadata[x] == s1.metadata[x]
    ensures Extends(s0.metadata, s2.metadata[x := s2.metadata[x].(low := low)], s0.index) && DagExtends(s0.dag, s2.dag)
  {
  }

  /** LowBounds and LowReached do not read the `low` fields. */
  lemma LowerLow<Node(!new)>(g: Node -> seq<Node>, m: Meta<Node>, x: Node, base: nat, low: nat)
    requires x in m
    requires LowBounds(g, m, base, base + 1, low) && LowReached(g, m, x, low)
    ensures var n := m[x := m[x].(low := low)];
            LowBounds(g, n, base, base + 1, low) && LowReached(g, n, x, low)
  {
    hide Reach;
    var n := m[x := m[x].(low := low)];
    assert forall v :: OnStack(n, v) <==> OnStack(m, v);
    var y :| OnStack(m, y) && m[y].index == low && Reach(g, x, y);
    assert OnStack(n, y);
  }

  lemma AfterBackEdge<Node(!new)>(g: Node -> seq<Node>, s0: State<Node>, s: State<Node>, x: Node, dep: Node,
                                  active: set<Node>)
    requires Inv(g, s, active + {x}) && Searching(g, s0, s, x) && dep in g(x) && OnStack(s.metadata, dep)
    ensures var t := Lowered(s, x, s.metadata[dep].index);
            Inv(g, t, active + {x}) && Searching(g, s0, t, x)
  {
    LowerKeepsInv(g, s, x, s.metadata[dep].index, active + {x});
    AfterBackEdgeSearching(g, s0, s, x, dep);
  }

  lemma AfterBackEdgeSearching<Node(!new)>(g: Node -> seq<Node>, s0: State<Node>, s: State<Node>, x: Node, dep: Node)
    requires Searching(g, s0, s, x) && dep in g(x) && OnStack(s.metadata, dep)
    ensures Searching(g, s0, Lowered(s, x, s.metadata[dep].index), x)
  {
    hide Reach;
    ReachEdge(g, x, dep);
    var m := s.metadata;
    var low := Min(m[x].low, m[dep].index);
    assert LowReached(g, m, x, low) by {
      if low == m[dep].index {
        assert OnStack(m, dep) && Reach(g, x, dep);
      }
    }
    LowerLow(g, m, x, s0.index, low);
  }

  // ----- Leaving Rec with x still on the stack -----

  /** All edges of x have been followed. */
  ghost predicate EdgesDone<Node(!new)>(g: Node -> seq<Node>, s0: State<Node>, s: State<Node>, x: Node)
    requires x in s.metadata
  {
    forall v :: v in g(x) ==> v in s.metadata && (OnStack(s0.metadata, v) ==> s.metadata[x].low <= s.metadata[v].index)
  }

  /** With the edges of x followed, the bound extends to x itself. */
  lemma LowBoundsComplete<Node(!new)>(g: Node -> seq<Node>, s0: State<Node>, s: State<Node>, x: Node)
    requires Numbered(s.metadata, s.index) && Searching(g, s0, s, x) && EdgesDone(g, s0, s, x)
    ensures LowBounds(g, s.metadata, s0.index, s0.index, s.metadata[x].low)
  {
    hide Reach;
    var m := s.metadata;
    forall u, w | OnStack(m, u) && OnStack(m, w) && m[w].index < s0.index && s0.index <= m[u].index && w in g(u)
      ensures m[x].low <= m[w].index
    {
      if m[u].index == s0.index {
        assert u == x && OnStack(s0.metadata, w);
      }
    }
  }

  lemma LeaveAnchored<Node(!new)>(g: Node -> seq<Node>, m: Meta<Node>, x: Node, active: set<Node>)
    requires Anchored(g, m, active + {x}) && x in m
    requires m[x].low < m[x].index && LowReached(g, m, x, m[x].low)
    ensures Anchored(g, m, active)
  {
    hide Reach;
    var w :| OnStack(m, w) && m[w].index == m[x].low && Reach(g, x, w);
    var b :| AnchoredAt(g, m, active + {x}, w, b);
    ReachTrans(g, x, w, b);
    forall y | OnStack(m, y)
      ensures exists a :: AnchoredAt(g, m, active, y, a)
    {
      var a :| AnchoredAt(g, m, active + {x}, y, a);
      if a == x {
        ReachTrans(g, y, x, b);
        assert AnchoredAt(g, m, active, y, b);
      } else {
        assert AnchoredAt(g, m, active, y, a);
      }
    }
  }

  lemma LeaveOnStack<Node(!new)>(g: Node -> seq<Node>, s0: State<Node>, s: State<Node>, x: Node, active: set<Node>)
    requires Inv(g, s, active + {x}) && Searching(g, s0, s, x) && EdgesDone(g, s0, s, x)
    requires s.metadata[x].low < s.metadata[x].index
    ensures Inv(g, s, active) && Visited(g, s0, s, x, s.metadata[x])
  {
    hide Reach, LowReached, LowBounds, Anchored, Chain, StackSorted, DagOk;
    LowBoundsComplete(g, s0, s, x);
    LeaveAnchored(g, s.metadata, x, active);
  }

  // ----- Leaving Rec by emitting the component of x -----

  /** The nodes already emitted together with those on the stack numbered from `base`. */
  ghost function Finished<Node>(s: State<Node>, base: nat): set<Node> {
    set v | v in s.metadata && (s.metadata[v].onStack ==> base <= s.metadata[v].index)
  }

  /** If x keeps its own number as its low, no edge leaves what would be emitted. */
  lemma RootIsClosed<Node(!new)>(g: Node -> seq<Node>, s: State<Node>, base: nat, x: Node, active: set<Node>)
    requires Explored(g, s.metadata, active + {x}) && Topological(g, s.dag) && KeysAreDone(s.dag.keys, s.metadata)
    requires forall v :: v in g(x) ==> v in s.metadata
    requires forall a :: a in active ==> OnStack(s.metadata, a) && s.metadata[a].index < base
    requires LowBounds(g, s.metadata, base, base, base)
    ensures Closed(g, Finished(s, base))
  {
    var m := s.metadata;
    forall u, v | u in Finished(s, base) && v in g(u)
      ensures v in Finished(s, base)
    {
      if u in s.dag.keys {
        assert v in s.dag.keys;
      } else {
        assert OnStack(m, u) && u !in active;
        assert v in m;
        if OnStack(m, v) && m[v].index < base {
          assert false;
        }
      }
    }
  }

  lemma MemberReachesRoot<Node(!new)>(g: Node -> seq<Node>, s: State<Node>, base: nat, x: Node, active: set<Node>,
                                      y: Node)
    requires Closed(g, Finished(s, base)) && Anchored(g, s.metadata, active + {x})
    requires forall a :: a in active ==> OnStack(s.metadata, a) && s.metadata[a].index < base
    requires OnStack(s.metadata, y) && base <= s.metadata[y].index
    ensures Reach(g, y, x)
  {
    hide Reach;
    var a :| AnchoredAt(g, s.metadata, active + {x}, y, a);
    if a != x {
      assert y in Finished(s, base);
      ClosedContainsReach(g, Finished(s, base), y, a);
      assert false;
    }
  }

  /** State s with its stack cut at `offset` and the cut part emitted as one component. */
  ghost function Emitted<Node>(s: State<Node>, offset: nat, deps: seq<nat>): State<Node>
    requires offset <= |s.stack|
  {
    var members := s.stack[offset..];
    State(
      DAG(EmittedKeys(s.dag, members), s.dag.components + [Component(members, deps)]),
      s.index,
      s.stack[..offset],
      EmittedMeta(s.metadata, members))
  }

  ghost function EmittedKeys<Node>(d: DAG<Node>, members: seq<Node>): map<Node, nat> {
    d.keys + map v | v in members :: |d.components|
  }

  ghost function EmittedMeta<Node>(m: Meta<Node>, members: seq<Node>): Meta<Node> {
    map v | v in m :: if v in members then m[v].(onStack := false) else m[v]
  }

  /** What Emit finds on the stack: distinct, unkeyed nodes that reach each other, with no edge leaving keyed nodes. */
  ghost predicate IsComponent<Node(!new)>(g: Node -> seq<Node>, d: DAG<Node>, members: seq<Node>) {
    && members != [] && Distinct(members)
    && (forall v :: v in members ==> v !in d.keys)
    && (forall u, v :: u in members && v in g(u) ==> v in members || v in d.keys)
    && (forall u, v :: u in members && v in members ==> Reach(g, u, v))
  }

  ghost function WithComponent<Node>(d: DAG<Node>, members: seq<Node>, deps: seq<nat>): DAG<Node> {
    DAG(EmittedKeys(d, members), d.components + [Component(members, deps)])
  }

  lemma EmitPartitions<Node(!new)>(g: Node -> seq<Node>, d: DAG<Node>, members: seq<Node>, deps: seq<nat>)
    requires Partitions(d) && IsComponent(g, d, members)
    ensures Partitions(WithComponent(d, members, deps))
  {
    hide Reach;
    var e := WithComponent(d, members, deps);
    forall v | v in e.keys
      ensures e.keys[v] < |e.components| && v in e.components[e.keys[v]].members
    {
    }
    forall c, i | 0 <= c < |e.components| && 0 <= i < |e.components[c].members|
      ensures e.components[c].members[i] in e.keys && e.keys[e.components[c].members[i]] == c
    {
      if c < |d.components| {
        assert e.components[c] == d.components[c];
        assert d.components[c].members[i] in d.keys;
      }
    }
  }

  lemma EmitDeps<Node(!new)>(g: Node -> seq<Node>, d: DAG<Node>, members: seq<Node>, deps: seq<nat>)
    requires Partitions(d) && Topological(g, d) && DepsAsRecorded(g, d) && IsComponent(g, d, members)
    requires Lists(deps, EarlierTargets(g, EmittedKeys(d, members), Last(members), |d.components|))
    ensures DepsAsRecorded(g, WithComponent(d, members, deps))
  {
    hide Reach, Lists, EarlierTargets, EmittedKeys, Topological, Last;
    var e := WithComponent(d, members, deps);
    forall c | 0 <= c < |e.components| && e.components[c].members != []
      ensures Lists(e.components[c].deps, EarlierTargets(g, e.keys, Last(e.components[c].members), c))
    {
      if c < |d.components| {
        assert e.components[c] == d.components[c];
        LastKeyed(d, c);
        TargetsStay(g, d, members, Last(d.components[c].members), c);
      }
    }
  }

  lemma LastKeyed<Node(!new)>(d: DAG<Node>, c: nat)
    requires Partitions(d) && c < |d.components|
    ensures d.components[c].members != [] && Last(d.components[c].members) in d.keys
  {
    assert d.components[c].members[|d.components[c].members| - 1] in d.keys;
  }

  /** The earlier targets of a node that was emitted before do not change. */
  lemma TargetsStay<Node(!new)>(g: Node -> seq<Node>, d: DAG<Node>, members: seq<Node>, u: Node, c: nat)
    requires Topological(g, d) && IsComponent(g, d, members) && u in d.keys && c <= |d.components|
    ensures EarlierTargets(g, EmittedKeys(d, members), u, c) == EarlierTargets(g, d.keys, u, c)
  {
    hide Reach;
  }

  lemma EmitKeepsDagOk<Node(!new)>(g: Node -> seq<Node>, d: DAG<Node>, members: seq<Node>, deps: seq<nat>)
    requires DagOk(g, d) && IsComponent(g, d, members)
    requires Lists(deps, EarlierTargets(g, EmittedKeys(d, members), Last(members), |d.components|))
    ensures DagOk(g, WithComponent(d, members, deps))
  {
    EmitPartitions(g, d, members, deps);
    EmitDeps(g, d, members, deps);
    EmitTopological(g, d, members, deps);
    EmitConnected(g, d, members, deps);
  }

  lemma EmitTopological<Node(!new)>(g: Node -> seq<Node>, d: DAG<Node>, members: seq<Node>, deps: seq<nat>)
    requires Partitions(d) && Topological(g, d) && IsComponent(g, d, members)
    ensures Topological(g, WithComponent(d, members, deps))
  {
    hide Reach;
    var e := WithComponent(d, members, deps);
    forall u, v | u in e.keys && v in g(u)
      ensures v in e.keys && e.keys[v] <= e.keys[u]
    {
      if u in d.keys {
        assert v in d.keys;
      }
      assert v !in members ==> d.keys[v] < |d.components|;
    }
  }

  lemma EmitConnected<Node(!new)>(g: Node -> seq<Node>, d: DAG<Node>, members: seq<Node>, deps: seq<nat>)
    requires Partitions(d) && Connected(g, d) && IsComponent(g, d, members)
    ensures Connected(g, WithComponent(d, members, deps))
  {
    hide Reach;
    var e := WithComponent(d, members, deps);
    forall u, v | u in e.keys && v in e.keys && e.keys[u] == e.keys[v]
      ensures Reach(g, u, v)
    {
      if u in members {
        if v !in members {
          assert false;
        }
      } else {
        assert d.keys[u] < |d.components|;
      }
    }
  }

  /** The part of the stack at or above x is the set of stack nodes numbered from x. */
  lemma UpperStack<Node(!new)>(stack: seq<Node>, m: Meta<Node>, offset: nat, v: Node)
    requires StackSorted(stack, m) && offset < |stack|
    ensures v in stack[offset..] <==> OnStack(m, v) && m[stack[offset]].index <= m[v].index
    ensures v in stack[..offset] <==> OnStack(m, v) && m[v].index < m[stack[offset]].index
  {
    if OnStack(m, v) {
      var i :| 0 <= i < |stack| && stack[i] == v;
      if i < offset {
        assert stack[..offset][i] == v;
      } else {
        assert stack[offset..][i - offset] == v;
      }
    }
    if v in stack[offset..] {
      var i :| 0 <= i < |stack| - offset && stack[offset..][i] == v;
      assert stack[offset + i] == v;
    }
  }

  lemma RootComponent<Node(!new)>(g: Node -> seq<Node>, s0: State<Node>, s: State<Node>, x: Node, active: set<Node>)
    requires ActiveOnStack(s0.metadata, active) && Numbered(s0.metadata, s0.index)
    requires Inv(g, s, active + {x}) && Searching(g, s0, s, x) && EdgesDone(g, s0, s, x)
    requires s.metadata[x].low == s.metadata[x].index
    ensures s.stack[|s0.stack|] == x && IsComponent(g, s.dag, s.stack[|s0.stack|..])
  {
    hide Reach, StackSorted, Anchored, DagOk, Numbered, LowBounds, LowReached;
    var m, base, offset := s.metadata, s0.index, |s0.stack|;
    var members := s.stack[offset..];
    LowBoundsComplete(g, s0, s, x);
    assert s.stack[offset] == (s0.stack + [x])[offset] == x;
    forall v
      ensures v in members <==> OnStack(m, v) && base <= m[v].index
    {
      UpperStack(s.stack, m, offset, v);
    }
    ActiveBelow(s0, s, active);
    TopologicalPart(g, s.dag);
    RootIsClosed(g, s, base, x, active);
    forall u, v | u in members && v in g(u)
      ensures v in members || v in s.dag.keys
    {
      assert u in Finished(s, base) && v in Finished(s, base);
    }
    forall u, v | u in members && v in members
      ensures Reach(g, u, v)
    {
      MemberReachesRoot(g, s, base, x, active, u);
      ReachTrans(g, u, x, v);
    }
    SortedIsDistinct(s.stack, m, offset);
    assert members[0] == x;
  }

  lemma TopologicalPart<Node(!new)>(g: Node -> seq<Node>, d: DAG<Node>)
    requires DagOk(g, d)
    ensures Topological(g, d)
  {
  }

  lemma ActiveBelow<Node(!new)>(s0: State<Node>, s: State<Node>, active: set<Node>)
    requires ActiveOnStack(s0.metadata, active) && Numbered(s0.metadata, s0.index)
    requires Extends(s0.metadata, s.metadata, s0.index)
    ensures forall a :: a in active ==> OnStack(s.metadata, a) && s.metadata[a].index < s0.index
  {
    forall a | a in active
      ensures OnStack(s.metadata, a) && s.metadata[a].index < s0.index
    {
      assert OnStack(s0.metadata, a);
    }
  }

  lemma SortedIsDistinct<Node(!new)>(stack: seq<Node>, m: Meta<Node>, offset: nat)
    requires StackSorted(stack, m) && offset <= |stack|
    ensures Distinct(stack[offset..])
  {
  }

  /** n is m with everything on the stack numbered from `base` taken off it. */
  ghost predicate Cut<Node(!new)>(m: Meta<Node>, n: Meta<Node>, base: nat) {
    && n.Keys == m.Keys
    && forall v :: v in m ==>
         n[v] == if m[v].onStack && base <= m[v].index then m[v].(onStack := false) else m[v]
  }

  lemma EmittedIsCut<Node(!new)>(s0: State<Node>, s: State<Node>, x: Node)
    requires StackSorted(s.stack, s.metadata)
    requires s0.stack + [x] <= s.stack && x in s.metadata && s.metadata[x].index == s0.index
    ensures s.stack[..|s0.stack|] == s0.stack
    ensures Cut(s.metadata, EmittedMeta(s.metadata, s.stack[|s0.stack|..]), s0.index)
  {
    hide StackSorted;
    var m, offset := s.metadata, |s0.stack|;
    assert s.stack[offset] == (s0.stack + [x])[offset] == x;
    assert s.stack[..offset] == (s0.stack + [x])[..offset] == s0.stack;
    forall v | v in m
      ensures v in s.stack[offset..] <==> OnStack(m, v) && s0.index <= m[v].index
    {
      UpperStack(s.stack, m, offset, v);
    }
  }

  /** Cutting back to the numbers of m0 restores the marks of m0. */
  lemma CutRestores<Node(!new)>(m0: Meta<Node>, m: Meta<Node>, n: Meta<Node>, base: nat, index: nat)
    requires Cut(m, n, base) && Extends(m0, m, base)
    requires Numbered(m0, base) && Numbered(m, index)
    ensures Extends(m0, n, base) && Numbered(n, index)
    ensures forall v :: OnStack(n, v) <==> OnStack(m0, v)
  {
  }

  lemma StackRestored<Node(!new)>(stack: seq<Node>, m0: Meta<Node>, n: Meta<Node>, base: nat)
    requires StackSorted(stack, m0) && Extends(m0, n, base)
    requires forall v :: OnStack(n, v) <==> OnStack(m0, v)
    ensures StackSorted(stack, n)
  {
    assert forall i :: 0 <= i < |stack| ==> OnStack(m0, stack[i]);
    assert forall v :: OnStack(n, v) ==> v in stack;
  }

  lemma EmittedAnchored<Node(!new)>(g: Node -> seq<Node>, m: Meta<Node>, n: Meta<Node>, index: nat, active: set<Node>,
                                    y: Node)
    requires Anchored(g, m, active) && OnStack(m, y)
    requires Extends(m, n, index) && forall v :: OnStack(n, v) <==> OnStack(m, v)
    ensures exists a :: AnchoredAt(g, n, active, y, a)
  {
    hide Reach;
    var a :| AnchoredAt(g, m, active, y, a);
    assert AnchoredAt(g, n, active, y, a);
  }

  lemma EmittedChain<Node(!new)>(g: Node -> seq<Node>, m: Meta<Node>, n: Meta<Node>, index: nat, active: set<Node>)
    requires Chain(g, m) && ActiveOnStack(m, active)
    requires Extends(m, n, index) && forall v :: OnStack(n, v) <==> OnStack(m, v)
    ensures Chain(g, n) && ActiveOnStack(n, active)
  {
    hide Reach;
    forall u, v | OnStack(n, u) && OnStack(n, v) && n[u].index <= n[v].index
      ensures Reach(g, u, v)
    {
      assert OnStack(m, u) && OnStack(m, v) && m[u].index <= m[v].index;
    }
  }

  lemma LeaveEmitted<Node(!new)>(g: Node -> seq<Node>, s0: State<Node>, s: State<Node>, x: Node, active: set<Node>,
                                 deps: seq<nat>)
    requires |s0.stack| < |s.stack| && x in s.metadata && s.metadata[x].low == s.metadata[x].index
    requires Lists(deps,
             EarlierTargets(g, EmittedKeys(s.dag, s.stack[|s0.stack|..]), Last(s.stack[|s0.stack|..]),
             |s.dag.components|))
    requires Searching(g, s0, s, x) && EdgesDone(g, s0, s, x)
    requires Inv(g, s, active + {x})
    requires Inv(g, s0, active)
    ensures Inv(g, Emitted(s, |s0.stack|, deps), active)
    ensures Visited(g, s0, Emitted(s, |s0.stack|, deps), x, s.metadata[x].(onStack := false))
    ensures RootFirst(Emitted(s, |s0.stack|, deps).dag, x)
  {
    hide Reach, StackSorted, Numbered, KeysAreDone, ActiveOnStack, Anchored, Chain, DagOk, Lists, EdgesDone;
    hide IsComponent, Cut, Explored, LowReached, LowBounds, NewReachable, EmittedMeta, EmittedKeys, OnStack, Extends;
    var members := s.stack[|s0.stack|..];
    RootComponent(g, s0, s, x, active);
    ComponentParts(g, s.dag, members);
    assert s.stack[|s0.stack|] == members[0] == x;
    EmittedIsCut(s0, s, x);
    hide RootFirst;
    StackVisited(s.stack, s.metadata, |s0.stack|);
    EdgesDoneVisits(g, s0, s, x);
    CutRestores(s0.metadata, s.metadata, EmittedMeta(s.metadata, members), s0.index, s.index);
    EmittedInv(g, s0, s, x, active, deps);
    EmittedVisited(g, s0, s, x, members, deps);
    EmittedRootFirst(s, x, |s0.stack|, deps);
  }

  lemma EdgesDoneVisits<Node(!new)>(g: Node -> seq<Node>, s0: State<Node>, s: State<Node>, x: Node)
    requires x in s.metadata && EdgesDone(g, s0, s, x)
    ensures forall v :: v in g(x) ==> v in s.metadata
  {
  }

  lemma EmittedInv<Node(!new)>(g: Node -> seq<Node>, s0: State<Node>, s: State<Node>, x: Node, active: set<Node>,
                               deps: seq<nat>)
    requires |s0.stack| < |s.stack| && s.stack[..|s0.stack|] == s0.stack
    requires Lists(deps,
             EarlierTargets(g, EmittedKeys(s.dag, s.stack[|s0.stack|..]), Last(s.stack[|s0.stack|..]),
             |s.dag.components|))
    requires IsComponent(g, s.dag, s.stack[|s0.stack|..])
    requires forall v :: v in g(x) ==> v in s.metadata
    requires forall v :: v in s.stack[|s0.stack|..] ==> v in s.metadata
    requires Cut(s.metadata, EmittedMeta(s.metadata, s.stack[|s0.stack|..]), s0.index)
    requires Extends(s0.metadata, EmittedMeta(s.metadata, s.stack[|s0.stack|..]), s0.index)
    requires Numbered(EmittedMeta(s.metadata, s.stack[|s0.stack|..]), s.index)
    requires forall v :: OnStack(EmittedMeta(s.metadata, s.stack[|s0.stack|..]), v) <==> OnStack(s0.metadata, v)
    requires Inv(g, s, active + {x}) && Inv(g, s0, active)
    ensures Inv(g, Emitted(s, |s0.stack|, deps), active)
  {
    hide Reach, StackSorted, Numbered, KeysAreDone, ActiveOnStack, Anchored, Chain, DagOk, Lists;
    hide IsComponent, Cut, Explored, EmittedMeta, EmittedKeys, OnStack, Extends;
    var members := s.stack[|s0.stack|..];
    var n := EmittedMeta(s.metadata, members);
    EmitKeepsDagOk(g, s.dag, members, deps);
    StackRestored(s0.stack, s0.metadata, n, s0.index);
    EmittedChain(g, s0.metadata, n, s0.index, active);
    forall y | OnStack(n, y)
      ensures exists a :: AnchoredAt(g, n, active, y, a)
    {
      EmittedAnchored(g, s0.metadata, n, s0.index, active, y);
    }
    AnchoredHolds(g, n, active);
    EmittedKeysDone(s, members);
    CutExplored(g, s, n, x, s0.index, active);
  }

  /** The component of x lists x first. */
  ghost predicate RootFirst<Node(!new)>(d: DAG<Node>, x: Node) {
    && x in d.keys && d.keys[x] < |d.components|
    && d.components[d.keys[x]].members != [] && d.components[d.keys[x]].members[0] == x
  }

  lemma EmittedRootFirst<Node(!new)>(s: State<Node>, x: Node, offset: nat, deps: seq<nat>)
    requires offset < |s.stack| && s.stack[offset] == x
    ensures RootFirst(Emitted(s, offset, deps).dag, x)
  {
    assert x == s.stack[offset..][0];
  }

  lemma AnchoredHolds<Node(!new)>(g: Node -> seq<Node>, m: Meta<Node>, active: set<Node>)
    requires forall y :: OnStack(m, y) ==> exists a :: AnchoredAt(g, m, active, y, a)
    ensures Anchored(g, m, active)
  {
  }

  lemma ComponentParts<Node(!new)>(g: Node -> seq<Node>, d: DAG<Node>, members: seq<Node>)
    requires IsComponent(g, d, members)
    ensures members != [] && forall v :: v in members ==> v !in d.keys
  {
  }

  lemma StackVisited<Node(!new)>(stack: seq<Node>, m: Meta<Node>, offset: nat)
    requires StackSorted(stack, m) && offset <= |stack|
    ensures forall v :: v in stack[offset..] ==> v in m
  {
  }

  lemma CutExplored<Node(!new)>(g: Node -> seq<Node>, s: State<Node>, n: Meta<Node>, x: Node, base: nat,
                                active: set<Node>)
    requires Explored(g, s.metadata, active + {x}) && Cut(s.metadata, n, base)
    requires forall v :: v in g(x) ==> v in s.metadata
    ensures Explored(g, n, active)
  {
  }

  lemma EmittedKeysDone<Node(!new)>(s: State<Node>, members: seq<Node>)
    requires KeysAreDone(s.dag.keys, s.metadata)
    requires forall v :: v in members ==> v in s.metadata
    ensures KeysAreDone(EmittedKeys(s.dag, members), EmittedMeta(s.metadata, members))
  {
  }

  lemma EmittedVisited<Node(!new)>(g: Node -> seq<Node>, s0: State<Node>, s: State<Node>, x: Node, members: seq<Node>,
                                   deps: seq<nat>)
    requires Numbered(s0.metadata, s0.index) && |s0.stack| < |s.stack|
    requires Searching(g, s0, s, x) && members == s.stack[|s0.stack|..] && x in members
    requires s.metadata[x].low == s.metadata[x].index
    requires forall v :: v in members ==> v !in s.dag.keys
    requires var n := EmittedMeta(s.metadata, members);
             Extends(s0.metadata, n, s0.index) && forall v :: OnStack(n, v) <==> OnStack(s0.metadata, v)
    ensures Visited(g, s0, Emitted(s, |s0.stack|, deps), x, s.metadata[x].(onStack := false))
  {
    hide Reach, LowReached;
    var t := Emitted(s, |s0.stack|, deps);
    assert s0.stack <= s.stack[..|s0.stack|];
    assert forall v :: v in t.metadata <==> v in s.metadata;
    assert forall v :: OnStack(t.metadata, v) ==> t.metadata[v].index < s0.index;
  }

  /** The first i edges of x have been followed. */
  ghost predicate Followed<Node(!new)>(m0: Meta<Node>, m: Meta<Node>, x: Node, deps: seq<Node>, i: nat) {
    && x in m && i <= |deps|
    && forall j :: 0 <= j < i ==> deps[j] in m && (OnStack(m0, deps[j]) ==> m[x].low <= m[deps[j]].index)
  }

  lemma FollowedNone<Node(!new)>(m0: Meta<Node>, m: Meta<Node>, x: Node, deps: seq<Node>)
    requires x in m
    ensures Followed(m0, m, x, deps, 0)
  {
  }

  lemma FollowedCall<Node(!new)>(m0: Meta<Node>, m: Meta<Node>, n: Meta<Node>, index: nat, x: Node, deps: seq<Node>,
                                 i: nat, low: nat)
    requires Followed(m0, m, x, deps, i) && x in m && x !in m0 && i < |deps|
    requires Extends(m, n, index) && deps[i] !in m && deps[i] in n
    requires forall v :: v in m0 ==> v in m
    ensures x in n
    ensures Followed(m0, n[x := n[x].(low := Min(n[x].low, low))], x, deps, i + 1)
  {
  }

  lemma FollowedKnown<Node(!new)>(s0: State<Node>, m: Meta<Node>, x: Node, deps: seq<Node>, i: nat)
    requires Followed(s0.metadata, m, x, deps, i) && x !in s0.metadata && i < |deps|
    requires Extends(s0.metadata, m, s0.index) && deps[i] in m
    ensures m[deps[i]].onStack ==>
              Followed(s0.metadata, m[x := m[x].(low := Min(m[x].low, m[deps[i]].index))], x, deps, i + 1)
    ensures !m[deps[i]].onStack ==> Followed(s0.metadata, m, x, deps, i + 1)
  {
  }

  lemma FollowedAll<Node(!new)>(g: Node -> seq<Node>, s0: State<Node>, s: State<Node>, x: Node, deps: seq<Node>)
    requires x in s.metadata && deps == g(x) && Followed(s0.metadata, s.metadata, x, deps, |deps|)
    ensures EdgesDone(g, s0, s, x)
  {
  }

  lemma ReadyToEmit<Node(!new)>(g: Node -> seq<Node>, s0: State<Node>, s: State<Node>, x: Node, active: set<Node>)
    requires |s0.stack| <= |s.stack|
    requires x in s.metadata && s.metadata[x].low == s.metadata[x].index && EdgesDone(g, s0, s, x)
    requires Searching(g, s0, s, x)
    requires Inv(g, s0, active) && Inv(g, s, active + {x})
    ensures |s0.stack| < |s.stack|
    ensures forall v :: v in s.stack[|s0.stack|..] ==> v in s.metadata
  {
    hide Reach, StackSorted, Numbered, KeysAreDone, ActiveOnStack, Anchored, Chain, DagOk, EdgesDone;
    hide IsComponent, Explored, LowReached, LowBounds, NewReachable, OnStack, Extends;
    RootComponent(g, s0, s, x, active);
    ComponentParts(g, s.dag, s.stack[|s0.stack|..]);
    StackVisited(s.stack, s.metadata, |s0.stack|);
  }

  // ----- The search -----

  class Tarjan<Node(==,!new)> {
    const graph: Node -> seq<Node>
    var keys: map<Node, nat>
    var components: seq<Component<Node>>
    var index: nat
    var stack: seq<Node>
    var metadata: map<Node, Metadata>
    var depset: set<nat>

    constructor (graph: Node -> seq<Node>)
      ensures this.graph == graph
      ensures Snap() == State(DAG(map[], []), 0, [], map[]) && depset == {}
    {
      this.graph := graph;
      keys, components, index, stack, metadata, depset := map[], [], 0, [], map[], {};
    }

    ghost function Snap(): State<Node>
      reads this
    {
      State(DAG(keys, components), index, stack, metadata)
    }

    method Rec(node: Node, ghost active: set<Node>, ghost universe: set<Node>) returns (meta: Metadata)
      requires Inv(graph, Snap(), active) && depset == {}
      requires Closed(graph, universe) && metadata.Keys <= universe
      requires node in universe && node !in metadata
      requires forall a :: a in active ==> Reach(graph, a, node)
      modifies this
      ensures Inv(graph, Snap(), active) && depset == {}
      ensures old(metadata.Keys) <= metadata.Keys <= universe
      ensures Visited(graph, old(Snap()), Snap(), node, meta)
      ensures !meta.onStack ==> RootFirst(DAG(keys, components), node)
      decreases universe - metadata.Keys
    {
      hide Inv, Reach, RootFirst, Extends, DagExtends, NewReachable, LowBounds, LowReached, Followed, EdgesDone, Lists;
      hide Emitted;
      ghost var s0 := Snap();
      var offset := |stack|;
      Enter(graph, s0, node, active);
      metadata := metadata[node := Metadata(index, index, true)];
      index := index + 1;
      stack := stack + [node];

      var deps := graph(node);
      FollowedNone(s0.metadata, metadata, node, deps);
      for i := 0 to |deps|
        invariant Inv(graph, Snap(), active + {node}) && Searching(graph, s0, Snap(), node) && depset == {}
        invariant s0.metadata.Keys + {node} <= metadata.Keys <= universe
        invariant Followed(s0.metadata, metadata, node, deps, i)
      {
        var dep := deps[i];
        ghost var s1 := Snap();
        if dep !in metadata {
          ActiveReachDep(graph, node, dep, active);
          var m := Rec(dep, active + {node}, universe);
          FollowedCall(s0.metadata, s1.metadata, metadata, s1.index, node, deps, i, m.low);
          AfterCall(graph, s0, s1, Snap(), node, dep, m, active);
          metadata := metadata[node := metadata[node].(low := Min(metadata[node].low, m.low))];
        } else {
          var m := metadata[dep];
          FollowedKnown(s0, metadata, node, deps, i);
          if m.onStack {
            AfterBackEdge(graph, s0, s1, node, dep, active);
            metadata := metadata[node := metadata[node].(low := Min(metadata[node].low, m.index))];
          }
        }
      }
      ghost var s := Snap();
      FollowedAll(graph, s0, s, node, deps);

      if metadata[node].index == metadata[node].low {
        ReadyToEmit(graph, s0, s, node, active);
        Emit(offset);
        LeaveEmitted(graph, s0, s, node, active, Last(components).deps);
      } else {
        LeaveOnStack(graph, s0, s, node, active);
      }
      meta := metadata[node];
    }

    /** Pops the stack above `offset` into a new component. */
    method Emit(offset: nat)
      requires offset < |stack| && depset == {}
      requires forall v :: v in stack[offset..] ==> v in metadata
      modifies this
      ensures components != [] && depset == {} && metadata.Keys == old(metadata.Keys)
      ensures Snap() == Emitted(old(Snap()), offset, Last(components).deps)
      ensures Lists(Last(components).deps,
                    EarlierTargets(graph, EmittedKeys(old(Snap()).dag, old(stack)[offset..]),
                                   Last(old(stack)[offset..]), |old(components)|))
    {
      hide Lists, EarlierTargets, EmittedKeys, EmittedMeta;
      var members := stack[offset..];
      var deps: seq<nat> := [];
      stack := stack[..offset];
      EmittedNone(DAG(keys, components), metadata);
      for k := 0 to |members|
        invariant depset == {} && index == old(index) && components == old(components) && stack == old(stack)[..offset]
        invariant keys == EmittedKeys(old(Snap()).dag, members[..k])
        invariant metadata == EmittedMeta(old(metadata), members[..k]) && metadata.Keys == old(metadata.Keys)
        invariant k > 0 ==> Lists(deps, EarlierTargets(graph, keys, members[k - 1], |components|))
      {
        var node := members[k];
        assert members[..k + 1] == members[..k] + [node];
        EmittedOneMore(old(Snap()).dag, old(metadata), members[..k], node);
        metadata := metadata[node := metadata[node].(onStack := false)];
        keys := keys[node := |components|];
        deps := CollectDeps(node);
      }
      components := components + [Component(members, deps)];
      assert members[..|members|] == members;
    }

    /** The sorted indices of the earlier components that `node` has an edge into. */
    method CollectDeps(node: Node) returns (deps: seq<nat>)
      requires depset == {}
      modifies `depset
      ensures depset == {} && Lists(deps, EarlierTargets(graph, keys, node, |components|))
    {
      var edges := graph(node);
      for i := 0 to |edges|
        invariant depset == set v | v in edges[..i] && v in keys && keys[v] < |components| :: keys[v]
      {
        assert edges[..i + 1] == edges[..i] + [edges[i]];
        if edges[i] in keys && keys[edges[i]] < |components| {
          depset := depset + {keys[edges[i]]};
        }
      }
      assert edges[..|edges|] == edges;
      deps := SortedIndices(depset);
      depset := {};
    }
  }

  lemma EmittedNone<Node>(d: DAG<Node>, m: Meta<Node>)
    ensures EmittedKeys(d, []) == d.keys && EmittedMeta(m, []) == m
  {
  }

  lemma EmittedOneMore<Node>(d: DAG<Node>, m: Meta<Node>, members: seq<Node>, v: Node)
    requires v in m
    ensures v in EmittedMeta(m, members)
    ensures EmittedKeys(d, members + [v]) == EmittedKeys(d, members)[v := |d.components|]
    ensures EmittedMeta(m, members + [v]) == EmittedMeta(m, members)[v := EmittedMeta(m, members)[v].(onStack := false)]
  {
  }

  method SortedIndices(s: set<nat>) returns (r: seq<nat>)
    ensures Lists(r, s)
  {
    r := [];
    var rest := s;
    while rest != {}
      invariant rest <= s
      invariant Lists(r, s - rest)
    {
      var x :| x in rest;
      var i := 0;
      while i < |r| && r[i] < x
        invariant 0 <= i <= |r|
        invariant forall j :: 0 <= j < i ==> r[j] < x
      {
        i := i + 1;
      }
      InsertLists(r, s - rest, i, x);
      assert s - (rest - {x}) == s - rest + {x};
      rest := rest - {x};
      r := r[..i] + [x] + r[i..];
    }
    assert s - rest == s;
  }

  lemma InsertLists(r: seq<nat>, s: set<nat>, i: nat, x: nat)
    requires Lists(r, s) && x !in s && i <= |r|
    requires forall j :: 0 <= j < i ==> r[j] < x
    requires i < |r| ==> x <= r[i]
    ensures Lists(r[..i] + [x] + r[i..], s + {x})
  {
    var t := r[..i] + [x] + r[i..];
    forall y
      ensures y in t <==> y in r || y == x
    {
      if y in r {
        var j :| 0 <= j < |r| && r[j] == y;
        assert t[if j < i then j else j + 1] == y;
      }
      assert t[i] == x;
    }
    assert i < |r| ==> r[i] in s;
  }

  lemma ActiveReachDep<Node(!new)>(g: Node -> seq<Node>, x: Node, dep: Node, active: set<Node>)
    requires dep in g(x)
    requires forall v :: v in active ==> Reach(g, v, x)
    ensures forall a :: a in active + {x} ==> Reach(g, a, dep)
  {
    hide Reach;
    ReachEdge(g, x, dep);
    forall a | a in active
      ensures Reach(g, a, dep)
    {
      ReachTrans(g, a, x, dep);
    }
  }

  // ----- Sorting a graph from its root -----

  /** d is a correct decomposition of what root reaches in g. */
  ghost predicate Decomposes<Node(!new)>(g: Node -> seq<Node>, root: Node, d: DAG<Node>) {
    && (forall v :: v in d.keys <==> Reach(g, root, v))
    && RootFirst(d, root)
    && Partitions(d)
    && (forall u, v :: u in d.keys && v in d.keys ==> (d.keys[u] == d.keys[v] <==> Reach(g, u, v) && Reach(g, v, u)))
    && Topological(g, d)
    && DepsAsRecorded(g, d)
  }

  method Sort<Node(==,!new)>(root: Node, graph: Node -> seq<Node>, ghost universe: set<Node>) returns (out: DAG<Node>)
    requires Closed(graph, universe) && root in universe
    ensures Decomposes(graph, root, out)
  {
    hide Inv, Reach, Decomposes, Visited;
    var sorter := new Tarjan(graph);
    EmptyInv(graph);
    ghost var s0 := sorter.Snap();
    var meta := sorter.Rec(root, {}, universe);
    out := DAG(sorter.keys, sorter.components);
    InvDecomposes(graph, root, s0, sorter.Snap(), meta);
  }

  lemma EmptyInv<Node(!new)>(g: Node -> seq<Node>)
    ensures Inv(g, State(DAG(map[], []), 0, [], map[]), {})
  {
  }

  lemma InvDecomposes<Node(!new)>(g: Node -> seq<Node>, root: Node, s0: State<Node>, s: State<Node>, r: Metadata)
    requires s0.metadata == map[] && s0.index == 0
    requires Inv(g, s, {}) && Visited(g, s0, s, root, r)
    requires !r.onStack ==> RootFirst(s.dag, root)
    ensures Decomposes(g, root, s.dag)
  {
    hide Reach, StackSorted, Partitions, DepsAsRecorded, RootFirst;
    var d := s.dag;
    forall v | v in s.metadata
      ensures v in d.keys
    {
      assert !OnStack(s.metadata, v);
    }
    forall v | v in d.keys
      ensures Reach(g, root, v)
    {
      assert v in s.metadata;
    }
    forall u, v | u in d.keys && Reach(g, u, v)
      ensures v in d.keys && d.keys[v] <= d.keys[u]
    {
      LabelsFallAlongReach(g, d.keys, u, v);
    }
  }
}
