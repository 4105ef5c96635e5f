/** Reachability in a directed graph given by its outgoing edges. */
module Graphs {

  /** p is a walk from u to v that follows edges of g. */
  ghost predicate IsPath<Node>(g: Node -> seq<Node>, u: Node, v: Node, p: seq<Node>) {
    && |p| > 0
    && p[0] == u
    && p[|p| - 1] == v
    && forall i :: 0 <= i < |p| - 1 ==> p[i + 1] in g(p[i])
  }

  ghost predicate Reach<Node(!new)>(g: Node -> seq<Node>, u: Node, v: Node) {
    exists p: seq<Node> :: IsPath(g, u, v, p)
  }

  /** No edge leaves s. */
  ghost predicate Closed<Node(!new)>(g: Node -> seq<Node>, s: set<Node>) {
    forall u, v :: u in s && v in g(u) ==> v in s
  }

  lemma ReachSelf<Node(!new)>(g: Node -> seq<Node>, u: Node)
    ensures Reach(g, u, u)
  {
    assert IsPath(g, u, u, [u]);
  }

  lemma ReachEdge<Node(!new)>(g: Node -> seq<Node>, u: Node, v: Node)
    requires v in g(u)
    ensures Reach(g, u, v)
  {
    assert IsPath(g, u, v, [u, v]);
  }

  lemma ReachTrans<Node(!new)>(g: Node -> seq<Node>, u: Node, v: Node, w: Node)
    requires Reach(g, u, v) && Reach(g, v, w)
    ensures Reach(g, u, w)
  {
    var p: seq<Node> :| IsPath(g, u, v, p);
    var q: seq<Node> :| IsPath(g, v, w, q);
    var r := p + q[1..];
    forall i | 0 <= i < |r| - 1
      ensures r[i + 1] in g(r[i])
    {
      if i >= |p| - 1 {
        assert r[i] == q[i - |p| + 1] && r[i + 1] == q[i - |p| + 2];
      }
    }
    assert IsPath(g, u, w, r);
  }

  /** A set without outgoing edges contains everything it reaches. */
  lemma ClosedContainsReach<Node(!new)>(g: Node -> seq<Node>, s: set<Node>, u: Node, v: Node)
    requires Closed(g, s) && u in s && Reach(g, u, v)
    ensures v in s
  {
    var p: seq<Node> :| IsPath(g, u, v, p);
    for i := 0 to |p| - 1
      invariant p[i] in s
    {
    }
  }

  /** A labelling that never grows along an edge of a closed set never grows along a walk. */
  lemma LabelsFallAlongReach<Node(!new)>(g: Node -> seq<Node>, rank: map<Node, nat>, u: Node, v: Node)
    requires forall x, y :: x in rank && y in g(x) ==> y in rank && rank[y] <= rank[x]
    requires u in rank && Reach(g, u, v)
    ensures v in rank && rank[v] <= rank[u]
  {
    var p: seq<Node> :| IsPath(g, u, v, p);
    for i := 0 to |p| - 1
      invariant p[i] in rank && rank[p[i]] <= rank[u]
    {
    }
  }
}
