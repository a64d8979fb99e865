/** The initial ranking by longest paths and the tight spanning tree grown from it. */
module Ranking {
  import opened Graphs
  import opened Sums

  /** D is closed under out-edges, and on D every node has the largest rank its out-edges allow
      (0 if it has none). */
  ghost predicate Settled(E: set<Edge>, rank: map<Node, int>, D: set<Node>) {
    && D <= rank.Keys
    && (forall e :: e in E && e.v in D ==> e.w in D && Slack(rank, e) >= 0)
    && (forall x {:trigger Anchored(E, rank, x)} :: x in D ==> Anchored(E, rank, x))
  }

  ghost predicate Anchored(E: set<Edge>, rank: map<Node, int>, x: Node) {
    if exists e :: e in E && e.v == x
    then exists e :: e in E && e.v == x && e.v in rank && e.w in rank && Slack(rank, e) == 0
    else x in rank && rank[x] == 0
  }

  method LongestPath(g: LayoutGraph, ghost topo: map<Node, int>)
    requires IsTopological(g.nodes, g.edges, topo) && g.rank.Keys <= g.nodes
    modifies g`rank
    ensures Feasible(g.nodes, g.edges, g.rank)
    ensures Settled(g.edges, g.rank, g.nodes)
  {
    var visited: set<Node> := {};
    var todo := g.Sources();
    while todo != {}
      invariant todo <= g.Sources()
      invariant visited <= g.nodes && g.rank.Keys <= g.nodes && Settled(g.edges, g.rank, visited)
      invariant g.Sources() <= visited + todo
      decreases todo
    {
      var v :| v in todo;
      todo := todo - {v};
      var r;
      visited, r := LongestPathDfs(g, visited, v, topo, {});
      assert visited - {} == visited;
    }
    SourcesReachAll(g, topo, visited);
  }

  lemma SourcesReachAll(g: LayoutGraph, topo: map<Node, int>, D: set<Node>)
    requires IsTopological(g.nodes, g.edges, topo)
    requires g.Sources() <= D <= g.nodes
    requires forall e :: e in g.edges && e.v in D ==> e.w in D
    ensures D == g.nodes
  {
    if x :| x in g.nodes && x !in D {
      assert x in g.nodes - D;
      var u := Earliest(g.nodes - D, topo);
    }
  }

  /** Longest-path ranks are the greatest ones: no feasible ranking with its sinks at 0 or before
      puts any node later. */
  lemma LongestPathIsGreatest(V: set<Node>, E: set<Edge>, topo: map<Node, int>, rank: map<Node, int>,
                              other: map<Node, int>)
    requires IsTopological(V, E, topo) && Settled(E, rank, V) && Feasible(V, E, other)
    requires forall x :: x in V && (forall e :: e in E ==> e.v != x) ==> other[x] <= 0
    ensures forall x :: x in V ==> other[x] <= rank[x]
  {
    var late := set x | x in V && other[x] > rank[x];
    if late != {} {
      var x := Latest(late, topo);
      var y := LaterExcess(V, E, topo, rank, other, x);
      assert false;
    }
    assert forall x :: x in V ==> x !in late;
  }

  lemma LaterExcess(V: set<Node>, E: set<Edge>, topo: map<Node, int>, rank: map<Node, int>, other: map<Node, int>,
                    x: Node)
    returns (y: Node)
    requires IsTopological(V, E, topo) && Settled(E, rank, V) && Feasible(V, E, other)
    requires forall x :: x in V && (forall e :: e in E ==> e.v != x) ==> other[x] <= 0
    requires x in V && other[x] > rank[x]
    ensures y in V && other[y] > rank[y] && topo[y] > topo[x]
  {
    assert Anchored(E, rank, x);
    var e :| e in E && e.v == x && Slack(rank, e) == 0;
    assert Slack(other, e) >= 0;
    y := e.w;
  }

  method LongestPathDfs(g: LayoutGraph, visited: set<Node>, v: Node, ghost topo: map<Node, int>, ghost gray: set<Node>)
    returns (visited': set<Node>, r: int)
    requires IsTopological(g.nodes, g.edges, topo)
    requires v in g.nodes && gray <= visited <= g.nodes && g.rank.Keys <= g.nodes
    requires forall x :: x in gray ==> topo[x] < topo[v]
    requires Settled(g.edges, g.rank, visited - gray)
    modifies g`rank
    ensures visited + {v} <= visited' <= g.nodes
    ensures Settled(g.edges, g.rank, visited' - gray)
    ensures v in g.rank && r == g.rank[v] && g.rank.Keys <= g.nodes
    ensures forall x :: x in visited - gray ==> g.rank[x] == old(g.rank[x])
    decreases g.nodes - visited
  {
    if v in visited {
      return visited, g.rank[v];
    }
    visited' := visited + {v};
    var best: Option<int> := None;
    var todo := g.OutEdges(v);
    ghost var inner := gray + {v};
    assert visited' - inner == visited - gray;
    while todo != {}
      invariant todo <= g.OutEdges(v)
      invariant visited + {v} <= visited' <= g.nodes && g.rank.Keys <= g.nodes
      invariant Settled(g.edges, g.rank, visited' - inner)
      invariant forall x :: x in visited - gray ==> g.rank[x] == old(g.rank[x])
      invariant forall e :: e in g.OutEdges(v) - todo ==>
        e.w in visited' - inner && best.Some? && best.value <= g.rank[e.w] - e.minlen
      invariant best.Some? ==>
        exists e :: e in g.OutEdges(v) - todo && e.w in g.rank && best.value == g.rank[e.w] - e.minlen
      decreases todo
    {
      var e :| e in todo;
      todo := todo - {e};
      ghost var seen := g.OutEdges(v) - todo;
      ghost var before := g.rank;
      var d;
      visited', d := LongestPathDfs(g, visited', e.w, topo, inner);
      assert forall f :: f in seen && f != e ==> g.rank[f.w] == before[f.w];
      var c := d - e.minlen;
      if best.None? || c < best.value {
        best := Some(c);
        assert e in g.OutEdges(v) - todo && best.value == g.rank[e.w] - e.minlen;
      }
    }
    r := if best.None? then 0 else best.value;
    ghost var before := g.rank;
    g.rank := g.rank[v := r];
    ghost var D := visited' - gray;
    assert D == (visited' - inner) + {v};
    forall e | e in g.edges && e.v in D
      ensures e.w in D && Slack(g.rank, e) >= 0
    {
      if e.v == v { assert e in g.OutEdges(v); } else { assert Slack(before, e) >= 0; }
    }
    forall x | x in D
      ensures Anchored(g.edges, g.rank, x)
    {
      if x == v {
        if best.Some? {
          var e :| e in g.OutEdges(v) && e.w in before && best.value == before[e.w] - e.minlen;
          assert e.w != v;
          assert Slack(g.rank, e) == 0;
        } else {
          assert g.OutEdges(v) == {};
          assert forall e :: e in g.edges && e.v == x ==> e in g.OutEdges(v);
        }
      } else {
        assert Anchored(g.edges, before, x);
        if exists e :: e in g.edges && e.v == x {
          var e :| e in g.edges && e.v == x && e.v in before && e.w in before && Slack(before, e) == 0;
          assert e.w in visited' - inner;
          assert Slack(g.rank, e) == 0;
        }
      }
    }
  }

  /** The tree built so far: a tree on its own nodes, made of tight edges of g. */
  ghost predicate PartialTree(g: LayoutGraph, t: TreeGraph)
    reads g, t
  {
    && t.nodes <= g.nodes
    && SpanningTree(t.nodes, t.edges)
    && Tight(g.edges, g.rank, t.edges)
  }

  /** Every tight edge that touches X stays inside the nodes N. */
  ghost predicate NoTightExit(E: set<Edge>, rank: map<Node, int>, N: set<Node>, X: set<Node>) {
    forall e :: e in E && (e.v in X || e.w in X) ==> KeptIn(rank, N, e)
  }

  ghost predicate AllKept(rank: map<Node, int>, N: set<Node>, F: set<Edge>) {
    forall e :: e in F ==> KeptIn(rank, N, e)
  }

  lemma KeptAfter(rank: map<Node, int>, N1: set<Node>, F: set<Edge>, N2: set<Node>, e: Edge)
    requires AllKept(rank, N1, F) && N1 <= N2 && KeptIn(rank, N2, e)
    ensures AllKept(rank, N2, F + {e})
  {
    forall f | f in F + {e} ensures KeptIn(rank, N2, f) {
      assert f in F ==> KeptIn(rank, N1, f);
    }
  }

  ghost predicate KeptIn(rank: map<Node, int>, N: set<Node>, e: Edge) {
    e.v in rank && e.w in rank && Slack(rank, e) == 0 ==> e.v in N && e.w in N
  }

  lemma LeafKeepsTree(V: set<Node>, T: set<Pair>, v: Node, w: Node)
    requires SpanningTree(V, T) && v in V && w !in V
    ensures SpanningTree(V + {w}, T + {Und(v, w)})
  {
    var V', T' := V + {w}, T + {Und(v, w)};
    forall S: set<Node> | S <= V' && S != {} && S != V'
      ensures exists p :: p in T' && Crosses(S, p.a, p.b)
    {
      if S * V == {} || S * V == V {
        var p := Und(v, w);
        assert S == {w} || S == V;
        assert p in T' && Crosses(S, p.a, p.b);
      } else {
        var S0 := S * V;
        assert S0 <= V && S0 != {} && S0 != V;
        var p :| p in T && Crosses(S0, p.a, p.b);
        assert p in T' && Crosses(S, p.a, p.b);
      }
    }
    assert Und(v, w) !in T;
  }

  lemma MergeExits(E: set<Edge>, rank: map<Node, int>, N1: set<Node>, X1: set<Node>, N2: set<Node>, X2: set<Node>,
                   X: set<Node>)
    requires NoTightExit(E, rank, N1, X1) && N1 <= N2 && NoTightExit(E, rank, N2, X2)
    requires X <= X1 + X2
    ensures NoTightExit(E, rank, N2, X)
  {
    forall e | e in E && (e.v in X || e.w in X) ensures KeptIn(rank, N2, e) {
      assert e.v in X1 || e.w in X1 ==> KeptIn(rank, N1, e);
    }
  }

  lemma ExtendTree(g: LayoutGraph, N: set<Node>, T: set<Pair>, e: Edge, v: Node, w: Node)
    requires SpanningTree(N, T) && Tight(g.edges, g.rank, T)
    requires e in g.edges && Und(e.v, e.w) == Und(v, w) && e.v in g.rank && e.w in g.rank && Slack(g.rank, e) == 0
    requires v in N && w !in N
    ensures SpanningTree(N + {w}, T + {Und(v, w)}) && Tight(g.edges, g.rank, T + {Und(v, w)})
  {
    LeafKeepsTree(N, T, v, w);
    assert TightPair(g.edges, g.rank, Und(v, w));
  }

  method TightTreeDfs(t: TreeGraph, g: LayoutGraph, v: Node)
    requires Simple(g.nodes, g.edges) && g.nodes <= g.rank.Keys
    requires PartialTree(g, t) && v in t.nodes
    modifies t`nodes, t`edges
    ensures PartialTree(g, t) && old(t.nodes) <= t.nodes
    ensures NoTightExit(g.edges, g.rank, t.nodes, {v} + (t.nodes - old(t.nodes)))
    decreases g.nodes - t.nodes, 1
  {
    var todo := g.NodeEdges(v);
    ghost var done: set<Edge> := {};
    while todo != {}
      invariant done + todo == g.NodeEdges(v)
      invariant PartialTree(g, t) && old(t.nodes) <= t.nodes
      invariant NoTightExit(g.edges, g.rank, t.nodes, t.nodes - old(t.nodes))
      invariant AllKept(g.rank, t.nodes, done)
      decreases todo
    {
      var e :| e in todo;
      todo := todo - {e};
      ghost var mid := t.nodes;
      TightTreeVisit(t, g, v, e);
      MergeExits(g.edges, g.rank, mid, mid - old(t.nodes), t.nodes, t.nodes - mid, t.nodes - old(t.nodes));
      KeptAfter(g.rank, mid, done, t.nodes, e);
      done := done + {e};
    }
    assert NoTightExit(g.edges, g.rank, t.nodes, {v}) by {
      assert forall e :: e in g.edges && (e.v == v || e.w == v) ==> e in done;
    }
    MergeExits(g.edges, g.rank, t.nodes, t.nodes - old(t.nodes), t.nodes, {v}, {v} + (t.nodes - old(t.nodes)));
  }

  method TightTreeVisit(t: TreeGraph, g: LayoutGraph, v: Node, e: Edge)
    requires Simple(g.nodes, g.edges) && g.nodes <= g.rank.Keys
    requires PartialTree(g, t) && v in t.nodes && e in g.NodeEdges(v)
    modifies t`nodes, t`edges
    ensures PartialTree(g, t) && old(t.nodes) <= t.nodes
    ensures NoTightExit(g.edges, g.rank, t.nodes, t.nodes - old(t.nodes))
    ensures KeptIn(g.rank, t.nodes, e)
    decreases g.nodes - t.nodes, 0
  {
    var w := if v == e.v then e.w else e.v;
    if w !in t.nodes && Slack(g.rank, e) == 0 {
      ExtendTree(g, t.nodes, t.edges, e, v, w);
      t.nodes := t.nodes + {w};
      t.edges := t.edges + {Und(v, w)};
      TightTreeDfs(t, g, w);
      assert {w} + (t.nodes - (old(t.nodes) + {w})) == t.nodes - old(t.nodes);
    }
  }

  method TightTree(t: TreeGraph, g: LayoutGraph) returns (count: nat)
    requires Simple(g.nodes, g.edges) && g.nodes <= g.rank.Keys
    requires PartialTree(g, t)
    modifies t`nodes, t`edges
    ensures PartialTree(g, t) && old(t.nodes) <= t.nodes
    ensures NoTightExit(g.edges, g.rank, t.nodes, t.nodes)
    ensures count == |t.nodes|
  {
    var todo := t.nodes;
    while todo != {}
      invariant PartialTree(g, t) && old(t.nodes) <= t.nodes && todo <= old(t.nodes)
      invariant NoTightExit(g.edges, g.rank, t.nodes, t.nodes - todo)
      decreases todo
    {
      var v :| v in todo;
      todo := todo - {v};
      ghost var mid := t.nodes;
      TightTreeDfs(t, g, v);
      MergeExits(g.edges, g.rank, mid, mid - (todo + {v}), t.nodes, {v} + (t.nodes - mid), t.nodes - todo);
    }
    assert t.nodes - todo == t.nodes;
    count := |t.nodes|;
  }

  method FindMinSlackEdge(t: TreeGraph, g: LayoutGraph) returns (edge: Edge)
    requires Simple(g.nodes, g.edges) && g.nodes <= g.rank.Keys
    requires exists e :: e in g.edges && Crosses(t.nodes, e.v, e.w)
    ensures edge in g.edges && Crosses(t.nodes, edge.v, edge.w)
    ensures forall e :: e in g.edges && Crosses(t.nodes, e.v, e.w) ==> Slack(g.rank, edge) <= Slack(g.rank, e)
  {
    var best: Option<Edge> := None;
    var todo := g.edges;
    while todo != {}
      invariant todo <= g.edges
      invariant best.Some? ==> best.value in g.edges && Crosses(t.nodes, best.value.v, best.value.w)
      invariant forall e :: e in g.edges - todo && Crosses(t.nodes, e.v, e.w) ==>
        best.Some? && Slack(g.rank, best.value) <= Slack(g.rank, e)
      decreases todo
    {
      var e :| e in todo;
      todo := todo - {e};
      if Crosses(t.nodes, e.v, e.w) && (best.None? || Slack(g.rank, e) < Slack(g.rank, best.value)) {
        best := Some(e);
      }
    }
    assert g.edges - todo == g.edges;
    edge := best.value;
  }

  /** The ranking after moving every node of S by delta. */
  ghost function Shifted(rank: map<Node, int>, S: set<Node>, delta: int): (r: map<Node, int>)
    ensures r.Keys == rank.Keys
  {
    map x | x in rank :: rank[x] + if x in S then delta else 0
  }

  method ShiftRanks(t: TreeGraph, g: LayoutGraph, delta: int)
    requires t.nodes <= g.rank.Keys
    modifies g`rank
    ensures g.rank == Shifted(old(g.rank), t.nodes, delta)
  {
    var todo := t.nodes;
    while todo != {}
      invariant todo <= t.nodes
      invariant g.rank == Shifted(old(g.rank), t.nodes - todo, delta)
      decreases todo
    {
      var v :| v in todo;
      todo := todo - {v};
      g.rank := g.rank[v := g.rank[v] + delta];
    }
    assert t.nodes - todo == t.nodes;
  }

  /** From any feasible ranking of a connected graph: a spanning tree of tight edges, the ranking
      still feasible. The tree gains a node on every round. */
  method FeasibleTree(g: LayoutGraph, start: Node) returns (t: TreeGraph)
    requires Simple(g.nodes, g.edges) && Connected(g.nodes, g.edges) && start in g.nodes
    requires Feasible(g.nodes, g.edges, g.rank)
    modifies g`rank
    ensures fresh(t) && t.nodes == g.nodes && t.labels == map[] && t.cutvalue == map[]
    ensures Feasible(g.nodes, g.edges, g.rank)
    ensures SpanningTree(g.nodes, t.edges) && Tight(g.edges, g.rank, t.edges)
  {
    t := new TreeGraph(start);
    var size := |g.nodes|;
    var count := TightTree(t, g);
    while count < size
      invariant fresh(t) && t.labels == map[] && t.cutvalue == map[]
      invariant Feasible(g.nodes, g.edges, g.rank)
      invariant PartialTree(g, t) && NoTightExit(g.edges, g.rank, t.nodes, t.nodes) && count == |t.nodes|
      decreases size - count
    {
      assert t.nodes != {} && t.nodes != g.nodes;
      var edge := FindMinSlackEdge(t, g);
      var delta := if edge.v in t.nodes then Slack(g.rank, edge) else -Slack(g.rank, edge);
      ghost var before, mid := g.rank, t.nodes;
      ShiftRanks(t, g, delta);
      ShiftStaysFeasible(g.nodes, g.edges, before, mid, edge, delta, t.edges);
      count := TightTree(t, g);
      GrowsIfTightCrossing(mid, t.nodes, edge);
    }
    SubsetOfSameSize(t.nodes, g.nodes);
  }

  lemma GrowsIfTightCrossing(before: set<Node>, after: set<Node>, e: Edge)
    requires before <= after && Crosses(before, e.v, e.w)
    requires e.v in after && e.w in after
    ensures |after| > |before|
  {
    var x := if e.v in before then e.w else e.v;
    SizeMonotone(before, after - {x});
  }

  lemma ShiftStaysFeasible(V: set<Node>, E: set<Edge>, rank: map<Node, int>, S: set<Node>, edge: Edge, delta: int,
                           T: set<Pair>)
    requires Feasible(V, E, rank) && S <= V
    requires edge in E && Crosses(S, edge.v, edge.w)
    requires forall e :: e in E && Crosses(S, e.v, e.w) ==> Slack(rank, edge) <= Slack(rank, e)
    requires delta == if edge.v in S then Slack(rank, edge) else -Slack(rank, edge)
    requires (forall p :: p in T ==> p.a in S && p.b in S) && Tight(E, rank, T)
    ensures Feasible(V, E, Shifted(rank, S, delta))
    ensures Slack(Shifted(rank, S, delta), edge) == 0
    ensures Tight(E, Shifted(rank, S, delta), T)
  {
    var r := Shifted(rank, S, delta);
    forall p | p in T
      ensures TightPair(E, r, p)
    {
      var e :| e in E && Und(e.v, e.w) == p && e.v in rank && e.w in rank && Slack(rank, e) == 0;
      assert Slack(r, e) == 0;
    }
  }
}
