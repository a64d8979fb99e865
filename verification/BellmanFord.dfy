/** Shortest distances with negative weights allowed, and the detection of negative cycles. */
module BellmanFord {
  import opened Graphs
  import opened Walks

  type Costs = map<Node, Dist>

  /** The graph that the search sees: loops are left out, and so are edges that leave the collection. */
  ghost function GraphOf(nodes: seq<Node>, edges: seq<Arc>): Arcs {
    map x | x in nodes :: set a | a in edges && Inside(nodes, a) && a.v == x
  }

  ghost predicate Inside(nodes: seq<Node>, a: Arc) {
    a.v in nodes && a.w in nodes && a.v != a.w
  }

  /** Positions and nodes determine each other. */
  ghost predicate Numbered(nodes: seq<Node>, pos: map<Node, nat>, n: nat)
    requires n <= |nodes|
  {
    && (forall i :: 0 <= i < n ==> nodes[i] in pos && pos[nodes[i]] == i)
    && (forall v :: v in pos ==> pos[v] < n && nodes[pos[v]] == v)
  }

  /** The costs by node. */
  ghost function CostsOf(pos: map<Node, nat>, cost: seq<Dist>): Costs {
    map v | v in pos && pos[v] < |cost| :: cost[pos[v]]
  }

  // ----- what the rounds keep -----

  /** Finite costs are lengths of walks; the root costs at most nothing. */
  ghost predicate Sound(g: Arcs, root: Node, c: Costs) {
    && c.Keys == g.Keys
    && (forall y {:trigger Reached(g, root, c, y)} :: y in g ==> Reached(g, root, c, y))
    && (root in g ==> !Less(Finite(0.0), c[root]))
  }

  ghost predicate Reached(g: Arcs, root: Node, c: Costs, y: Node)
    requires y in c
  {
    c[y].Finite? ==> WalkOf(g, root, y, c[y].r)
  }

  /** No walk of at most k edges is shorter than the cost of its end. */
  ghost predicate Covers(g: Arcs, root: Node, c: Costs, k: int) {
    forall p, y {:trigger Leads(g, root, p, y)} :: Leads(g, root, p, y) && |p| <= k ==>
      y in c && !Less(Finite(Length(p)), c[y])
  }

  /** No cost of the earlier round is below the current one. */
  ghost predicate Lowered(c0: Costs, c: Costs) {
    c.Keys == c0.Keys && forall y :: y in c ==> !Less(c0[y], c[y])
  }

  /** The edge a, followed from its cost in c0, offers nothing better than c. */
  ghost predicate Passed(c0: Costs, c: Costs, a: Arc) {
    a.v in c0 && a.w in c ==> !Less(Plus(c0[a.v], a.weight), c[a.w])
  }

  /** Within a round that began with costs c0, once the first j edges have been followed. */
  ghost predicate InRound(g: Arcs, root: Node, edges: seq<Arc>, c0: Costs, c: Costs, j: nat, flag: bool) {
    && Directed(g) && Sound(g, root, c0) && Sound(g, root, c) && Lowered(c0, c)
    && (forall i {:trigger edges[i]} :: 0 <= i < j && i < |edges| ==> Passed(c0, c, edges[i]))
    && (!flag ==> c == c0)
  }

  lemma StartIsSound(g: Arcs, root: Node, c: Costs)
    requires c.Keys == g.Keys && forall y :: y in g ==> c[y] == if y == root then Finite(0.0) else Infinite
    ensures Sound(g, root, c) && Covers(g, root, c, 0)
  {
    forall y | y in g ensures Reached(g, root, c, y) {
      if y == root { assert Leads(g, root, [], y) && Length([]) == 0.0; }
    }
  }

  /** The edge a offers a lower cost. */
  lemma TakeEdge(g: Arcs, root: Node, edges: seq<Arc>, c0: Costs, c: Costs, j: nat, flag: bool, a: Arc, d: Dist,
                 c': Costs)
    requires InRound(g, root, edges, c0, c, j, flag) && j < |edges| && a == edges[j]
    requires a.v in g && a in g[a.v] && a.w in g && d == Plus(c[a.v], a.weight) && Less(d, c[a.w]) && c' == c[a.w := d]
    ensures InRound(g, root, edges, c0, c', j + 1, true)
  {
    assert Reached(g, root, c, a.v);
    var p :| Leads(g, root, p, a.v) && Length(p) == c[a.v].r;
    assert Steps(g, a.v, a, a.w);
    Extend(g, root, p, a.v, a, a.w);
    forall y | y in g ensures Reached(g, root, c', y) {
      assert Reached(g, root, c, y);
    }
    forall i | 0 <= i < j + 1 ensures Passed(c0, c', edges[i]) {
      if i < j { assert Passed(c0, c, edges[i]); }
    }
  }

  lemma SkipEdge(g: Arcs, root: Node, edges: seq<Arc>, c0: Costs, c: Costs, j: nat, flag: bool, a: Arc)
    requires InRound(g, root, edges, c0, c, j, flag) && j < |edges| && a == edges[j]
    requires a.v in c && a.w in c ==> !Less(Plus(c[a.v], a.weight), c[a.w])
    ensures InRound(g, root, edges, c0, c, j + 1, flag)
  {
  }

  /** Every edge of the graph is one of the edges followed. */
  ghost predicate MadeOf(g: Arcs, edges: seq<Arc>) {
    forall x, a :: x in g && a in g[x] ==> a in edges
  }

  lemma RoundCovers(g: Arcs, root: Node, edges: seq<Arc>, c0: Costs, c: Costs, flag: bool, k: nat, k': int)
    requires InRound(g, root, edges, c0, c, |edges|, flag) && MadeOf(g, edges) && Covers(g, root, c0, k) && k' == k + 1
    ensures Covers(g, root, c, k')
  {
    forall p, y | Leads(g, root, p, y) && |p| <= k' ensures y in c && !Less(Finite(Length(p)), c[y]) {
      if p != [] {
        var a := p[|p| - 1];
        var z :| Steps(g, z, a, y) && Leads(g, root, p[..|p| - 1], z);
        assert a in edges;
        var i :| 0 <= i < |edges| && edges[i] == a;
        assert Passed(c0, c, edges[i]);
        assert z in c0 && !Less(Finite(Length(p[..|p| - 1])), c0[z]);
      } else {
        assert y in c0 && !Less(Finite(Length(p)), c0[y]);
      }
    }
  }

  // ----- when no edge offers anything better -----

  ghost predicate AllPassed(g: Arcs, c: Costs) {
    forall x, a :: x in g && a in g[x] ==> Passed(c, c, a)
  }

  /** Then no walk is cheaper than the difference of the costs of its ends. */
  lemma {:induction false} WalksCost(g: Arcs, root: Node, c: Costs, x: Node, p: seq<Arc>, y: Node)
    requires Directed(g) && c.Keys == g.Keys && AllPassed(g, c) && Leads(g, x, p, y)
    ensures x in c && y in c && !Less(Plus(c[x], Length(p)), c[y])
    decreases |p|
  {
    LeadsToEnd(g, x, p, y);
    if p != [] {
      var a := p[|p| - 1];
      var z :| Steps(g, z, a, y) && Leads(g, x, p[..|p| - 1], z);
      WalksCost(g, root, c, x, p[..|p| - 1], z);
      assert Passed(c, c, a);
    }
  }

  lemma CostsAreDistances(g: Arcs, root: Node, c: Costs)
    requires Directed(g) && Sound(g, root, c) && AllPassed(g, c)
    ensures !NegativeCycleFrom(g, root) && forall y :: y in g ==> IsDistance(g, root, y, c[y])
  {
    forall p, y, k ensures !IsNegativeCycle(g, root, p, y, k) {
      if IsNegativeCycle(g, root, p, y, k) {
        WalksCost(g, root, c, root, p, y);
        WalksCost(g, root, c, y, k, y);
      }
    }
    forall y | y in g ensures IsDistance(g, root, y, c[y]) {
      assert Reached(g, root, c, y);
      forall p | Leads(g, root, p, y) ensures c[y].Finite? && Length(p) >= c[y].r {
        WalksCost(g, root, c, root, p, y);
      }
    }
  }

  /** A cost that can still be lowered after all rounds betrays a negative cycle. */
  lemma StillLowerMeansCycle(g: Arcs, root: Node, c: Costs, a: Arc)
    requires Directed(g) && Sound(g, root, c) && Covers(g, root, c, |g.Keys| - 1)
    requires a.v in g && a in g[a.v] && Less(Plus(c[a.v], a.weight), c[a.w])
    ensures NegativeCycleFrom(g, root)
  {
    if !NegativeCycleFrom(g, root) {
      assert Reached(g, root, c, a.v);
      var p :| Leads(g, root, p, a.v) && Length(p) == c[a.v].r;
      assert Steps(g, a.v, a, a.w);
      Extend(g, root, p, a.v, a, a.w);
      var q := Shorten(g, root, p + [a], a.w);
    }
  }

  // ----- the program -----

  datatype Answer = NegativeWeightCycle | Distances(cost: seq<Dist>, id2position: map<Node, nat>)

  method WithoutLoops(edges: seq<Arc>) returns (r: seq<Arc>)
    ensures forall a :: a in r <==> a in edges && a.v != a.w
  {
    r := [];
    for i := 0 to |edges|
      invariant forall a :: a in r <==> a in edges[..i] && a.v != a.w
    {
      assert edges[..i + 1] == edges[..i] + [edges[i]];
      if edges[i].v != edges[i].w { r := r + [edges[i]]; }
    }
    assert edges[..|edges|] == edges;
  }

  method Positions(nodes: seq<Node>) returns (pos: map<Node, nat>)
    requires forall i, j :: 0 <= i < j < |nodes| ==> nodes[i] != nodes[j]
    ensures Numbered(nodes, pos, |nodes|)
  {
    pos := map[];
    for i := 0 to |nodes|
      invariant Numbered(nodes, pos, i)
    {
      pos := pos[nodes[i] := i];
    }
  }

  method Initial(nodes: seq<Node>, root: Node) returns (cost: seq<Dist>)
    ensures |cost| == |nodes|
      && forall i :: 0 <= i < |nodes| ==> cost[i] == if nodes[i] == root then Finite(0.0) else Infinite
  {
    cost := [];
    for i := 0 to |nodes|
      invariant |cost| == i && forall k :: 0 <= k < i ==> cost[k] == if nodes[k] == root then Finite(0.0) else Infinite
    {
      cost := cost + [if nodes[i] == root then Finite(0.0) else Infinite];
    }
  }

  lemma CostsUpdate(nodes: seq<Node>, pos: map<Node, nat>, cost: seq<Dist>, w: Node, d: Dist)
    requires Numbered(nodes, pos, |nodes|) && |cost| == |nodes| && w in pos
    ensures CostsOf(pos, cost[pos[w] := d]) == CostsOf(pos, cost)[w := d]
  {
  }

  /** One pass over all edges. */
  method Round(nodes: seq<Node>, edges: seq<Arc>, pos: map<Node, nat>, cost: seq<Dist>, ghost g: Arcs, ghost root: Node,
               ghost k: nat)
    returns (cost': seq<Dist>, flag: bool)
    requires Numbered(nodes, pos, |nodes|) && |cost| == |nodes| && SeesGraph(g, nodes, edges)
    requires Sound(g, root, CostsOf(pos, cost)) && Covers(g, root, CostsOf(pos, cost), k)
    ensures |cost'| == |nodes| && Sound(g, root, CostsOf(pos, cost')) && Covers(g, root, CostsOf(pos, cost'), k + 1)
    ensures !flag ==> AllPassed(g, CostsOf(pos, cost'))
  {
    cost', flag := cost, false;
    ghost var c0 := CostsOf(pos, cost);
    for j := 0 to |edges|
      invariant |cost'| == |nodes| && InRound(g, root, edges, c0, CostsOf(pos, cost'), j, flag)
    {
      var a := edges[j];
      ghost var c := CostsOf(pos, cost');
      if a.v in pos && a.w in pos && Less(Plus(cost'[pos[a.v]], a.weight), cost'[pos[a.w]]) {
        var temp := Plus(cost'[pos[a.v]], a.weight);
        EdgeIsSeen(g, nodes, edges, pos, j);
        CostsUpdate(nodes, pos, cost', a.w, temp);
        cost' := cost'[pos[a.w] := temp];
        TakeEdge(g, root, edges, c0, c, j, flag, a, temp, CostsOf(pos, cost'));
        flag := true;
      } else {
        SkipEdge(g, root, edges, c0, c, j, flag, a);
      }
    }
    RoundCovers(g, root, edges, c0, CostsOf(pos, cost'), flag, k, k + 1);
  }

  /** g is the graph of the loop-free edges between these nodes. */
  ghost predicate SeesGraph(g: Arcs, nodes: seq<Node>, edges: seq<Arc>) {
    g == GraphOf(nodes, edges) && forall a :: a in edges ==> a.v != a.w
  }

  lemma EdgeIsSeen(g: Arcs, nodes: seq<Node>, edges: seq<Arc>, pos: map<Node, nat>, j: nat)
    requires Numbered(nodes, pos, |nodes|) && SeesGraph(g, nodes, edges) && j < |edges| && edges[j].v in pos
      && edges[j].w in pos
    ensures edges[j].v in g && edges[j] in g[edges[j].v] && edges[j].w in g
  {
    assert edges[j] in edges;
  }

  lemma GraphIsDirected(nodes: seq<Node>, pos: map<Node, nat>, edges: seq<Arc>, g: Arcs)
    requires Numbered(nodes, pos, |nodes|) && SeesGraph(g, nodes, edges)
    ensures Directed(g) && MadeOf(g, edges) && g.Keys == pos.Keys && |g.Keys| == |nodes|
  {
    forall v ensures v in g <==> v in pos {
      if v in nodes {
        var i :| 0 <= i < |nodes| && nodes[i] == v;
      }
      if v in pos { assert nodes[pos[v]] == v; }
    }
    assert g.Keys == pos.Keys;
    SizeOfNodes(nodes, |nodes|);
    assert g.Keys == set i | 0 <= i < |nodes| :: nodes[i];
  }

  lemma {:induction false} SizeOfNodes(nodes: seq<Node>, n: nat)
    requires n <= |nodes| && forall i, j :: 0 <= i < j < |nodes| ==> nodes[i] != nodes[j]
    ensures |set i | 0 <= i < n :: nodes[i]| == n
    decreases n
  {
    if n > 0 {
      SizeOfNodes(nodes, n - 1);
      var R := set i | 0 <= i < n - 1 :: nodes[i];
      assert (set i | 0 <= i < n :: nodes[i]) == R + {nodes[n - 1]} && nodes[n - 1] !in R;
    }
  }

  /** Looks for an edge that can still lower a cost. */
  method AnyLower(edges: seq<Arc>, pos: map<Node, nat>, cost: seq<Dist>) returns (found: bool, j: nat)
    requires forall v :: v in pos ==> pos[v] < |cost|
    ensures found ==>
      j < |edges| && edges[j].v in pos && edges[j].w in pos && !Passed(CostsOf(pos, cost), CostsOf(pos, cost), edges[j])
    ensures !found ==> forall i :: 0 <= i < |edges| ==> Passed(CostsOf(pos, cost), CostsOf(pos, cost), edges[i])
  {
    for i := 0 to |edges|
      invariant forall k :: 0 <= k < i ==> Passed(CostsOf(pos, cost), CostsOf(pos, cost), edges[k])
    {
      var a := edges[i];
      if a.v in pos && a.w in pos && Less(Plus(cost[pos[a.v]], a.weight), cost[pos[a.w]]) {
        return true, i;
      }
    }
    found, j := false, 0;
  }

  /** Fewer rounds than there are nodes, ended early by a round without effect. */
  method Rounds(nodes: seq<Node>, edges: seq<Arc>, pos: map<Node, nat>, root: Node, ghost g: Arcs)
    returns (cost: seq<Dist>, flag: bool)
    requires Numbered(nodes, pos, |nodes|) && SeesGraph(g, nodes, edges)
    ensures |cost| == |nodes| && Sound(g, root, CostsOf(pos, cost))
    ensures flag ==> Covers(g, root, CostsOf(pos, cost), |nodes| - 1)
    ensures !flag ==> AllPassed(g, CostsOf(pos, cost))
  {
    GraphIsDirected(nodes, pos, edges, g);
    cost := Initial(nodes, root);
    StartIsSound(g, root, CostsOf(pos, cost));
    flag := false;
    var i := 1;
    while i < |nodes|
      invariant |cost| == |nodes| && 1 <= i && (i <= |nodes| || |nodes| == 0)
      invariant Sound(g, root, CostsOf(pos, cost)) && Covers(g, root, CostsOf(pos, cost), i - 1)
      invariant i > 1 ==> flag
      invariant i == 1 ==> !flag
    {
      cost, flag := Round(nodes, edges, pos, cost, g, root, i - 1);
      if !flag { return; }
      i := i + 1;
    }
    if !flag { FewNodesHaveNoEdges(nodes, pos, edges, g, CostsOf(pos, cost)); }
  }

  lemma FewNodesHaveNoEdges(nodes: seq<Node>, pos: map<Node, nat>, edges: seq<Arc>, g: Arcs, c: Costs)
    requires Numbered(nodes, pos, |nodes|) && SeesGraph(g, nodes, edges) && |nodes| <= 1
    ensures AllPassed(g, c)
  {
  }

  /** The answer is a negative cycle exactly when one without loops can be reached from the root, and the
      distances from the root otherwise. */
  method Run(nodes: seq<Node>, edges: seq<Arc>, root: Node) returns (r: Answer)
    requires forall i, j :: 0 <= i < j < |nodes| ==> nodes[i] != nodes[j]
    ensures r.NegativeWeightCycle? <==> NegativeCycleFrom(GraphOf(nodes, edges), root)
    ensures r.Distances? ==> forall y :: y in nodes ==>
      y in r.id2position && r.id2position[y] < |r.cost|
        && IsDistance(GraphOf(nodes, edges), root, y, r.cost[r.id2position[y]])
  {
    var kept := WithoutLoops(edges);
    ghost var g := GraphOf(nodes, edges);
    forall x | x in nodes ensures (set a | a in kept && Inside(nodes, a) && a.v == x) == g[x] {}
    assert g == GraphOf(nodes, kept);
    var pos := Positions(nodes);
    GraphIsDirected(nodes, pos, kept, g);
    var cost, flag := Rounds(nodes, kept, pos, root, g);
    ghost var c := CostsOf(pos, cost);
    if flag {
      var found, j := AnyLower(kept, pos, cost);
      if found {
        EdgeIsSeen(g, nodes, kept, pos, j);
        StillLowerMeansCycle(g, root, c, kept[j]);
        return NegativeWeightCycle;
      }
    }
    CostsAreDistances(g, root, c);
    r := Distances(cost, pos);
    forall y | y in nodes ensures y in pos && pos[y] < |cost| && IsDistance(g, root, y, cost[pos[y]]) {
      assert y in g;
    }
  }
}
