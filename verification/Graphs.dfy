/** Directed graphs with ranked nodes, and undirected trees over the same nodes. */
module Graphs {

  /** Nodes are known by their names; only the order of the names matters, so they are numbers here. */
  datatype Node = Node(id: nat)

  datatype Option<+T> = None | Some(value: T)

  /** A directed edge with its layout label. */
  datatype Edge = Edge(v: Node, w: Node, weight: int, minlen: int)

  /** The key of an undirected edge: the smaller endpoint first. */
  datatype Pair = Pair(a: Node, b: Node)

  function Und(v: Node, w: Node): Pair {
    if v.id > w.id then Pair(w, v) else Pair(v, w)
  }

  predicate HasEdge(E: set<Edge>, v: Node, w: Node) {
    exists e :: e in E && e.v == v && e.w == w
  }

  /** Every edge joins two distinct nodes of V, and no two edges join the same two nodes. */
  ghost predicate Simple(V: set<Node>, E: set<Edge>) {
    && (forall e :: e in E ==> e.v in V && e.w in V && e.v != e.w)
    && (forall e, f :: e in E && f in E && Und(e.v, e.w) == Und(f.v, f.w) ==> e == f)
  }

  ghost predicate IsTopological(V: set<Node>, E: set<Edge>, topo: map<Node, int>) {
    && topo.Keys == V
    && (forall e :: e in E ==> e.v in V && e.w in V && topo[e.v] < topo[e.w])
  }

  /** An edge whose two endpoints lie on different sides of S. */
  predicate Crosses(S: set<Node>, v: Node, w: Node) {
    (v in S) != (w in S)
  }

  /** No way of splitting V in two leaves every edge on one side. */
  ghost predicate Connected(V: set<Node>, E: set<Edge>) {
    forall S: set<Node> :: S <= V && S != {} && S != V ==> exists e :: e in E && Crosses(S, e.v, e.w)
  }

  ghost predicate LinksAll(V: set<Node>, T: set<Pair>) {
    forall S: set<Node> :: S <= V && S != {} && S != V ==> exists p :: p in T && Crosses(S, p.a, p.b)
  }

  /** The edges of T join distinct nodes of V and are keyed with the smaller endpoint first. */
  ghost predicate PairsOf(V: set<Node>, T: set<Pair>) {
    forall p :: p in T ==> p.a in V && p.b in V && p.a.id < p.b.id
  }

  /** T is a spanning tree of V: it holds V together with one edge fewer than there are nodes. */
  ghost predicate SpanningTree(V: set<Node>, T: set<Pair>) {
    && PairsOf(V, T)
    && LinksAll(V, T)
    && |T| + 1 == |V|
  }

  function Slack(rank: map<Node, int>, e: Edge): int
    requires e.v in rank && e.w in rank
  {
    rank[e.w] - rank[e.v] - e.minlen
  }

  /** A ranking that gives every node a rank and every edge at least its minimum length. */
  ghost predicate Feasible(V: set<Node>, E: set<Edge>, rank: map<Node, int>) {
    && rank.Keys == V
    && (forall e :: e in E ==> e.v in V && e.w in V && Slack(rank, e) >= 0)
  }

  /** Every tree edge is a graph edge, in one direction or the other, of slack 0. */
  ghost predicate Tight(E: set<Edge>, rank: map<Node, int>, T: set<Pair>) {
    forall p :: p in T ==> TightPair(E, rank, p)
  }

  ghost predicate TightPair(E: set<Edge>, rank: map<Node, int>, p: Pair) {
    exists e :: e in E && Und(e.v, e.w) == p && e.v in rank && e.w in rank && Slack(rank, e) == 0
  }

  class LayoutGraph {
    const nodes: set<Node>
    const edges: set<Edge>
    var rank: map<Node, int>

    constructor (nodes: set<Node>, edges: set<Edge>)
      ensures this.nodes == nodes && this.edges == edges && rank == map[]
    {
      this.nodes, this.edges, rank := nodes, edges, map[];
    }

    function OutEdges(v: Node): set<Edge> {
      set e | e in edges && e.v == v
    }

    function InEdges(v: Node): set<Edge> {
      set e | e in edges && e.w == v
    }

    function NodeEdges(v: Node): set<Edge> {
      InEdges(v) + OutEdges(v)
    }

    /** The nodes without incoming edges. */
    function Sources(): set<Node> {
      set v | v in nodes && InEdges(v) == {}
    }
  }

  /** What one node of the tree carries: the interval of its subtree and its parent. */
  datatype Label = Label(low: int, lim: int, parent: Option<Node>)

  class TreeGraph {
    var nodes: set<Node>
    var edges: set<Pair>
    var labels: map<Node, Label>
    var cutvalue: map<Pair, int>

    constructor (start: Node)
      ensures nodes == {start} && edges == {} && labels == map[] && cutvalue == map[]
    {
      nodes, edges, labels, cutvalue := {start}, {}, map[], map[];
    }

    function Neighbors(v: Node): set<Node>
      reads this
    {
      NeighborsIn(edges, v)
    }
  }

  function NeighborsIn(T: set<Pair>, v: Node): set<Node> {
    (set p | p in T && p.b == v :: p.a) + (set p | p in T && p.a == v :: p.b)
  }
}
