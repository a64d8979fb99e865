/** What a cut value is, and why cut values price every ranking of the graph. */
module CutValues {
  import opened Graphs
  import opened Sums
  import opened TreeLabels

  /** The weight of the edges that lead from A to B. */
  ghost function Flow(E: set<Edge>, A: set<Node>, B: set<Node>): int {
    Sum(E, (e: Edge) => if e.v in A && e.w in B then e.weight else 0)
  }

  function Ind(S: set<Node>, x: Node): int {
    if x in S then 1 else 0
  }

  ghost function NetTerm(S: set<Node>, e: Edge): int {
    e.weight * (Ind(S, e.v) - Ind(S, e.w))
  }

  /** The weight leaving S less the weight entering S. */
  ghost function Net(E: set<Edge>, S: set<Node>): int {
    Sum(E, (e: Edge) => NetTerm(S, e))
  }

  lemma NetIsFlow(V: set<Node>, E: set<Edge>, S: set<Node>)
    requires S <= V && forall e :: e in E ==> e.v in V && e.w in V
    ensures Net(E, S) == Flow(E, S, V - S) - Flow(E, V - S, S)
  {
    SumLinear(E, (e: Edge) => NetTerm(S, e),
              1, (e: Edge) => if e.v in S && e.w in V - S then e.weight else 0,
              -1, (e: Edge) => if e.v in V - S && e.w in S then e.weight else 0);
  }

  lemma NetUnion(E: set<Edge>, A: set<Node>, B: set<Node>)
    requires A !! B
    ensures Net(E, A + B) == Net(E, A) + Net(E, B)
  {
    SumLinear(E, (e: Edge) => NetTerm(A + B, e),
              1, (e: Edge) => NetTerm(A, e),
              1, (e: Edge) => NetTerm(B, e));
  }

  lemma NetOfNone(E: set<Edge>)
    ensures Net(E, {}) == 0
  {
    var f := (e: Edge) => NetTerm({}, e);
    SumLinear(E, f, 0, f, 0, f);
  }

  lemma NetPick(E: set<Edge>, S: set<Node>, e: Edge)
    requires e in E
    ensures Net(E, S) == e.weight * (Ind(S, e.v) - Ind(S, e.w)) + Net(E - {e}, S)
  {
    SumPick(E, (e: Edge) => NetTerm(S, e), e);
  }

  /** Only the edges at c count towards Net of {c}. */
  lemma NetOfOne(E: set<Edge>, F: set<Edge>, c: Node)
    requires F <= E && forall e :: e in E - F ==> e.v != c && e.w != c
    ensures Net(E, {c}) == Net(F, {c})
  {
    var f := (e: Edge) => NetTerm({c}, e);
    SumUnion(F, E - F, f);
    assert F + (E - F) == E;
    SumLinear(E - F, f, 0, f, 0, f);
  }

  // ----- cut values -----

  /** Each tree edge is a graph edge in one direction or the other. */
  ghost predicate TreeInGraph(E: set<Edge>, T: set<Pair>) {
    forall p :: p in T ==> exists e :: e in E && Und(e.v, e.w) == p
  }

  /** The side of the tree edge above c that holds the tail of its graph edge, and the other side. */
  ghost function TailSide(rt: Rooting, E: set<Edge>, c: Node): set<Node>
    requires rt.Valid() && c in rt.nodes && c != rt.root
  {
    if HasEdge(E, c, rt.Parent(c)) then rt.Subtree(c) else rt.nodes - rt.Subtree(c)
  }

  ghost function HeadSide(rt: Rooting, E: set<Edge>, c: Node): set<Node>
    requires rt.Valid() && c in rt.nodes && c != rt.root
  {
    rt.nodes - TailSide(rt, E, c)
  }

  /** The weight from the tail side to the head side less the weight crossing back. */
  ghost function CutValue(rt: Rooting, E: set<Edge>, c: Node): int
    requires rt.Valid() && c in rt.nodes && c != rt.root
  {
    Flow(E, TailSide(rt, E, c), HeadSide(rt, E, c)) - Flow(E, HeadSide(rt, E, c), TailSide(rt, E, c))
  }

  ghost function Sign(rt: Rooting, E: set<Edge>, c: Node): int
    requires rt.Valid() && c in rt.nodes && c != rt.root
  {
    if HasEdge(E, c, rt.Parent(c)) then 1 else -1
  }

  lemma CutValueIsNet(rt: Rooting, E: set<Edge>, c: Node)
    requires rt.Valid() && c in rt.nodes && c != rt.root
    requires forall e :: e in E ==> e.v in rt.nodes && e.w in rt.nodes
    ensures CutValue(rt, E, c) == Sign(rt, E, c) * Net(E, rt.Subtree(c))
  {
    var S := rt.Subtree(c);
    NetIsFlow(rt.nodes, E, S);
    assert rt.nodes - (rt.nodes - S) == S;
  }

  // ----- the cost of a ranking -----

  function RankOf(rank: map<Node, int>, x: Node): int {
    if x in rank then rank[x] else 0
  }

  ghost function CostTerm(rank: map<Node, int>, e: Edge): int {
    e.weight * (RankOf(rank, e.w) - RankOf(rank, e.v))
  }

  /** The quantity the ranking is to minimise: weight times length, over all edges. */
  ghost function Cost(E: set<Edge>, rank: map<Node, int>): int {
    Sum(E, (e: Edge) => CostTerm(rank, e))
  }

  ghost function IsBelow(rt: Rooting, c: Node, x: Node): int {
    if rt.Valid() && x in rt.nodes && rt.Below(c, x) then 1 else 0
  }

  /** How far the parent of c ranks after c. */
  ghost function Rise(rt: Rooting, rank: map<Node, int>, c: Node): int {
    if rt.Valid() && c in rt.nodes && c != rt.root then RankOf(rank, rt.Parent(c)) - RankOf(rank, c) else 0
  }

  lemma {:induction false} SumDelta(s: set<Node>, v: Node, k: int)
    requires v in s
    ensures Sum(s, (c: Node) => if c == v then k else 0) == k
  {
    var f := (c: Node) => if c == v then k else 0;
    SumPick(s, f, v);
    SumLinear(s - {v}, f, 0, f, 0, f);
  }

  /** The rise at c, if c lies on the path from x to the root. */
  ghost function RiseAbove(rt: Rooting, rank: map<Node, int>, x: Node, c: Node): int {
    IsBelow(rt, c, x) * Rise(rt, rank, c)
  }

  lemma RiseAboveParent(rt: Rooting, rank: map<Node, int>, x: Node, c: Node)
    requires rt.Valid() && c in rt.nodes && x in rt.nodes && x != rt.root
    ensures RiseAbove(rt, rank, x, c) == RiseAbove(rt, rank, rt.Parent(x), c) + if c == x then Rise(rt, rank, x) else 0
  {
    if c == x && rt.Below(x, rt.Parent(x)) { rt.BelowLim(x, rt.Parent(x)); }
  }

  ghost function PathRise(rt: Rooting, rank: map<Node, int>, x: Node): int {
    Sum(rt.nodes - {rt.root}, (c: Node) => RiseAbove(rt, rank, x, c))
  }

  lemma PathRiseOfParent(rt: Rooting, rank: map<Node, int>, x: Node)
    requires rt.Valid() && x in rt.nodes && x != rt.root
    ensures PathRise(rt, rank, x) == PathRise(rt, rank, rt.Parent(x)) + Rise(rt, rank, x)
  {
    var N, p, k := rt.nodes - {rt.root}, rt.Parent(x), Rise(rt, rank, x);
    var f, g := (c: Node) => RiseAbove(rt, rank, x, c), (c: Node) => RiseAbove(rt, rank, p, c);
    var d := (c: Node) => if c == x then k else 0;
    forall c | c in N ensures f(c) == g(c) + d(c) {
      RiseAboveParent(rt, rank, x, c);
    }
    SumLinear(N, f, 1, g, 1, d);
    SumDelta(N, x, k);
  }

  /** The rises along the path from x to the root add up. */
  lemma {:induction false} Telescope(rt: Rooting, rank: map<Node, int>, x: Node)
    requires rt.Valid() && x in rt.nodes
    ensures PathRise(rt, rank, x) == RankOf(rank, rt.root) - RankOf(rank, x)
    decreases rt.labels[rt.root].lim - rt.labels[x].lim
  {
    if x == rt.root {
      var f := (c: Node) => RiseAbove(rt, rank, x, c);
      SumLinear(rt.nodes - {rt.root}, f, 0, f, 0, f);
    } else {
      PathRiseOfParent(rt, rank, x);
      Telescope(rt, rank, rt.Parent(x));
    }
  }

  ghost function NetRise(rt: Rooting, E: set<Edge>, rank: map<Node, int>, c: Node): int {
    NetBelow(rt, E, c) * Rise(rt, rank, c)
  }

  lemma NetRisePick(rt: Rooting, E: set<Edge>, rank: map<Node, int>, e: Edge, c: Node)
    requires rt.Valid() && e in E && e.v in rt.nodes && e.w in rt.nodes
    ensures NetRise(rt, E, rank, c) ==
      NetRise(rt, E - {e}, rank, c) + e.weight * (RiseAbove(rt, rank, e.v, c) - RiseAbove(rt, rank, e.w, c))
  {
    NetPick(E, rt.Subtree(c), e);
    Distribute(NetBelow(rt, E - {e}, c), e.weight, IsBelow(rt, c, e.v), IsBelow(rt, c, e.w), Rise(rt, rank, c));
  }

  lemma NetRiseSum(rt: Rooting, E: set<Edge>, rank: map<Node, int>, e: Edge)
    requires rt.Valid() && e in E && e.v in rt.nodes && e.w in rt.nodes
    ensures Sum(rt.nodes - {rt.root}, (c: Node) => NetRise(rt, E, rank, c))
         == Sum(rt.nodes - {rt.root}, (c: Node) => NetRise(rt, E - {e}, rank, c))
            + e.weight * (PathRise(rt, rank, e.v) - PathRise(rt, rank, e.w))
  {
    var N := rt.nodes - {rt.root};
    var tail, head := (c: Node) => RiseAbove(rt, rank, e.v, c), (c: Node) => RiseAbove(rt, rank, e.w, c);
    var h, rest := (c: Node) => NetRise(rt, E, rank, c), (c: Node) => NetRise(rt, E - {e}, rank, c);
    forall c | c in N ensures h(c) == rest(c) + e.weight * (tail(c) - head(c)) {
      NetRisePick(rt, E, rank, e, c);
    }
    SumDifference(N, h, rest, e.weight, tail, head);
  }

  lemma CostPick(E: set<Edge>, rank: map<Node, int>, e: Edge)
    requires e in E
    ensures Cost(E, rank) == Cost(E - {e}, rank) + e.weight * (RankOf(rank, e.w) - RankOf(rank, e.v))
  {
    SumPick(E, (e: Edge) => CostTerm(rank, e), e);
  }

  /** Any ranking costs what the tree edges cost it: the net weights over the subtrees, times the rises. */
  lemma {:induction false} CostOverTree(rt: Rooting, E: set<Edge>, rank: map<Node, int>)
    requires rt.Valid() && forall e :: e in E ==> e.v in rt.nodes && e.w in rt.nodes
    ensures Cost(E, rank) == Sum(rt.nodes - {rt.root}, (c: Node) => NetRise(rt, E, rank, c))
    decreases E
  {
    if E == {} {
      var h := (c: Node) => NetRise(rt, E, rank, c);
      SumLinear(rt.nodes - {rt.root}, h, 0, h, 0, h);
    } else {
      var e :| e in E;
      CostOverTree(rt, E - {e}, rank);
      NetRiseSum(rt, E, rank, e);
      CostPick(E, rank, e);
      Telescope(rt, rank, e.v);
      Telescope(rt, rank, e.w);
      assert PathRise(rt, rank, e.v) - PathRise(rt, rank, e.w) == RankOf(rank, e.w) - RankOf(rank, e.v);
    }
  }

  lemma Distribute(n: int, w: int, a: int, b: int, r: int)
    ensures (w * (a - b) + n) * r == n * r + w * (a * r - b * r)
  {
    assert w * (a - b) * r == w * ((a - b) * r);
  }

  ghost function NetBelow(rt: Rooting, E: set<Edge>, c: Node): int {
    if rt.Valid() then Net(E, rt.Subtree(c)) else 0
  }

  /** The length of the tree edge above c, tail to head. */
  ghost function TreeLength(rt: Rooting, E: set<Edge>, rank: map<Node, int>, c: Node): int
    requires rt.Valid() && c in rt.nodes && c != rt.root
  {
    Sign(rt, E, c) * Rise(rt, rank, c)
  }

  ghost function TreeCost(rt: Rooting, E: set<Edge>, rank: map<Node, int>, c: Node): int {
    if rt.Valid() && c in rt.nodes && c != rt.root then CutValue(rt, E, c) * TreeLength(rt, E, rank, c) else 0
  }

  /** The cost of any ranking is the sum over the tree edges of cut value times tree-edge length. */
  lemma CostIsCutValuesTimesLengths(rt: Rooting, E: set<Edge>, rank: map<Node, int>)
    requires rt.Valid() && forall e :: e in E ==> e.v in rt.nodes && e.w in rt.nodes
    ensures Cost(E, rank) == Sum(rt.nodes - {rt.root}, (c: Node) => TreeCost(rt, E, rank, c))
  {
    CostOverTree(rt, E, rank);
    var N := rt.nodes - {rt.root};
    var f := (c: Node) => NetRise(rt, E, rank, c);
    var g := (c: Node) => TreeCost(rt, E, rank, c);
    forall c | c in N ensures f(c) == g(c) {
      TreeCostIsNet(rt, E, rank, c);
    }
    SumCong(N, f, g);
  }

  lemma TreeCostIsNet(rt: Rooting, E: set<Edge>, rank: map<Node, int>, c: Node)
    requires rt.Valid() && c in rt.nodes && c != rt.root && forall e :: e in E ==> e.v in rt.nodes && e.w in rt.nodes
    ensures TreeCost(rt, E, rank, c) == NetRise(rt, E, rank, c)
  {
    CutValueIsNet(rt, E, c);
    SignsCancel(Sign(rt, E, c), NetBelow(rt, E, c), Rise(rt, rank, c));
  }

  lemma SignsCancel(s: int, n: int, r: int)
    requires s == 1 || s == -1
    ensures (s * n) * (s * r) == n * r
  {
  }

  /** Optimality at exit: with no negative cut value, the ranking whose tree edges are all tight costs
      no more than any feasible ranking whatever. */
  lemma NoNegativeCutIsOptimal(rt: Rooting, E: set<Edge>, rank: map<Node, int>, other: map<Node, int>)
    requires rt.Valid() && Simple(rt.nodes, E)
    requires Feasible(rt.nodes, E, rank) && Tight(E, rank, rt.edges)
    requires forall c :: c in rt.nodes && c != rt.root ==> CutValue(rt, E, c) >= 0
    requires Feasible(rt.nodes, E, other)
    ensures Cost(E, rank) <= Cost(E, other)
  {
    CostIsCutValuesTimesLengths(rt, E, rank);
    CostIsCutValuesTimesLengths(rt, E, other);
    var f, g := (c: Node) => TreeCost(rt, E, rank, c), (c: Node) => TreeCost(rt, E, other, c);
    forall c | c in rt.nodes - {rt.root} ensures f(c) <= g(c) {
      TightIsShortest(rt, E, rank, other, c);
      MulMonotone(CutValue(rt, E, c), TreeLength(rt, E, rank, c), TreeLength(rt, E, other, c));
    }
    SumMonotone(rt.nodes - {rt.root}, f, g);
  }

  lemma MulMonotone(k: int, a: int, b: int)
    requires k >= 0 && a <= b
    ensures k * a <= k * b
  {
  }

  lemma TightIsShortest(rt: Rooting, E: set<Edge>, rank: map<Node, int>, other: map<Node, int>, c: Node)
    requires rt.Valid() && Simple(rt.nodes, E) && c in rt.nodes && c != rt.root
    requires Feasible(rt.nodes, E, rank) && Tight(E, rank, rt.edges) && Feasible(rt.nodes, E, other)
    ensures TreeLength(rt, E, rank, c) <= TreeLength(rt, E, other, c)
  {
    var p := rt.Parent(c);
    assert TightPair(E, rank, Und(c, p));
    var e :| e in E && Und(e.v, e.w) == Und(c, p) && Slack(rank, e) == 0;
    assert Slack(other, e) >= 0;
    if HasEdge(E, c, p) {
      var f :| f in E && f.v == c && f.w == p;
      assert e == f;
    }
  }
}
