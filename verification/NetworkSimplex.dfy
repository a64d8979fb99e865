/** Ranking by network simplex: every pivot keeps a tight spanning tree with exact cut values and never
    raises the cost, and the ranks it stops at are optimal. */
module NetworkSimplex {
  import opened Graphs
  import opened Sums
  import opened Ranking
  import opened TreeLabels
  import opened Traversal
  import opened CutValues
  import opened CutValueInit
  import opened Pivot
  import opened PivotRuns

  /** A graph the ranker may be given: simple, connected, with no negative weight; order lists its nodes. */
  ghost predicate Rankable(g: LayoutGraph, order: seq<Node>) {
    && Simple(g.nodes, g.edges) && Connected(g.nodes, g.edges)
    && (forall e :: e in g.edges ==> e.weight >= 0)
    && order != [] && (forall v :: v in order <==> v in g.nodes)
  }

  /** What holds between pivots. */
  ghost predicate Optimizing(t: TreeGraph, g: LayoutGraph, root: Node)
    reads t, g
  {
    && t.nodes == g.nodes && SpanningTree(t.nodes, t.edges)
    && Feasible(g.nodes, g.edges, g.rank) && Tight(g.edges, g.rank, t.edges)
    && TreeOf(t, root).Valid() && TreeOf(t, root).IntervalsExact()
    && CutsExact(TreeOf(t, root), g.edges, t.cutvalue)
  }

  lemma TightIsInGraph(E: set<Edge>, rank: map<Node, int>, T: set<Pair>)
    requires Tight(E, rank, T)
    ensures TreeInGraph(E, T)
  {
    forall p | p in T ensures exists e :: e in E && Und(e.v, e.w) == p {
      assert TightPair(E, rank, p);
    }
  }

  /** Sets up the labels and the cut values of a fresh or changed tree. */
  method InitLabelsAndCuts(t: TreeGraph, g: LayoutGraph, order: seq<Node>)
    requires Rankable(g, order) && t.nodes == g.nodes && SpanningTree(t.nodes, t.edges)
    requires TreeInGraph(g.edges, t.edges) && t.labels.Keys <= t.nodes && t.cutvalue.Keys <= t.edges
    modifies t`labels, t`cutvalue
    ensures TreeOf(t, order[0]).Valid() && TreeOf(t, order[0]).IntervalsExact()
    ensures CutsExact(TreeOf(t, order[0]), g.edges, t.cutvalue)
  {
    InitLowLimValues(t, order[0]);
    InitCutValues(t, g, order, TreeOf(t, order[0]));
  }

  // ----- leaveEdge and enterEdge -----

  method LeaveEdge(t: TreeGraph) returns (e: Option<Pair>)
    requires t.cutvalue.Keys == t.edges
    ensures e.Some? ==> e.value in t.edges && t.cutvalue[e.value] < 0
    ensures e.None? ==> forall p :: p in t.edges ==> t.cutvalue[p] >= 0
  {
    var todo := t.edges;
    while todo != {}
      invariant todo <= t.edges
      invariant forall p :: p in t.edges - todo ==> t.cutvalue[p] >= 0
      decreases todo
    {
      var p :| p in todo;
      if t.cutvalue[p] < 0 { return Some(p); }
      todo := todo - {p};
    }
    assert t.edges - todo == t.edges;
    e := None;
  }

  function IsCandidate(t: TreeGraph, flip: bool, tailLabel: Label, e: Edge): bool
    requires e.v in t.labels && e.w in t.labels
    reads t
  {
    flip == IsDescendant(t.labels[e.v], tailLabel) && flip != IsDescendant(t.labels[e.w], tailLabel)
  }

  /** The interval test on labels picks exactly the edges from the head side to the tail side. */
  lemma CandidatesAreEntries(t: TreeGraph, g: LayoutGraph, root: Node, c: Node, flip: bool, tailLabel: Label, e: Edge)
    requires Optimizing(t, g, root) && Simple(g.nodes, g.edges)
    requires c in t.nodes && c != root && tailLabel == t.labels[c] && e in g.edges
    requires flip <==> !HasEdge(g.edges, c, TreeOf(t, root).Parent(c))
    ensures IsCandidate(t, flip, tailLabel, e) <==>
      e.v in HeadSide(TreeOf(t, root), g.edges, c) && e.w in TailSide(TreeOf(t, root), g.edges, c)
  {
    var rt := TreeOf(t, root);
    assert IsDescendant(t.labels[e.v], t.labels[c]) <==> rt.Below(c, e.v);
    assert IsDescendant(t.labels[e.w], t.labels[c]) <==> rt.Below(c, e.w);
  }

  /** The end of a tree edge that enterEdge takes for its subtree is the child end. */
  lemma LowerEndIsChild(rt: Rooting, E: set<Edge>, c: Node, v: Node, w: Node)
    requires rt.Valid() && Simple(rt.nodes, E) && c in rt.nodes && c != rt.root
    requires Und(v, w) == Und(c, rt.Parent(c)) && HasEdge(E, v, w)
    ensures v in rt.nodes && w in rt.nodes
    ensures rt.labels[v].lim > rt.labels[w].lim <==> w == c
    ensures w != c ==> v == c
    ensures HasEdge(E, c, rt.Parent(c)) <==> v == c
  {
    assert (v == c && w == rt.Parent(c)) || (w == c && v == rt.Parent(c));
  }

  method EnterEdge(t: TreeGraph, g: LayoutGraph, edge: Pair, ghost root: Node, ghost c: Node) returns (f: Edge)
    requires Optimizing(t, g, root) && Simple(g.nodes, g.edges)
    requires forall e :: e in g.edges ==> e.weight >= 0
    requires edge in t.edges && t.cutvalue[edge] < 0
    requires c in t.nodes && c != root && Und(c, TreeOf(t, root).Parent(c)) == edge
    ensures Enters(TreeOf(t, root), g.edges, g.rank, c, f)
  {
    ghost var rt := TreeOf(t, root);
    assert TightPair(g.edges, g.rank, edge);
    assert edge.a.id < edge.b.id;
    var v, w := edge.a, edge.b;
    if !HasEdge(g.edges, v, w) {
      v, w := edge.b, edge.a;
    }
    LowerEndIsChild(rt, g.edges, c, v, w);
    var vLabel, wLabel := t.labels[v], t.labels[w];
    var tailLabel, flip := vLabel, false;
    if vLabel.lim > wLabel.lim {
      tailLabel, flip := wLabel, true;
    }
    forall e | e in g.edges
      ensures IsCandidate(t, flip, tailLabel, e) <==> e.v in HeadSide(rt, g.edges, c) && e.w in TailSide(rt, g.edges, c)
    {
      CandidatesAreEntries(t, g, root, c, flip, tailLabel, e);
    }
    assert CutKnown(rt, g.edges, t.cutvalue, c);
    NegativeCutHasEntry(rt, g.edges, c);
    f := MinSlackCandidate(t, g, flip, tailLabel);
  }

  method MinSlackCandidate(t: TreeGraph, g: LayoutGraph, flip: bool, tailLabel: Label) returns (f: Edge)
    requires t.labels.Keys == g.nodes == g.rank.Keys && forall e :: e in g.edges ==> e.v in g.nodes && e.w in g.nodes
    requires exists e :: e in g.edges && IsCandidate(t, flip, tailLabel, e)
    ensures f in g.edges && IsCandidate(t, flip, tailLabel, f)
    ensures forall e :: e in g.edges && IsCandidate(t, flip, tailLabel, e) ==> Slack(g.rank, f) <= Slack(g.rank, e)
  {
    var best: Option<Edge> := None;
    var todo := g.edges;
    while todo != {}
      invariant todo <= g.edges
      invariant best.Some? ==> best.value in g.edges && IsCandidate(t, flip, tailLabel, best.value)
      invariant forall e :: e in g.edges - todo && IsCandidate(t, flip, tailLabel, e) ==>
        best.Some? && Slack(g.rank, best.value) <= Slack(g.rank, e)
      decreases todo
    {
      var e :| e in todo;
      todo := todo - {e};
      if IsCandidate(t, flip, tailLabel, e) && (best.None? || Slack(g.rank, e) < Slack(g.rank, best.value)) {
        best := Some(e);
      }
    }
    assert g.edges - todo == g.edges;
    f := best.value;
  }

  // ----- exchangeEdges -----

  /** The ranks of the first i nodes of the preorder are tight along the tree. */
  ghost predicate TightUpTo(rt: Rooting, E: set<Edge>, rank: map<Node, int>, vs: seq<Node>, i: nat)
    requires rt.Valid() && i <= |vs|
  {
    forall j :: 1 <= j < i ==> TightAt(rt, E, rank, vs[j])
  }

  ghost predicate TightAt(rt: Rooting, E: set<Edge>, rank: map<Node, int>, x: Node)
    requires rt.Valid()
  {
    x in rt.nodes && x != rt.root && TightPair(E, rank, Und(x, rt.Parent(x)))
  }

  /** At position i of the walk, what comes before does not hang from vs[i]. */
  ghost predicate Placeable(rt: Rooting, vs: seq<Node>, i: nat)
    requires rt.Valid()
  {
    && i < |vs| && vs[i] in rt.nodes && vs[i] != rt.root && rt.Parent(vs[i]) != vs[i]
    && (forall j :: 1 <= j < i ==> vs[j] in rt.nodes && vs[j] != rt.root && rt.Parent(vs[j]) != vs[i] && vs[j] != vs[i])
  }

  lemma ParentsComeFirst(rt: Rooting, vs: seq<Node>, i: nat)
    requires rt.Valid() && Listing(rt, vs, rt.nodes, false) && 1 <= i < |vs| && vs[0] == rt.root
    ensures Placeable(rt, vs, i)
  {
    assert vs[i] in vs;
    forall j | 1 <= j < i ensures vs[j] in rt.nodes && vs[j] != rt.root && rt.Parent(vs[j]) != vs[i] && vs[j] != vs[i] {
      assert vs[j] in vs;
      assert !rt.IsChild(vs[j], vs[i]);
    }
  }

  lemma MoveElsewhere(rt: Rooting, E: set<Edge>, rank: map<Node, int>, x: Node, y: Node, r: int)
    requires rt.Valid() && TightAt(rt, E, rank, x) && y != x && y != rt.Parent(x)
    ensures TightAt(rt, E, rank[y := r], x)
  {
    var f :| f in E && Und(f.v, f.w) == Und(x, rt.Parent(x)) && f.v in rank && f.w in rank && Slack(rank, f) == 0;
    assert Slack(rank[y := r], f) == 0;
  }

  lemma MovedHere(rt: Rooting, E: set<Edge>, rank: map<Node, int>, x: Node, e: Edge, r: int)
    requires rt.Valid() && rank.Keys == rt.nodes && x in rt.nodes && x != rt.root && x != rt.Parent(x)
    requires e in E && Und(e.v, e.w) == Und(x, rt.Parent(x))
    requires r == rank[rt.Parent(x)] + if e.v == x then -e.minlen else e.minlen
    ensures TightAt(rt, E, rank[x := r], x)
  {
    assert Slack(rank[x := r], e) == 0;
  }

  lemma TightOneMore(rt: Rooting, E: set<Edge>, rank: map<Node, int>, vs: seq<Node>, i: nat, e: Edge, r: int)
    requires rt.Valid() && Simple(rt.nodes, E) && rank.Keys == rt.nodes
    requires Placeable(rt, vs, i) && TightUpTo(rt, E, rank, vs, i)
    requires e in E && Und(e.v, e.w) == Und(vs[i], rt.Parent(vs[i]))
    requires r == rank[rt.Parent(vs[i])] + if e.v == vs[i] then -e.minlen else e.minlen
    ensures TightUpTo(rt, E, rank[vs[i] := r], vs, i + 1)
  {
    var rank' := rank[vs[i] := r];
    forall j | 1 <= j < i + 1 ensures TightAt(rt, E, rank', vs[j]) {
      if j < i {
        assert TightAt(rt, E, rank, vs[j]);
        MoveElsewhere(rt, E, rank, vs[j], vs[i], r);
      } else {
        MovedHere(rt, E, rank, vs[i], e, r);
      }
    }
  }

  lemma AllTight(rt: Rooting, E: set<Edge>, rank: map<Node, int>, vs: seq<Node>)
    requires rt.Valid() && PairsOf(rt.nodes, rt.edges) && Listing(rt, vs, rt.nodes, false)
    requires vs != [] && vs[0] == rt.root && TightUpTo(rt, E, rank, vs, |vs|)
    ensures Tight(E, rank, rt.edges)
  {
    forall p | p in rt.edges ensures TightPair(E, rank, p) {
      var c := ChildEnd(rt, p);
      assert c in vs;
      var k :| 0 <= k < |vs| && vs[k] == c;
      assert TightAt(rt, E, rank, vs[k]);
    }
  }

  /** The root keeps its rank; every other node is placed a minimum length from its parent. */
  method UpdateRanks(t: TreeGraph, g: LayoutGraph, order: seq<Node>, ghost rt: Rooting)
    requires rt.Valid() && rt == TreeOf(t, rt.root) && rt.nodes == g.nodes && PairsOf(t.nodes, t.edges)
    requires Simple(g.nodes, g.edges) && TreeInGraph(g.edges, t.edges) && g.rank.Keys == g.nodes
    requires order != [] && order[0] == rt.root && forall v :: v in order ==> v in t.nodes
    modifies g`rank
    ensures g.rank.Keys == g.nodes && g.rank[rt.root] == old(g.rank[rt.root])
    ensures Tight(g.edges, g.rank, t.edges)
  {
    var vs := Dfs(t, order, false, rt);
    for i := 1 to |vs|
      invariant g.rank.Keys == g.nodes && g.rank[rt.root] == old(g.rank[rt.root])
      invariant TightUpTo(rt, g.edges, g.rank, vs, i)
    {
      ParentsComeFirst(rt, vs, i);
      ghost var p := rt.Parent(vs[i]);
      EdgeToParent(rt, g.edges, vs[i]);
      PlaceNode(t, g, vs, i, rt);
    }
    AllTight(rt, g.edges, g.rank, vs);
  }

  method PlaceNode(t: TreeGraph, g: LayoutGraph, vs: seq<Node>, i: nat, ghost rt: Rooting)
    requires rt.Valid() && rt == TreeOf(t, rt.root) && rt.nodes == g.nodes
    requires Simple(g.nodes, g.edges) && g.rank.Keys == g.nodes
    requires Placeable(rt, vs, i) && TightUpTo(rt, g.edges, g.rank, vs, i)
    requires HasEdge(g.edges, vs[i], rt.Parent(vs[i])) || HasEdge(g.edges, rt.Parent(vs[i]), vs[i])
    modifies g`rank
    ensures g.rank.Keys == g.nodes && g.rank[rt.root] == old(g.rank[rt.root])
    ensures TightUpTo(rt, g.edges, g.rank, vs, i + 1)
  {
    var v := vs[i];
    ghost var p := rt.Parent(v);
    var parent := t.labels[v].parent.value;
    var edge: Edge;
    var flipped := false;
    if HasEdge(g.edges, v, parent) {
      edge :| edge in g.edges && edge.v == v && edge.w == parent;
    } else {
      edge :| edge in g.edges && edge.v == parent && edge.w == v;
      flipped := true;
    }
    var r := g.rank[parent] + if flipped then edge.minlen else -edge.minlen;
    TightOneMore(rt, g.edges, g.rank, vs, i, edge, r);
    UpdateKeepsKeys(g.rank, v, r);
    g.rank := g.rank[v := r];
  }

  method SwapTreeEdge(t: TreeGraph, g: LayoutGraph, e: Pair, f: Edge, order: seq<Node>, ghost T: set<Pair>)
    requires Rankable(g, order) && t.nodes == g.nodes && t.labels.Keys <= t.nodes && t.cutvalue.Keys <= t.edges
    requires T == t.edges - {e} + {Und(f.v, f.w)} && SpanningTree(g.nodes, T) && TreeInGraph(g.edges, T)
    modifies t`edges, t`labels, t`cutvalue
    ensures t.edges == T && TreeOf(t, order[0]).Valid() && TreeOf(t, order[0]).IntervalsExact()
    ensures CutsExact(TreeOf(t, order[0]), g.edges, t.cutvalue)
  {
    t.edges := t.edges - {e} + {Und(f.v, f.w)};
    t.cutvalue := t.cutvalue - {e};
    InitLabelsAndCuts(t, g, order);
  }

  /** One pivot: c's edge to its parent leaves, f enters. The tree is a tight spanning tree again with
      exact labels and cut values, the ranks stay feasible, and the cost changes by the leaving cut
      value times the entering slack. */
  method ExchangeEdges(t: TreeGraph, g: LayoutGraph, e: Pair, f: Edge, order: seq<Node>, ghost c: Node)
    requires Rankable(g, order) && Optimizing(t, g, order[0])
    requires c in t.nodes && c != order[0] && Und(c, TreeOf(t, order[0]).Parent(c)) == e
    requires Enters(TreeOf(t, order[0]), g.edges, g.rank, c, f) && t.cutvalue[e] < 0
    modifies t`edges, t`labels, t`cutvalue, g`rank
    ensures Optimizing(t, g, order[0]) == true
    ensures t.edges == old(t.edges) - {e} + {Und(f.v, f.w)}
    ensures Cost(g.edges, g.rank) == old(Cost(g.edges, g.rank) + t.cutvalue[e] * Slack(g.rank, f))
    ensures Cost(g.edges, g.rank) <= old(Cost(g.edges, g.rank))
    ensures g.rank == Shifted(old(g.rank), old(TreeOf(t, order[0])).Subtree(c),
                              Shift(old(TreeOf(t, order[0])), old(g.rank), c, f))
  {
    ghost var rt, rank := TreeOf(t, order[0]), g.rank;
    assert CutKnown(rt, g.edges, t.cutvalue, c);
    ExchangeGivesTree(rt, g.edges, rank, c, f);
    SwapTreeEdge(t, g, e, f, order, Exchanged(rt, c, f));
    ghost var rt' := TreeOf(t, order[0]);
    UpdateRanks(t, g, order, rt');
    ExchangeGivesRanks(rt, g.edges, rank, c, f, rt', g.rank);
  }

  lemma ExchangeGivesTree(rt: Rooting, E: set<Edge>, rank: map<Node, int>, c: Node, f: Edge)
    requires rt.Valid() && SpanningTree(rt.nodes, rt.edges) && Simple(rt.nodes, E) && c in rt.nodes && c != rt.root
    requires Feasible(rt.nodes, E, rank) && Tight(E, rank, rt.edges) && Enters(rt, E, rank, c, f)
    ensures SpanningTree(rt.nodes, Exchanged(rt, c, f)) && TreeInGraph(E, Exchanged(rt, c, f))
  {
    EntersCrosses(rt, E, rank, c, f);
    ExchangeKeepsTree(rt, c, f);
    ShiftIsTight(rt, E, rank, c, f);
    TightIsInGraph(E, Shifted(rank, rt.Subtree(c), Shift(rt, rank, c, f)), Exchanged(rt, c, f));
  }

  lemma ExchangeGivesRanks(rt: Rooting, E: set<Edge>, rank: map<Node, int>, c: Node, f: Edge, rt': Rooting,
                           rank': map<Node, int>)
    requires rt.Valid() && PairsOf(rt.nodes, rt.edges) && Simple(rt.nodes, E) && c in rt.nodes && c != rt.root
    requires Feasible(rt.nodes, E, rank) && Tight(E, rank, rt.edges) && Enters(rt, E, rank, c, f)
    requires rt'.Valid() && rt'.nodes == rt.nodes && rt'.root == rt.root && rt'.edges == Exchanged(rt, c, f)
    requires rank'.Keys == rt.nodes && Tight(E, rank', rt'.edges) && rank'[rt.root] == rank[rt.root]
    ensures Feasible(rt.nodes, E, rank')
    ensures Cost(E, rank') == Cost(E, rank) + CutValue(rt, E, c) * Slack(rank, f)
    ensures CutValue(rt, E, c) <= 0 ==> Cost(E, rank') <= Cost(E, rank)
    ensures rank' == Shifted(rank, rt.Subtree(c), Shift(rt, rank, c, f))
  {
    EntersCrosses(rt, E, rank, c, f);
    NewRanksAreShifted(rt, E, rank, c, f, rt', rank');
    PivotKeepsFeasible(rt, E, rank, c, f);
    PivotCost(rt, E, rank, c, f);
    if CutValue(rt, E, c) <= 0 { ProductSign(CutValue(rt, E, c), Slack(rank, f)); }
  }

  lemma ProductSign(k: int, d: int)
    requires k <= 0 && d >= 0
    ensures k * d <= 0
  {
  }

  // ----- networkSimplex -----

  /** The costs before and after every pivot. */
  ghost predicate Falling(costs: seq<int>) {
    costs != [] && forall i :: 0 < i < |costs| ==> costs[i] <= costs[i - 1]
  }

  lemma FallsOn(costs: seq<int>, cost: int)
    requires Falling(costs) && cost <= costs[|costs| - 1]
    ensures Falling(costs + [cost])
  {
  }

  /** The tree, its cut values and the ranks as they are now. */
  ghost function StageOf(t: TreeGraph, g: LayoutGraph, root: Node): Stage
    reads t, g
  {
    Stage(TreeOf(t, root), t.cutvalue, g.rank)
  }

  lemma IsInOrder(t: TreeGraph, g: LayoutGraph, root: Node)
    requires Optimizing(t, g, root) == true
    ensures InOrder(g.nodes, g.edges, StageOf(t, g, root)) == true
  {
  }

  /** Nothing moves without end: if every swap moves something, a run of more rounds than its first cost lies above
      the cost of some optimal ranking has stopped by itself. */
  ghost predicate StopsInTime(V: set<Node>, E: set<Edge>, run: Run, rounds: nat, finished: bool) {
    forall best {:trigger IsOptimal(V, E, best)} ::
      IsOptimal(V, E, best) && AllMove(run) && rounds > Cost(E, StartOf(run).rank) - Cost(E, best) ==> finished
  }

  lemma LongRunsStop(V: set<Node>, E: set<Edge>, run: Run, rounds: nat, finished: bool)
    requires Simple(V, E) && IsRun(V, E, run) == true && (!finished ==> Length(run) == rounds)
    ensures StopsInTime(V, E, run, rounds, finished)
  {
    forall best | IsOptimal(V, E, best) && AllMove(run) && rounds > Cost(E, StartOf(run).rank) - Cost(E, best)
      ensures finished {
      RunIsBounded(V, E, run, best);
    }
  }

  /** No degenerate-pivot rule bounds the number of rounds, so the rounds to make are given. Each round is a swap, and
      the loop stops before the rounds are over only at a tree without negative cut values; then no feasible ranking
      costs less. */
  method Run(g: LayoutGraph, order: seq<Node>, rounds: nat, ghost topo: map<Node, int>)
    returns (t: TreeGraph, finished: bool, ghost costs: seq<int>, ghost run: PivotRuns.Run)
    requires Rankable(g, order) && IsTopological(g.nodes, g.edges, topo) && g.rank.Keys <= g.nodes
    modifies g`rank
    ensures fresh(t) && Optimizing(t, g, order[0]) == true
    ensures IsRun(g.nodes, g.edges, run) == true && run.s == StageOf(t, g, order[0]) && costs == Costs(g.edges, run)
    ensures Length(run) <= rounds && (!finished ==> Length(run) == rounds)
    ensures StopsInTime(g.nodes, g.edges, run, rounds, finished)
    ensures Falling(costs) && costs[|costs| - 1] == Cost(g.edges, g.rank) && |costs| == Length(run) + 1
    ensures finished ==> forall p :: p in t.edges ==> t.cutvalue[p] >= 0
    ensures finished ==>
      forall other :: Feasible(g.nodes, g.edges, other) ==> Cost(g.edges, g.rank) <= Cost(g.edges, other)
  {
    t := StartTree(g, order, topo);
    assert Going(t, g, order);
    finished, costs, run := Pivoting(t, g, order, rounds);
    assert Look(0);
    if finished { StopsAtOptimum(t, g, order[0]); }
    LongRunsStop(g.nodes, g.edges, run, rounds, finished);
  }

  /** What the loop rests on. */
  ghost predicate Going(t: TreeGraph, g: LayoutGraph, order: seq<Node>)
    reads t, g
  {
    forall k {:trigger Look(k)} :: Look(k) ==> Rankable(g, order) && Optimizing(t, g, order[0])
  }

  lemma StartRecord(t: TreeGraph, g: LayoutGraph, order: seq<Node>)
    requires Going(t, g, order) && order != []
    ensures Recorded(g.nodes, g.edges, StageOf(t, g, order[0]), Begin(StageOf(t, g, order[0])),
                     [Cost(g.edges, g.rank)], 0, false) == true
  {
    assert Look(0);
    IsInOrder(t, g, order[0]);
  }

  /** The loop: one round after the other. */
  method Pivoting(t: TreeGraph, g: LayoutGraph, order: seq<Node>, rounds: nat)
    returns (finished: bool, ghost costs: seq<int>, ghost run: PivotRuns.Run)
    requires Going(t, g, order) && order != []
    modifies t`edges, t`labels, t`cutvalue, g`rank
    ensures Going(t, g, order)
    ensures Recorded(g.nodes, g.edges, StageOf(t, g, order[0]), run, costs, rounds, finished) == true
  {
    StartRecord(t, g, order);
    run := Begin(StageOf(t, g, order[0]));
    costs := [Cost(g.edges, g.rank)];
    finished := false;
    var i := 0;
    while i < rounds && !finished
      invariant Going(t, g, order) && i <= rounds
      invariant Recorded(g.nodes, g.edges, StageOf(t, g, order[0]), run, costs, i, finished) == true
      decreases rounds - i, !finished
    {
      ghost var s := StageOf(t, g, order[0]);
      ghost var x;
      finished, x := PivotOnce(t, g, order);
      ghost var run0, costs0 := run, costs;
      if !finished {
        run := Then(run, x, StageOf(t, g, order[0]));
        costs := costs + [Cost(g.edges, g.rank)];
      }
      RecordRound(g.nodes, g.edges, s, run0, costs0, i, finished, x, StageOf(t, g, order[0]), run, costs);
      i := i + 1;
    }
    if finished {
      RecordStays(g.nodes, g.edges, StageOf(t, g, order[0]), run, costs, i, rounds);
    }
  }

  /** After i rounds. */
  ghost predicate Recorded(V: set<Node>, E: set<Edge>, s: Stage, run: PivotRuns.Run, costs: seq<int>, i: nat,
                           finished: bool) {
    && IsRun(V, E, run) == true && run.s == s && costs == Costs(E, run)
    && Falling(costs) && costs[|costs| - 1] == Cost(E, s.rank) && |costs| == Length(run) + 1
    && Length(run) <= i && (!finished ==> Length(run) == i)
    && (finished ==> forall p :: p in s.rt.edges ==> p in s.cut && s.cut[p] >= 0)
  }

  lemma RecordRound(V: set<Node>, E: set<Edge>, s: Stage, run: PivotRuns.Run, costs: seq<int>, i: nat, finished: bool,
                    x: Swap, s': Stage, run': PivotRuns.Run, costs': seq<int>)
    requires Recorded(V, E, s, run, costs, i, false)
    requires finished ==> s' == s && run' == run && costs' == costs
    requires finished ==> forall p :: p in s.rt.edges ==> p in s.cut && s.cut[p] >= 0
    requires !finished ==> IsSwap(V, E, s, x, s') == true && Cost(E, s'.rank) <= Cost(E, s.rank)
    requires !finished ==> run' == Then(run, x, s') && costs' == costs + [Cost(E, s'.rank)]
    ensures Recorded(V, E, s', run', costs', i + 1, finished) == true
  {
    if !finished { FallsOn(costs, Cost(E, s'.rank)); }
  }

  lemma RecordStays(V: set<Node>, E: set<Edge>, s: Stage, run: PivotRuns.Run, costs: seq<int>, i: nat, rounds: nat)
    requires Recorded(V, E, s, run, costs, i, true) && i <= rounds
    ensures Recorded(V, E, s, run, costs, rounds, true) == true
  {
  }

  /** Ranks by longest paths, and a tight tree with its labels and cut values. */
  method StartTree(g: LayoutGraph, order: seq<Node>, ghost topo: map<Node, int>) returns (t: TreeGraph)
    requires Rankable(g, order) && IsTopological(g.nodes, g.edges, topo) && g.rank.Keys <= g.nodes
    modifies g`rank
    ensures fresh(t) && Optimizing(t, g, order[0]) == true
  {
    LongestPath(g, topo);
    t := FeasibleTree(g, order[0]);
    TightIsInGraph(g.edges, g.rank, t.edges);
    InitLabelsAndCuts(t, g, order);
  }

  /** One round of the loop: a swap, unless no cut value is negative. */
  method PivotOnce(t: TreeGraph, g: LayoutGraph, order: seq<Node>) returns (finished: bool, ghost x: Swap)
    requires Going(t, g, order) && order != []
    modifies t`edges, t`labels, t`cutvalue, g`rank
    ensures Going(t, g, order) && Cost(g.edges, g.rank) <= old(Cost(g.edges, g.rank))
    ensures finished ==> StageOf(t, g, order[0]) == old(StageOf(t, g, order[0]))
    ensures finished ==> forall p :: p in t.edges ==> p in t.cutvalue && t.cutvalue[p] >= 0
    ensures !finished ==> IsSwap(g.nodes, g.edges, old(StageOf(t, g, order[0])), x, StageOf(t, g, order[0])) == true
  {
    assert Look(0);
    var e := LeaveEdge(t);
    if e.None? {
      x := *;
      return true, x;
    }
    ghost var c := ChildEnd(TreeOf(t, order[0]), e.value);
    ghost var s := StageOf(t, g, order[0]);
    IsInOrder(t, g, order[0]);
    var f := EnterEdge(t, g, e.value, order[0], c);
    ExchangeEdges(t, g, e.value, f, order, c);
    IsInOrder(t, g, order[0]);
    x := Swap(e.value, f, c);
    assert Exchanges(g.nodes, g.edges, s, x, StageOf(t, g, order[0]));
    finished := false;
  }

  lemma StopsAtOptimum(t: TreeGraph, g: LayoutGraph, root: Node)
    requires Optimizing(t, g, root) == true && Simple(g.nodes, g.edges)
    requires forall p :: p in t.edges ==> t.cutvalue[p] >= 0
    ensures forall other :: Feasible(g.nodes, g.edges, other) ==> Cost(g.edges, g.rank) <= Cost(g.edges, other)
  {
    var rt := TreeOf(t, root);
    forall c | c in rt.nodes && c != rt.root ensures CutValue(rt, g.edges, c) >= 0 {
      assert CutKnown(rt, g.edges, t.cutvalue, c);
    }
    forall other | Feasible(g.nodes, g.edges, other) ensures Cost(g.edges, g.rank) <= Cost(g.edges, other) {
      NoNegativeCutIsOptimal(rt, g.edges, g.rank, other);
    }
  }
}
