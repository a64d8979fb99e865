/** Reversing a feedback set before the layout, and putting the edges back after it. */
module CycleRemoval {
  import opened Graphs
  import opened Sums
  import opened Reachability
  import opened Acyclic
  import opened GreedyRuns
  import opened GreedyFas

  // ----- what the greedy choice leaves -----

  /** Every cycle passes an edge of the original graph that weighs nothing and was not chosen. */
  ghost predicate CyclesAreWeightless(E: Edges, fas: seq<Key>, E': Edges) {
    forall p :: Cycle(E'.Keys, p) ==> exists i :: 0 <= i < |p| && p[i] !in fas && IsWeightless(E, p[i])
  }

  /** An edge that leads forward wherever it weighs something makes no cycle with others of its kind. */
  lemma HeavyLeadForward(E: Edges, fas: seq<Key>, number: nat, E': Edges, place: map<Node, int>)
    requires SplitsHeavy(E, fas, place) && IsList(E.Keys, fas) && IsReversed(E, fas, number, E')
    ensures CyclesAreWeightless(E, fas, E')
  {
    forall p | Cycle(E'.Keys, p) ensures exists i :: 0 <= i < |p| && p[i] !in fas && IsWeightless(E, p[i]) {
      var K := set k | k in p;
      assert Cycle(K, p);
      if AllForward(K, place) {
        ForwardHasNoCycle(K, place);
      } else {
        var k :| k in K && !(k.v in place && k.w in place && place[k.v] < place[k.w]);
        BackwardIsWeightless(E, fas, number, E', place, k);
        var i :| 0 <= i < |p| && p[i] == k;
      }
    }
  }

  lemma BackwardIsWeightless(E: Edges, fas: seq<Key>, number: nat, E': Edges, place: map<Node, int>, k: Key)
    requires SplitsHeavy(E, fas, place) && IsList(E.Keys, fas) && IsReversed(E, fas, number, E')
    requires k in E' && !(k.v in place && k.w in place && place[k.v] < place[k.w])
    ensures k !in fas && IsWeightless(E, k)
  {
    forall i | 0 <= i < |fas| ensures k != Reversal(fas[i], number + i) {
      assert fas[i] in fas && fas[i] in E;
    }
    assert !Reverses(fas, number, k);
  }

  // ----- a condition under which no cycle is left -----

  /** The neighbours along edges of K, taken either way, that are no parallels of e. */
  ghost function Around(nodes: set<Node>, K: set<Key>, e: Key): Succ {
    map x | x in nodes ::
      (set f | f in K && f.v == x && !(f.v == e.v && f.w == e.w) :: f.w)
      + (set f | f in K && f.w == x && !(f.v == e.v && f.w == e.w) :: f.v)
  }

  /** No weightless edge lies on a cycle of the graph without directions, its parallels taken for one with it. */
  ghost predicate WeightlessAreBridges(nodes: set<Node>, E: Edges) {
    forall e :: IsWeightless(E, e) ==> !Reach(Around(nodes, E.Keys, e), e.v, e.w)
  }

  /** From outside of S a path that never enters S never gets there. */
  lemma {:induction false} StaysOutside(K: set<Key>, S: set<Node>, p: seq<Key>, i: nat, j: nat)
    requires Cycle(K, p) && i <= j < |p| && p[i].w !in S
    requires forall k :: 0 <= k < |p| && p[k].w in S ==> p[k].v in S
    ensures p[j].w !in S
    decreases j
  {
    if i < j { StaysOutside(K, S, p, i, j - 1); }
  }

  /** A cycle that leaves S enters it again. */
  lemma Recross(K: set<Key>, S: set<Node>, p: seq<Key>, i: nat) returns (j: nat)
    requires Cycle(K, p) && i < |p| && p[i].v in S && p[i].w !in S
    ensures j < |p| && p[j].v !in S && p[j].w in S
  {
    if forall k :: 0 <= k < |p| && p[k].w in S ==> p[k].v in S {
      StaysOutside(K, S, p, i, |p| - 1);
      if i > 0 { StaysOutside(K, S, p, 0, i - 1); }
      assert false;
    }
    j :| 0 <= j < |p| && p[j].w in S && p[j].v !in S;
  }

  /** The way back over a bridge would be a parallel of it, and those are chosen together. */
  lemma NoWayBack(nodes: set<Node>, E: Edges, fas: seq<Key>, number: nat, E': Edges, S: set<Node>, e: Key, k: Key)
    requires LoopFree(nodes, E.Keys) && IsList(E.Keys, fas) && IsReversed(E, fas, number, E')
      && ParallelsTogether(E, fas)
    requires e in E && e !in fas && e.v in S && ClosedUnder(Around(nodes, E.Keys, e), S)
    requires k in E'
    ensures k.w in S ==> k.v in S || e.w in S
  {
    var g := Around(nodes, E.Keys, e);
    if Reverses(fas, number, k) {
      var i :| 0 <= i < |fas| && k == Reversal(fas[i], number + i);
      assert fas[i] in fas && fas[i] in E;
      assert !(fas[i].v == e.v && fas[i].w == e.w);
      assert k.w in g && k.v in g[k.w];
    } else {
      assert k in E;
      if !(k.v == e.v && k.w == e.w) { assert k.w in g && k.v in g[k.w]; }
    }
  }

  lemma BridgesLeaveNoCycle(nodes: set<Node>, E: Edges, fas: seq<Key>, number: nat, E': Edges)
    requires LoopFree(nodes, E.Keys) && IsList(E.Keys, fas) && IsReversed(E, fas, number, E')
      && ParallelsTogether(E, fas)
    requires CyclesAreWeightless(E, fas, E') && WeightlessAreBridges(nodes, E)
    ensures HasNoCycle(E'.Keys)
  {
    forall p ensures !Cycle(E'.Keys, p) {
      if Cycle(E'.Keys, p) {
        var i :| 0 <= i < |p| && p[i] !in fas && IsWeightless(E, p[i]);
        var e := p[i];
        var S :| ClosedUnder(Around(nodes, E.Keys, e), S) && e.v in S && e.w !in S;
        var j := Recross(E'.Keys, S, p, i);
        NoWayBack(nodes, E, fas, number, E', S, e, p[j]);
      }
    }
  }

  // ----- a graph without cycles -----

  /** Where all edges lead forward the last node that is left is always a sink. */
  lemma LastIsSink(nodes: set<Node>, E: Edges, place: map<Node, int>, trace: Trace, i: nat)
    requires AllForward(E.Keys, place) && nodes <= place.Keys && IsRun(Merged(E), nodes, trace) && i < |trace|
    ensures trace[i].kind.Sink?
  {
    var some := Left(nodes, trace, i);
    LeftShrinks(nodes, trace, 0, i);
    assert MayGo(Merged(E), some, trace[i]);
    var u := Latest(some, place);
    var L := OutOf(LiveArcs(Merged(E), some), u);
    assert forall a :: a in Merged(E) ==> exists e :: e in E && Arc(e.v, e.w) == a;
    assert L == {} && OutSum(Merged(E), some, u) == 0;
  }

  /** The greedy choice leaves a graph as it is in which all edges lead forward, whatever they weigh. */
  lemma ForwardIsLeftAlone(nodes: set<Node>, E: Edges, place: map<Node, int>, fas: seq<Key>)
    requires AllForward(E.Keys, place) && nodes <= place.Keys && IsGreedy(nodes, E, fas)
    ensures fas == []
  {
    var trace: Trace :| Chosen(nodes, E, fas, trace);
    forall i | 0 <= i < |trace| ensures trace[i].kind.Sink? { LastIsSink(nodes, E, place, trace, i); }
    forall e | e in E ensures e !in fas { assert !Collects(Merged(E), nodes, trace, Arc(e.v, e.w)); }
    ListedExists(E.Keys, fas);
  }

  // ----- the two operations -----

  /** With the depth-first choice only edges that close a cycle are reversed, so a graph without cycles is
      left as it is. The greedy choice leaves no cycle but through edges that weigh nothing. */
  method Run(g: MultiGraph, greedy: bool, number: nat) returns (fas: seq<Key>)
    requires LoopFree(g.nodes, g.edges.Keys) && FreshFrom(g.edges, number)
    requires greedy ==> NoNegativeWeight(g.edges)
    modifies g
    ensures g.nodes == old(g.nodes) && IsReversed(old(g.edges), fas, number, g.edges)
    ensures IsList(old(g.edges).Keys, fas)
    ensures greedy ==> IsGreedy(old(g.nodes), old(g.edges), fas) && CyclesAreWeightless(old(g.edges), fas, g.edges)
    ensures !greedy || WeightlessAreBridges(old(g.nodes), old(g.edges)) ==> HasNoCycle(g.edges.Keys)
    ensures !greedy || (forall e :: e in old(g.edges) ==> old(g.edges)[e].weight > 0) ==>
      IsFas(old(g.edges).Keys, fas) && HasNoCycle(g.edges.Keys)
    ensures !greedy ==> forall e :: e in fas ==> Reach(SuccOf(old(g.nodes), old(g.edges).Keys), e.w, e.v)
  {
    ghost var E := g.edges;
    if greedy {
      fas := GreedyFasOf(g);
      ghost var place := GreedySplitsHeavy(g.nodes, E, fas);
      ReverseAll(g, fas, number);
      HeavyLeadForward(E, fas, number, g.edges, place);
      GreedyLeavesNoCycle(g.nodes, E, fas, number, g.edges);
    } else {
      fas := DfsFasOf(g);
      ReverseAll(g, fas, number);
      ReversedIsAcyclic(E, fas, number, g.edges);
    }
  }

  /** No cycle is left where weightless edges are bridges, and so where there are none. */
  lemma GreedyLeavesNoCycle(nodes: set<Node>, E: Edges, fas: seq<Key>, number: nat, E': Edges)
    requires LoopFree(nodes, E.Keys) && NoNegativeWeight(E) && IsGreedy(nodes, E, fas) && IsReversed(E, fas, number, E')
    ensures WeightlessAreBridges(nodes, E) ==> HasNoCycle(E'.Keys)
    ensures (forall e :: e in E ==> E[e].weight > 0) ==> IsFas(E.Keys, fas) && HasNoCycle(E'.Keys)
  {
    var place := GreedySplitsHeavy(nodes, E, fas);
    HeavyLeadForward(E, fas, number, E', place);
    if WeightlessAreBridges(nodes, E) { BridgesLeaveNoCycle(nodes, E, fas, number, E'); }
    if forall e :: e in E ==> E[e].weight > 0 {
      PositiveGreedyIsFas(nodes, E, fas);
      ReversedIsAcyclic(E, fas, number, E');
    }
  }

  /** The two operations as the layout calls them, with nothing between that touches the edges. */
  method RunThenUndo(g: MultiGraph, greedy: bool, number: nat)
    requires LoopFree(g.nodes, g.edges.Keys) && FreshFrom(g.edges, number) && AllPlain(g.edges)
    requires greedy ==> NoNegativeWeight(g.edges)
    modifies g
    ensures g.nodes == old(g.nodes) && g.edges == old(g.edges)
  {
    ghost var E := g.edges;
    var fas := Run(g, greedy, number);
    ghost var E' := g.edges;
    ReversedIsRestorable(E, fas, number, E');
    ReversedIsLoopFree(g.nodes, E, fas, number, E');
    Undo(g);
    UndoRestores(E, fas, number, E', g.edges);
  }

  // ----- a graph in which a cycle stays -----

  /** Two nodes, an edge of weight 0 one way and one of weight 5 the other. */
  ghost predicate IsOneSided(a: Node, b: Node, nodes: set<Node>, E: Edges, there: Key, back: Key) {
    && a != b && nodes == {a, b} && there == Key(a, b, Unnamed) && back == Key(b, a, Unnamed)
    && E.Keys == {there, back} && E[there].weight == 0 && E[back].weight == 5
  }

  lemma OneSidedWeights(a: Node, b: Node, nodes: set<Node>, E: Edges, there: Key, back: Key)
    requires IsOneSided(a, b, nodes, E, there, back)
    ensures Merged(E) == map[Arc(a, b) := 0, Arc(b, a) := 5]
  {
    assert Parallel(E.Keys, Arc(a, b)) == {there} && Parallel(E.Keys, Arc(b, a)) == {back};
    SumPick({there}, WeightIn(E), there);
    SumPick({back}, WeightIn(E), back);
    var arcs := set e | e in E :: Arc(e.v, e.w);
    assert Arc(there.v, there.w) in arcs && Arc(back.v, back.w) in arcs;
    assert arcs == {Arc(a, b), Arc(b, a)};
  }

  /** a is taken for a sink although an edge leaves it, and after it b is one. */
  lemma BothAreSinks(a: Node, b: Node, nodes: set<Node>, W: Weights, trace: Trace, i: nat)
    requires a != b && nodes == {a, b} && W == map[Arc(a, b) := 0, Arc(b, a) := 5]
    requires IsRun(W, nodes, trace) && i < |trace|
    ensures trace[i].kind.Sink?
  {
    LeftShrinks(nodes, trace, 0, i);
    var some := Left(nodes, trace, i);
    var u := if a in some then a else b;
    assert MayGo(W, some, trace[i]);
    var L := OutOf(LiveArcs(W, some), u);
    assert forall x :: x in L ==> x == Arc(a, b);
    SumIsZero(W, L);
    assert OutSum(W, some, u) == 0;
  }

  lemma ListedExists(K: set<Key>, fas: seq<Key>)
    requires IsList(K, fas)
    ensures fas != [] ==> exists e :: e in K && e in fas
  {
    if fas != [] { assert fas[0] in fas; }
  }

  /** Both nodes go as sinks in every run, nothing is reversed, and the cycle stays. */
  lemma CycleStays(a: Node, b: Node, nodes: set<Node>, E: Edges, there: Key, back: Key, fas: seq<Key>, number: nat,
                   E': Edges)
    requires IsOneSided(a, b, nodes, E, there, back) && IsGreedy(nodes, E, fas) && IsReversed(E, fas, number, E')
    ensures fas == [] && E' == E && Cycle(E'.Keys, [there, back])
  {
    OneSidedWeights(a, b, nodes, E, there, back);
    var trace: Trace :| Chosen(nodes, E, fas, trace);
    forall e | e in E ensures e !in fas {
      forall i | 0 <= i < |trace| ensures trace[i].kind.Sink? { BothAreSinks(a, b, nodes, Merged(E), trace, i); }
    }
    ListedExists(E.Keys, fas);
    forall k | k in E' ensures k in E {
      assert !Reverses(fas, number, k);
    }
    forall e | e in E ensures e in E' && E'[e] == E[e] { assert KeptIn(E, e, E'); }
    assert forall e :: e in E' ==> E'[e] == E[e];
  }

  /** There is such a graph, and the greedy choice has a result for it. */
  method OneSided(a: Node, b: Node, lab: EdgeLabel) returns (g: MultiGraph, fas: seq<Key>)
    requires a != b
    ensures fresh(g) && g.nodes == {a, b} && fas == [] && Cycle(g.edges.Keys, [Key(a, b, Unnamed), Key(b, a, Unnamed)])
  {
    var there, back := Key(a, b, Unnamed), Key(b, a, Unnamed);
    g := new MultiGraph({a, b}, map[there := lab.(weight := 0), back := lab.(weight := 5)]);
    ghost var E := g.edges;
    fas := Run(g, true, 0);
    CycleStays(a, b, {a, b}, E, there, back, fas, 0, g.edges);
  }
}
