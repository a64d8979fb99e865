/** What a run of pivots is, said of the values that pass from one pivot to the next, and how long it can last. */
module PivotRuns {
  import opened Graphs
  import opened Ranking
  import opened Sums
  import opened TreeLabels
  import opened CutValues
  import opened CutValueInit
  import opened Pivot

  /** What there is between two pivots: the tree with its labels, its cut values, and the ranks. */
  datatype Stage = Stage(rt: Rooting, cut: map<Pair, int>, rank: map<Node, int>)

  /** The tree edge from child to its parent makes way for an edge of the graph. */
  datatype Swap = Swap(leaving: Pair, entering: Edge, child: Node)

  /** A tight spanning tree under feasible ranks, with exact cut values. */
  ghost predicate InOrder(V: set<Node>, E: set<Edge>, s: Stage) {
    && s.rt.Valid() && s.rt.nodes == V && SpanningTree(V, s.rt.edges)
    && Feasible(V, E, s.rank) && Tight(E, s.rank, s.rt.edges) && CutsExact(s.rt, E, s.cut)
  }

  /** The leaving edge is the one above the child, and its cut value is negative; the entering edge leads back across
      that cut, no such edge has less slack, and the ranks are those with one side of the cut moved by that slack. */
  ghost predicate Exchanges(V: set<Node>, E: set<Edge>, s: Stage, x: Swap, s': Stage)
    requires InOrder(V, E, s)
  {
    var c, f := x.child, x.entering;
    && c in V && c != s.rt.root && Und(c, s.rt.Parent(c)) == x.leaving && x.leaving in s.cut && s.cut[x.leaving] < 0
    && Enters(s.rt, E, s.rank, c, f)
    && s'.rt.root == s.rt.root && s'.rt.edges == s.rt.edges - {x.leaving} + {Und(f.v, f.w)}
    && s'.rank == Shifted(s.rank, s.rt.Subtree(c), Shift(s.rt, s.rank, c, f))
  }

  ghost predicate IsSwap(V: set<Node>, E: set<Edge>, s: Stage, x: Swap, s': Stage) {
    forall k {:trigger Look(k)} :: Look(k) ==> InOrder(V, E, s) && InOrder(V, E, s') && Exchanges(V, E, s, x, s')
  }

  /** By how much the entering edge is longer than it has to be. */
  ghost function Gain(s: Stage, x: Swap): int {
    if x.entering.v in s.rank && x.entering.w in s.rank then Slack(s.rank, x.entering) else 0
  }

  ghost function CutOf(s: Stage, x: Swap): int {
    if x.leaving in s.cut then s.cut[x.leaving] else 0
  }

  /** Each swap changes the cost by the leaving cut value, which is negative, times the entering slack. */
  lemma SwapCost(V: set<Node>, E: set<Edge>, s: Stage, x: Swap, s': Stage)
    requires Simple(V, E) && IsSwap(V, E, s, x, s')
    ensures Cost(E, s'.rank) == Cost(E, s.rank) + CutOf(s, x) * Gain(s, x)
    ensures CutOf(s, x) < 0 && Gain(s, x) >= 0
  {
    assert Look(0);
    assert CutKnown(s.rt, E, s.cut, x.child);
    PivotCost(s.rt, E, s.rank, x.child, x.entering);
  }

  // ----- runs -----

  /** The start, and one swap after the other with the stage it leads to. */
  datatype Run = Begin(s: Stage) | Then(before: Run, x: Swap, s: Stage)

  ghost predicate IsRun(V: set<Node>, E: set<Edge>, r: Run) {
    match r
    case Begin(s) => InOrder(V, E, s)
    case Then(before, x, s) => IsRun(V, E, before) && IsSwap(V, E, before.s, x, s)
  }

  /** The number of swaps. */
  ghost function Length(r: Run): nat {
    if r.Begin? then 0 else Length(r.before) + 1
  }

  ghost function StartOf(r: Run): Stage {
    if r.Begin? then r.s else StartOf(r.before)
  }

  /** The costs before and after every swap. */
  ghost function Costs(E: set<Edge>, r: Run): seq<int> {
    if r.Begin? then [Cost(E, r.s.rank)] else Costs(E, r.before) + [Cost(E, r.s.rank)]
  }

  // ----- how long a run can last -----

  /** The number of swaps that move anything. */
  ghost function Moves(r: Run): nat {
    if r.Begin? then 0 else Moves(r.before) + if Gain(r.before.s, r.x) > 0 then 1 else 0
  }

  ghost predicate AllMove(r: Run) {
    r.Then? ==> AllMove(r.before) && Gain(r.before.s, r.x) != 0
  }

  ghost predicate IsOptimal(V: set<Node>, E: set<Edge>, rank: map<Node, int>) {
    Feasible(V, E, rank) && forall other :: Feasible(V, E, other) ==> Cost(E, rank) <= Cost(E, other)
  }

  lemma FallsByOne(k: int, d: int)
    requires k < 0 && d >= 0
    ensures k * d <= 0 && (d > 0 ==> k * d <= -1)
  {
    if d > 0 { assert k * d <= -1 * d; }
  }

  /** The cost after each swap is what it was and the leaving cut value times the entering slack. */
  ghost predicate Priced(E: set<Edge>, r: Run) {
    r.Then? ==> Priced(E, r.before) && PricedAt(E, r.before.s, r.x, r.s)
  }

  ghost predicate PricedAt(E: set<Edge>, s: Stage, x: Swap, s': Stage) {
    Cost(E, s'.rank) == Cost(E, s.rank) + CutOf(s, x) * Gain(s, x) && CutOf(s, x) < 0 && Gain(s, x) >= 0
  }

  lemma LastIsPriced(V: set<Node>, E: set<Edge>, r: Run)
    requires Simple(V, E) && IsRun(V, E, r) && r.Then?
    ensures IsRun(V, E, r.before) == true && PricedAt(E, r.before.s, r.x, r.s)
  {
    SwapCost(V, E, r.before.s, r.x, r.s);
  }

  lemma {:induction false} RunIsPriced(V: set<Node>, E: set<Edge>, r: Run)
    requires Simple(V, E) && IsRun(V, E, r) == true
    ensures Priced(E, r)
  {
    if r.Then? {
      LastIsPriced(V, E, r);
      RunIsPriced(V, E, r.before);
    }
  }

  /** Every swap that moves something saves at least 1. */
  lemma {:induction false} MovesLower(E: set<Edge>, r: Run)
    requires Priced(E, r)
    ensures Cost(E, r.s.rank) <= Cost(E, StartOf(r).rank) - Moves(r)
  {
    if r.Then? {
      MovesLower(E, r.before);
      FallsByOne(CutOf(r.before.s, r.x), Gain(r.before.s, r.x));
    }
  }

  lemma LastIsInOrder(V: set<Node>, E: set<Edge>, r: Run)
    requires IsRun(V, E, r)
    ensures InOrder(V, E, r.s) == true
  {
    assert Look(0);
  }

  /** No run has more swaps that move something than its first cost lies above the least. */
  lemma MovesAreBounded(V: set<Node>, E: set<Edge>, r: Run, best: map<Node, int>)
    requires Simple(V, E) && IsRun(V, E, r) && IsOptimal(V, E, best)
    ensures Moves(r) <= Cost(E, StartOf(r).rank) - Cost(E, best)
  {
    RunIsPriced(V, E, r);
    MovesLower(E, r);
    LastIsInOrder(V, E, r);
  }

  lemma {:induction false} AllAreMoves(E: set<Edge>, r: Run)
    requires Priced(E, r) && AllMove(r)
    ensures Moves(r) == Length(r)
  {
    if r.Then? { AllAreMoves(E, r.before); }
  }

  /** So a run in which every swap moves something is no longer than that. */
  lemma RunIsBounded(V: set<Node>, E: set<Edge>, r: Run, best: map<Node, int>)
    requires Simple(V, E) && IsRun(V, E, r) && AllMove(r) && IsOptimal(V, E, best)
    ensures Length(r) <= Cost(E, StartOf(r).rank) - Cost(E, best)
  {
    RunIsPriced(V, E, r);
    AllAreMoves(E, r);
    MovesAreBounded(V, E, r, best);
  }
}
