/** What a run of the greedy removal is, said without its buckets, and what the run decides for every weight. */
module GreedyRuns {
  import opened Graphs
  import opened Sums
  import opened Acyclic

  /** An edge of the simple graph in which parallel edges are merged. */
  datatype Arc = Arc(v: Node, w: Node)

  type Weights = map<Arc, int>

  // ----- weights into and out of a node -----

  ghost function Weigh(W: Weights): Arc -> int {
    a => if a in W then W[a] else 0
  }

  ghost function Into(L: set<Arc>, v: Node): set<Arc> {
    set a | a in L && a.w == v
  }

  ghost function OutOf(L: set<Arc>, v: Node): set<Arc> {
    set a | a in L && a.v == v
  }

  ghost predicate NonNegative(W: Weights) {
    forall a :: a in W ==> W[a] >= 0
  }

  lemma {:induction false} SumIsZero(W: Weights, S: set<Arc>)
    requires S <= W.Keys && NonNegative(W)
    ensures Sum(S, Weigh(W)) >= 0 && (Sum(S, Weigh(W)) == 0 <==> forall a :: a in S ==> W[a] == 0)
    decreases S
  {
    if S != {} {
      var a :| a in S;
      SumPick(S, Weigh(W), a);
      SumIsZero(W, S - {a});
    }
  }

  // ----- runs -----

  /** Why a node is removed: nothing of weight leaves it, nothing of weight enters it, or it is the best left. */
  datatype Kind = Sink | Source | Best

  datatype Removal = Removal(v: Node, kind: Kind)

  type Trace = seq<Removal>

  /** The arcs between nodes that are still there. */
  ghost function LiveArcs(W: Weights, nodes: set<Node>): set<Arc> {
    set a | a in W && a.v in nodes && a.w in nodes
  }

  ghost function InSum(W: Weights, nodes: set<Node>, v: Node): int {
    Sum(Into(LiveArcs(W, nodes), v), Weigh(W))
  }

  ghost function OutSum(W: Weights, nodes: set<Node>, v: Node): int {
    Sum(OutOf(LiveArcs(W, nodes), v), Weigh(W))
  }

  ghost predicate NoneIsSink(W: Weights, nodes: set<Node>) {
    forall u {:trigger OutSum(W, nodes, u)} :: u in nodes ==> OutSum(W, nodes, u) != 0
  }

  ghost predicate NoneIsSource(W: Weights, nodes: set<Node>) {
    forall u {:trigger InSum(W, nodes, u)} :: u in nodes ==> InSum(W, nodes, u) != 0
  }

  ghost predicate NoneIsBetter(W: Weights, nodes: set<Node>, v: Node) {
    forall u {:trigger OutSum(W, nodes, u)} :: u in nodes ==>
      OutSum(W, nodes, u) - InSum(W, nodes, u) <= OutSum(W, nodes, v) - InSum(W, nodes, v)
  }

  /** Sinks go first, then sources, and only without either of them the node of the greatest difference. */
  ghost predicate MayGo(W: Weights, nodes: set<Node>, r: Removal) {
    && r.v in nodes
    && match r.kind
       case Sink => OutSum(W, nodes, r.v) == 0
       case Source => NoneIsSink(W, nodes) && InSum(W, nodes, r.v) == 0
       case Best => NoneIsSink(W, nodes) && NoneIsSource(W, nodes) && NoneIsBetter(W, nodes, r.v)
  }

  /** The nodes that the first n removals leave. */
  ghost function Left(nodes: set<Node>, trace: Trace, n: nat): set<Node>
    requires n <= |trace|
  {
    if n == 0 then nodes else Left(nodes, trace, n - 1) - {trace[n - 1].v}
  }

  ghost predicate IsRun(W: Weights, nodes: set<Node>, trace: Trace) {
    forall i {:trigger trace[i]} :: 0 <= i < |trace| ==> MayGo(W, Left(nodes, trace, i), trace[i])
  }

  /** The arc leads to the best node of some round from a node that is still there. */
  ghost predicate Collects(W: Weights, nodes: set<Node>, trace: Trace, a: Arc) {
    a in W
      && exists i {:trigger trace[i]} ::
        0 <= i < |trace| && trace[i] == Removal(a.w, Best) && a.v in Left(nodes, trace, i)
  }

  // ----- one removal more -----

  lemma {:induction false} LeftOfPrefix(nodes: set<Node>, trace: Trace, more: Trace, n: nat)
    requires n <= |trace| && trace <= more
    ensures Left(nodes, more, n) == Left(nodes, trace, n)
  {
    if n > 0 { LeftOfPrefix(nodes, trace, more, n - 1); }
  }

  lemma OneMoreRemoval(W: Weights, nodes: set<Node>, trace: Trace, r: Removal, trace': Trace)
    requires IsRun(W, nodes, trace) && MayGo(W, Left(nodes, trace, |trace|), r) && trace' == trace + [r]
    ensures IsRun(W, nodes, trace') && Left(nodes, trace', |trace'|) == Left(nodes, trace, |trace|) - {r.v}
  {
    LeftOfPrefix(nodes, trace, trace', |trace|);
    forall i | 0 <= i < |trace'| ensures MayGo(W, Left(nodes, trace', i), trace'[i]) {
      LeftOfPrefix(nodes, trace, trace', i);
      if i < |trace| { assert trace[i] == trace'[i]; }
    }
  }

  lemma OneMoreCollected(W: Weights, nodes: set<Node>, trace: Trace, r: Removal, trace': Trace, a: Arc)
    requires trace' == trace + [r]
    ensures Collects(W, nodes, trace', a) <==>
      Collects(W, nodes, trace, a) || (a in W && r == Removal(a.w, Best) && a.v in Left(nodes, trace, |trace|))
  {
    forall i: nat | i <= |trace| ensures Left(nodes, trace', i) == Left(nodes, trace, i) {
      LeftOfPrefix(nodes, trace, trace', i);
    }
    assert forall i :: 0 <= i < |trace| ==> trace'[i] == trace[i];
    assert trace'[|trace|] == r;
  }

  // ----- the order that a run defines -----

  /** When x was removed. */
  ghost predicate At(nodes: set<Node>, trace: Trace, x: Node, i: nat) {
    && i < |trace| && trace[i].v == x && (forall k: nat :: k <= i ==> x in Left(nodes, trace, k))
    && forall k: nat :: i < k <= |trace| ==> x !in Left(nodes, trace, k)
  }

  lemma {:induction false} LeftShrinks(nodes: set<Node>, trace: Trace, i: nat, n: nat)
    requires i <= n <= |trace|
    ensures Left(nodes, trace, n) <= Left(nodes, trace, i)
    decreases n
  {
    if i < n { LeftShrinks(nodes, trace, i, n - 1); }
  }

  lemma {:induction false} RemovedAt(nodes: set<Node>, trace: Trace, n: nat, x: Node) returns (i: nat)
    requires n <= |trace| && x in nodes && x !in Left(nodes, trace, n)
    ensures At(nodes, trace, x, i)
    decreases n
  {
    if x !in Left(nodes, trace, n - 1) {
      i := RemovedAt(nodes, trace, n - 1, x);
    } else {
      i := n - 1;
      forall k: nat | k <= i ensures x in Left(nodes, trace, k) { LeftShrinks(nodes, trace, k, i); }
      forall k: nat | i < k <= |trace| ensures x !in Left(nodes, trace, k) { LeftShrinks(nodes, trace, n, k); }
    }
  }

  /** Sinks are put from the right end inward, all others from the left end inward. */
  function PlaceAt(trace: Trace, i: nat): int
    requires i < |trace|
  {
    if trace[i].kind.Sink? then |trace| - i else i - |trace|
  }

  /** Every node has the place of its removal. */
  ghost predicate PlacedBy(nodes: set<Node>, trace: Trace, place: map<Node, int>) {
    && place.Keys == nodes
    && forall x {:trigger place[x]} :: x in nodes ==> exists i: nat {:trigger At(nodes, trace, x, i)} ::
         At(nodes, trace, x, i) && place[x] == PlaceAt(trace, i)
  }

  lemma RunHasPlaces(nodes: set<Node>, trace: Trace) returns (place: map<Node, int>)
    requires Left(nodes, trace, |trace|) == {}
    ensures PlacedBy(nodes, trace, place)
  {
    forall x | x in nodes ensures exists i: nat :: At(nodes, trace, x, i) {
      var i := RemovedAt(nodes, trace, |trace|, x);
    }
    place := map x | x in nodes :: var i: nat :| At(nodes, trace, x, i); PlaceAt(trace, i);
  }

  /** Only nodes that are still there are removed. */
  ghost predicate InTurn(nodes: set<Node>, trace: Trace) {
    forall i {:trigger trace[i]} :: 0 <= i < |trace| ==> trace[i].v in Left(nodes, trace, i)
  }

  lemma RemovedOnce(nodes: set<Node>, trace: Trace, x: Node, i: nat, k: nat)
    requires InTurn(nodes, trace) && At(nodes, trace, x, i) && k < |trace| && trace[k].v == x
    ensures k == i
  {
    assert x in Left(nodes, trace, k) && x !in Left(nodes, trace, k + 1);
  }

  lemma CollectsAt(W: Weights, nodes: set<Node>, trace: Trace, a: Arc, i: nat, j: nat)
    requires a in W && a.v != a.w && At(nodes, trace, a.v, i) && At(nodes, trace, a.w, j) && InTurn(nodes, trace)
    ensures Collects(W, nodes, trace, a) <==> j < i && trace[j].kind.Best?
  {
    if Collects(W, nodes, trace, a) {
      var k :| 0 <= k < |trace| && trace[k] == Removal(a.w, Best) && a.v in Left(nodes, trace, k);
      RemovedOnce(nodes, trace, a.w, j, k);
    }
    if j < i && trace[j].kind.Best? { assert trace[j] == Removal(a.w, Best) && a.v in Left(nodes, trace, j); }
  }

  /** While both of its ends are there, an arc that weighs something keeps its tail from being a sink and its
      head from being a source. */
  lemma HeavyArcHolds(W: Weights, nodes: set<Node>, a: Arc)
    requires NonNegative(W) && a in W && W[a] > 0 && a.v in nodes && a.w in nodes
    ensures OutSum(W, nodes, a.v) > 0 && InSum(W, nodes, a.w) > 0
  {
    var L := LiveArcs(W, nodes);
    assert a in OutOf(L, a.v) && a in Into(L, a.w);
    SumIsZero(W, OutOf(L, a.v));
    SumIsZero(W, Into(L, a.w));
  }

  /** What is collected leads backward, and of the arcs that weigh something nothing else does. */
  lemma CollectedIffBackward(W: Weights, nodes: set<Node>, trace: Trace, place: map<Node, int>, a: Arc)
    requires NonNegative(W) && IsRun(W, nodes, trace) && PlacedBy(nodes, trace, place)
    requires a in W && a.v != a.w && a.v in nodes && a.w in nodes
    ensures Collects(W, nodes, trace, a) ==> place[a.w] < place[a.v]
    ensures W[a] > 0 && place[a.w] < place[a.v] ==> Collects(W, nodes, trace, a)
    ensures place[a.v] != place[a.w]
  {
    var i: nat :| At(nodes, trace, a.v, i) && place[a.v] == PlaceAt(trace, i);
    var j: nat :| At(nodes, trace, a.w, j) && place[a.w] == PlaceAt(trace, j);
    CollectedIffBackwardAt(W, nodes, trace, a, i, j);
  }

  lemma CollectedIffBackwardAt(W: Weights, nodes: set<Node>, trace: Trace, a: Arc, i: nat, j: nat)
    requires NonNegative(W) && IsRun(W, nodes, trace) && a in W && a.v != a.w
    requires At(nodes, trace, a.v, i) && At(nodes, trace, a.w, j)
    ensures Collects(W, nodes, trace, a) ==> PlaceAt(trace, j) < PlaceAt(trace, i)
    ensures W[a] > 0 && PlaceAt(trace, j) < PlaceAt(trace, i) ==> Collects(W, nodes, trace, a)
    ensures PlaceAt(trace, i) != PlaceAt(trace, j)
  {
    RunIsInTurn(W, nodes, trace);
    CollectsAt(W, nodes, trace, a, i, j);
    if W[a] > 0 { HeavyEndsGo(W, nodes, trace, a, i, j); }
  }

  lemma RunIsInTurn(W: Weights, nodes: set<Node>, trace: Trace)
    requires IsRun(W, nodes, trace)
    ensures InTurn(nodes, trace)
  {
  }

  /** The first end of a heavy arc to go does not go as a sink or source that frees the arc. */
  lemma HeavyEndsGo(W: Weights, nodes: set<Node>, trace: Trace, a: Arc, i: nat, j: nat)
    requires NonNegative(W) && IsRun(W, nodes, trace) && a in W && W[a] > 0
    requires At(nodes, trace, a.v, i) && At(nodes, trace, a.w, j)
    ensures i < j ==> !trace[i].kind.Sink?
    ensures j < i ==> !trace[j].kind.Source?
  {
    var k := MinInt(i, j);
    var nodes1 := Left(nodes, trace, k);
    HeavyArcHolds(W, nodes1, a);
    assert MayGo(W, nodes1, trace[k]);
  }

  // ----- edges -----

  ghost function Parallel(K: set<Key>, a: Arc): set<Key> {
    set e | e in K && e.v == a.v && e.w == a.w
  }

  ghost function WeightIn(E: Edges): Key -> int {
    e => if e in E then E[e].weight else 0
  }

  /** Parallel edges are merged and their weights summed. */
  ghost function Merged(E: Edges): Weights {
    map a | a in (set e | e in E :: Arc(e.v, e.w)) :: Sum(Parallel(E.Keys, a), WeightIn(E))
  }

  ghost predicate NoNegativeWeight(E: Edges) {
    forall e :: e in E ==> E[e].weight >= 0
  }

  /** Together with its parallels the edge weighs nothing. */
  ghost predicate IsWeightless(E: Edges, e: Key) {
    e in E && Merged(E)[Arc(e.v, e.w)] == 0
  }

  ghost predicate Chosen(nodes: set<Node>, E: Edges, fas: seq<Key>, trace: Trace) {
    && IsRun(Merged(E), nodes, trace) && Left(nodes, trace, |trace|) == {}
    && forall e :: e in E ==> (e in fas <==> Collects(Merged(E), nodes, trace, Arc(e.v, e.w)))
  }

  /** fas lists the edges that some complete run collects. */
  ghost predicate IsGreedy(nodes: set<Node>, E: Edges, fas: seq<Key>) {
    IsList(E.Keys, fas) && exists trace :: Chosen(nodes, E, fas, trace)
  }

  /** What is listed leads backward, and of the edges that weigh something nothing else does. */
  ghost predicate SplitsHeavy(E: Edges, fas: seq<Key>, place: map<Node, int>) {
    forall e :: e in E ==>
      && e.v in place && e.w in place && place[e.v] != place[e.w]
      && (e in fas ==> place[e.w] < place[e.v])
      && (place[e.w] < place[e.v] ==> e in fas || IsWeightless(E, e))
  }

  ghost predicate ParallelsTogether(E: Edges, fas: seq<Key>) {
    forall e, f :: e in E && f in E && e.v == f.v && e.w == f.w ==> (e in fas <==> f in fas)
  }

  lemma MergedIsNonNegative(E: Edges)
    requires NoNegativeWeight(E)
    ensures NonNegative(Merged(E))
  {
    forall a | a in Merged(E) ensures Merged(E)[a] >= 0 {
      SumNonNegative(Parallel(E.Keys, a), WeightIn(E));
    }
  }

  lemma MergedIsPositive(E: Edges, e: Key)
    requires NoNegativeWeight(E) && e in E && E[e].weight > 0
    ensures !IsWeightless(E, e)
  {
    var P := Parallel(E.Keys, Arc(e.v, e.w));
    SumPick(P, WeightIn(E), e);
    SumNonNegative(P - {e}, WeightIn(E));
  }

  /** With no negative weight the edges of positive weight are listed exactly if they lead backward in one order. */
  lemma GreedySplitsHeavy(nodes: set<Node>, E: Edges, fas: seq<Key>) returns (place: map<Node, int>)
    requires LoopFree(nodes, E.Keys) && NoNegativeWeight(E) && IsGreedy(nodes, E, fas)
    ensures SplitsHeavy(E, fas, place) && ParallelsTogether(E, fas)
  {
    var trace :| Chosen(nodes, E, fas, trace);
    place := RunHasPlaces(nodes, trace);
    MergedIsNonNegative(E);
    forall e | e in E
      ensures
        && e.v in place && e.w in place && place[e.v] != place[e.w]
        && (e in fas ==> place[e.w] < place[e.v])
        && (place[e.w] < place[e.v] ==> e in fas || IsWeightless(E, e)) {
      var a := Arc(e.v, e.w);
      assert a in Merged(E);
      CollectedIffBackward(Merged(E), nodes, trace, place, a);
    }
  }

  /** With positive weights nothing else leads backward. */
  lemma PositiveGreedyIsFas(nodes: set<Node>, E: Edges, fas: seq<Key>)
    requires LoopFree(nodes, E.Keys) && IsGreedy(nodes, E, fas)
    requires forall e :: e in E ==> E[e].weight > 0
    ensures IsFas(E.Keys, fas)
  {
    var place := GreedySplitsHeavy(nodes, E, fas);
    forall e | e in E ensures !IsWeightless(E, e) { MergedIsPositive(E, e); }
    assert Splits(E.Keys, fas, place);
  }
}
