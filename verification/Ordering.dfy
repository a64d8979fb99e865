/** The nodes of every layer are ordered by sweeps that lower the number of crossings. */
module Ordering {
  import opened Graphs
  import opened Sums
  import opened CrossCount
  import opened ConstraintRuns
  import opened ConflictResolution
  import opened LayerSort
  import opened Layerings
  import opened DepthFirst
  import opened FirstOrder

  // ----- barycenters -----

  /** The edges that tie v to the fixed layer: above it going down, below it going up. */
  function TiesOf(E: set<Segment>, v: Node, down: bool): set<Segment> {
    set e | e in E && (if down then e.w else e.v) == v
  }

  function FarEnd(e: Segment, down: bool): Node {
    if down then e.v else e.w
  }

  ghost function OrderOf(order: map<Node, nat>, v: Node): int {
    if v in order then order[v] else 0
  }

  ghost function TieWeight(T: set<Segment>): int {
    Sum(T, (e: Segment) => e.weight)
  }

  ghost function TiePull(T: set<Segment>, down: bool, order: map<Node, nat>): int {
    Sum(T, (e: Segment) => e.weight * OrderOf(order, FarEnd(e, down)))
  }

  /** The weighted mean of the places of the far ends; none without edges, no number without weight. */
  ghost function ScoreFor(E: set<Segment>, v: Node, down: bool, order: map<Node, nat>): Option<Score> {
    var T := TiesOf(E, v, down);
    if T == {} then None
    else Some(Score(Divide(Num(TiePull(T, down, order) as real), TieWeight(T) as real), TieWeight(T) as real))
  }

  method Barycenter(v: Node, E: set<Segment>, down: bool, order: map<Node, nat>) returns (score: Option<Score>)
    requires forall e :: e in E ==> FarEnd(e, down) in order && e.weight >= 0
    ensures score == ScoreFor(E, v, down, order) && Sane(score)
  {
    var T := TiesOf(E, v, down);
    if T == {} { return None; }
    var sum, weight := 0, 0;
    var todo := T;
    ghost var f, h := (e: Segment) => e.weight * OrderOf(order, FarEnd(e, down)), (e: Segment) => e.weight;
    SumNonNegative(T, h);
    while todo != {}
      invariant todo <= T && sum + Sum(todo, f) == TiePull(T, down, order) && weight + Sum(todo, h) == TieWeight(T)
      decreases todo
    {
      var e :| e in todo;
      SumPick(todo, f, e);
      SumPick(todo, h, e);
      todo := todo - {e};
      sum := sum + e.weight * order[FarEnd(e, down)];
      weight := weight + e.weight;
    }
    score := Some(Score(Divide(Num(sum as real), weight as real), weight as real));
  }

  /** Only the places of the far ends matter. */
  lemma ScoreAgrees(E: set<Segment>, v: Node, down: bool, order: map<Node, nat>, order': map<Node, nat>)
    requires forall e :: e in E ==> OrderOf(order, FarEnd(e, down)) == OrderOf(order', FarEnd(e, down))
    ensures ScoreFor(E, v, down, order) == ScoreFor(E, v, down, order')
  {
    var T := TiesOf(E, v, down);
    SumCong(T, (e: Segment) => e.weight * OrderOf(order, FarEnd(e, down)),
            (e: Segment) => e.weight * OrderOf(order', FarEnd(e, down)));
  }

  /** Layer r is in the order of the barycenters taken from the layer before it, or after it, unless one
      of them is no number. */
  ghost predicate LayerSorted(g: Layers, L: Layering, r: nat, down: bool)
    requires r < |L| && |L| == |g.E| && if down then r > 0 else r + 1 < |L|
  {
    var E, pos := g.E[if down then r else r + 1], PosOf(L[if down then r - 1 else r + 1]);
    (forall v {:trigger ScoreFor(E, v, down, pos)} :: v in L[r] ==> !NotANumber(ScoreFor(E, v, down, pos))) ==>
      forall j, k :: 0 <= j < k < |L[r]| ==> NotAfter(ScoreFor(E, L[r][j], down, pos), ScoreFor(E, L[r][k], down, pos))
  }

  ghost predicate NotANumber(s: Option<Score>) {
    s.Some? && s.value.barycenter.NaN?
  }

  /** All layers but the one the sweep starts from have been sorted. */
  ghost predicate AllSorted(g: Layers, L: Layering, down: bool)
    requires |L| == |g.E|
  {
    if down then forall r {:trigger LayerSorted(g, L, r, true)} :: 1 <= r < |L| ==> LayerSorted(g, L, r, true)
    else forall r {:trigger LayerSorted(g, L, r, false)} :: 0 <= r < |L| - 1 ==> LayerSorted(g, L, r, false)
  }

  /** No constraint is in force in any layer. */
  ghost predicate Free(cons: nat -> set<Con>) {
    forall r :: cons(r) == {}
  }

  /** The scores of layer r by the places in the layer before it, or after it. */
  ghost function LayerScores(g: Layers, L: Layering, r: nat, down: bool): Scores
    requires r < |L| && |L| == |g.E| && if down then r > 0 else r + 1 < |L|
  {
    var E, pos := g.E[if down then r else r + 1], PosOf(L[if down then r - 1 else r + 1]);
    map v | v in L[r] :: ScoreFor(E, v, down, pos)
  }

  /** The constraints between nodes of this layer. */
  ghost function Within(cg: set<Con>, layer: seq<Node>): set<Con> {
    set c | c in cg && c.v in layer && c.w in layer
  }

  /** If all nodes of layer r have numeric scores, the layer is what can come out for them under its constraints, and
      keeps these if they are branchless. */
  ghost predicate LayerKept(g: Layers, L: Layering, r: nat, down: bool, cg: set<Con>)
    requires r < |L| && |L| == |g.E| && if down then r > 0 else r + 1 < |L|
  {
    var C, sc := Within(cg, L[r]), LayerScores(g, L, r, down);
    Numeric(sc) ==> CanComeOut(C, MarksOf(sc), L[r]) && (Branchless(C) ==> KeepsAll(C, L[r]))
  }

  /** What a sweep makes of a layer: it is in the order of its scores where no constraints are in force, and a result
      under its constraints where they are. */
  ghost predicate LayerDone(g: Layers, L: Layering, r: nat, down: bool, cg: set<Con>) {
    forall k {:trigger Look(k)} :: Look(k) ==>
      && r < |L| && |L| == |g.E| && (if down then r > 0 else r + 1 < |L|)
      && (cg == {} ==> LayerSorted(g, L, r, down)) && LayerKept(g, L, r, down, cg)
  }

  /** Sweep i has gone on from the layering L: the layer that it starts with is the one of L. */
  ghost predicate Resumes(L: Layering, L': Layering, i: nat) {
    |L'| == |L| && (L != [] ==> if i % 2 == 1 then L'[0] == L[0] else L'[|L| - 1] == L[|L| - 1])
  }

  ghost predicate ResumesAt(start: Layering, tried: seq<Layering>, i: nat)
    requires i < |tried|
  {
    Resumes(if i == 0 then start else tried[i - 1], tried[i], i)
  }

  /** Every sweep has gone on from what the one before has left, and the first from the start. */
  ghost predicate Chained(start: Layering, tried: seq<Layering>) {
    forall i: nat {:trigger ResumesAt(start, tried, i)} :: i < |tried| ==> ResumesAt(start, tried, i)
  }

  lemma ChainOne(start: Layering, tried: seq<Layering>, L: Layering)
    requires Chained(start, tried) && Resumes(if tried == [] then start else tried[|tried| - 1], L, |tried|)
    ensures Chained(start, tried + [L])
  {
    var tried' := tried + [L];
    forall i: nat | i < |tried'| ensures ResumesAt(start, tried', i) {
      if i < |tried| { assert ResumesAt(start, tried, i); }
    }
  }

  /** The layer that a sweep starts from is left alone. */
  predicate IsSwept(L: Layering, r: nat, down: bool) {
    r < |L| && if down then r > 0 else r + 1 < |L|
  }

  ghost predicate AllDone(g: Layers, L: Layering, down: bool, cons: nat -> set<Con>) {
    forall r: nat {:trigger IsSwept(L, r, down)} :: IsSwept(L, r, down) ==> LayerDone(g, L, r, down, cons(r))
  }

  lemma DoneIsSorted(g: Layers, L: Layering, down: bool, cons: nat -> set<Con>)
    requires |L| == |g.E| && AllDone(g, L, down, cons)
    ensures Free(cons) ==> AllSorted(g, L, down)
  {
    if Free(cons) {
      forall r: nat | IsSwept(L, r, down) ensures LayerSorted(g, L, r, down) {
        assert LayerDone(g, L, r, down, cons(r));
        assert Look(0);
      }
      assert forall r: nat :: 1 <= r < |L| ==> IsSwept(L, r, true);
      assert forall r: nat :: r < |L| - 1 ==> IsSwept(L, r, false);
    }
  }

  lemma DoneStays(g: Layers, L: Layering, L': Layering, q: nat, down: bool, cg: set<Con>)
    requires LayerDone(g, L, q, down, cg) && |L'| == |L| == |g.E| && q < |L| && (if down then q > 0 else q + 1 < |L|)
    requires L'[q] == L[q] && L'[if down then q - 1 else q + 1] == L[if down then q - 1 else q + 1]
    ensures LayerDone(g, L', q, down, cg) == true
  {
    assert Look(0);
    if cg == {} { SortedStays(g, L, L', q, down); }
    assert LayerScores(g, L', q, down) == LayerScores(g, L, q, down);
  }

  lemma SortedStays(g: Layers, L: Layering, L': Layering, q: nat, down: bool)
    requires |L| == |g.E| == |L'| && q < |L| && (if down then q > 0 else q + 1 < |L|) && LayerSorted(g, L, q, down)
    requires L'[q] == L[q] && L'[if down then q - 1 else q + 1] == L[if down then q - 1 else q + 1]
    ensures LayerSorted(g, L', q, down)
  {
  }

  /** The nodes of layer r with their scores, as read off the nodes, put in the order vs. */
  ghost predicate Scored(g: Layers, L: Layering, order: map<Node, nat>, r: nat, down: bool, input: seq<Input>,
                         vs: seq<Node>, L': Layering) {
    && g.Valid() && IsLayering(g, L) && InPlace(L, order) && r < |L| && (if down then r > 0 else r + 1 < |L|)
    && (forall i, j :: 0 <= i < j < |input| ==> input[i].v != input[j].v)
    && (forall x :: x in vs <==> IsInput(input, x))
    && (forall i :: 0 <= i < |input| ==>
        input[i].score == ScoreFor(g.E[if down then r else r + 1], input[i].v, down, order))
    && L' == L[r := vs]
  }

  lemma FixedPlaces(g: Layers, L: Layering, order: map<Node, nat>, r: nat, down: bool, fixed: nat, E: set<Segment>,
                    pos: map<Node, nat>)
    requires g.Valid() && IsLayering(g, L) && InPlace(L, order) && r < |L| && (if down then r > 0 else r + 1 < |L|)
    requires fixed == (if down then r - 1 else r + 1) && E == g.E[if down then r else r + 1] && pos == PosOf(L[fixed])
    ensures forall e :: e in E ==> OrderOf(order, FarEnd(e, down)) == OrderOf(pos, FarEnd(e, down))
  {
    assert LayerOk(g, L, fixed);
    PositionsOf(L[fixed]);
    forall e | e in E ensures OrderOf(order, FarEnd(e, down)) == OrderOf(pos, FarEnd(e, down)) {
      var x := FarEnd(e, down);
      assert x in L[fixed] && L[fixed][pos[x]] == x;
    }
  }

  /** Those are the scores by the places in the fixed layer. */
  lemma ScoresByPlaces(g: Layers, L: Layering, order: map<Node, nat>, r: nat, down: bool, input: seq<Input>,
                       vs: seq<Node>, L': Layering)
    requires Scored(g, L, order, r, down, input, vs, L')
    ensures ScoresOf(input) == LayerScores(g, L', r, down)
  {
    var fixed := if down then r - 1 else r + 1;
    var E, pos := g.E[if down then r else r + 1], PosOf(L[fixed]);
    FixedPlaces(g, L, order, r, down, fixed, E, pos);
    AllByPlaces(input, vs, E, down, order, pos);
  }

  lemma AllByPlaces(input: seq<Input>, vs: seq<Node>, E: set<Segment>, down: bool, order: map<Node, nat>,
                    pos: map<Node, nat>)
    requires forall i, j :: 0 <= i < j < |input| ==> input[i].v != input[j].v
    requires forall i :: 0 <= i < |input| ==> input[i].score == ScoreFor(E, input[i].v, down, order)
    requires forall e :: e in E ==> OrderOf(order, FarEnd(e, down)) == OrderOf(pos, FarEnd(e, down))
    requires forall x :: x in vs <==> IsInput(input, x)
    ensures ScoresOf(input) == map x | x in vs :: ScoreFor(E, x, down, pos)
  {
    var sc := ScoresOf(input);
    forall x | x in vs ensures x in sc && sc[x] == ScoreFor(E, x, down, pos) {
      assert IsInput(input, x);
      ReadByPlaces(input, E, x, down, order, pos);
    }
    forall x | x in sc ensures x in vs {
      ScoresOfKeys(input, x);
      assert IsInput(input, x);
    }
  }

  lemma ReadByPlaces(input: seq<Input>, E: set<Segment>, x: Node, down: bool, order: map<Node, nat>,
                     pos: map<Node, nat>)
    requires forall i, j :: 0 <= i < j < |input| ==> input[i].v != input[j].v
    requires forall i :: 0 <= i < |input| ==> input[i].score == ScoreFor(E, input[i].v, down, order)
    requires forall e :: e in E ==> OrderOf(order, FarEnd(e, down)) == OrderOf(pos, FarEnd(e, down))
    requires IsInput(input, x)
    ensures x in ScoresOf(input) && ScoresOf(input)[x] == ScoreFor(E, x, down, pos)
  {
    var i :| 0 <= i < |input| && input[i].v == x;
    ScoresOfAt(input, i);
    ScoreAgrees(E, x, down, order, pos);
  }

  /** A layer sorted by the scores read off the nodes is sorted by the places in the fixed layer. */
  lemma SortedByPlaces(g: Layers, L: Layering, order: map<Node, nat>, r: nat, down: bool, input: seq<Input>,
                       vs: seq<Node>, L': Layering)
    requires Scored(g, L, order, r, down, input, vs, L')
    requires NoNaN(ScoresOf(input)) ==> InScoreOrder(vs, ScoresOf(input))
    ensures LayerSorted(g, L', r, down)
  {
    ScoresByPlaces(g, L, order, r, down, input, vs, L');
    var E, pos := g.E[if down then r else r + 1], PosOf(L'[if down then r - 1 else r + 1]);
    var sc := LayerScores(g, L', r, down);
    forall x | x in vs ensures x in sc && sc[x] == ScoreFor(E, x, down, pos) {}
  }

  /** What comes out for the nodes as read is what can come out for the layer. */
  lemma KeptByPlaces(g: Layers, L: Layering, order: map<Node, nat>, r: nat, down: bool, input: seq<Input>,
                     vs: seq<Node>, L': Layering, cg: set<Con>, C: set<Con>)
    requires Scored(g, L, order, r, down, input, vs, L')
    requires forall c :: c in C <==> c in cg && IsInput(input, c.v) && IsInput(input, c.w)
    requires Numeric(ScoresOf(input)) ==> CanComeOut(C, MarksOf(ScoresOf(input)), vs)
    requires Branchless(C) && Numeric(ScoresOf(input)) ==> KeepsAll(C, vs)
    ensures LayerKept(g, L', r, down, cg)
  {
    ScoresByPlaces(g, L, order, r, down, input, vs, L');
    SameSet(C, Within(cg, vs));
  }

  // ----- the mutable graph -----

  class OrderGraph {
    const g: Layers
    var order: map<Node, nat>
    ghost var L: Layering

    constructor (g: Layers)
      ensures this.g == g && order == map[]
    {
      this.g, order, L := g, map[], [];
    }

    ghost predicate Valid()
      reads this
    {
      g.Valid() && IsLayering(g, L) && InPlace(L, order) && forall v :: v in g.rank ==> v in order
    }

    /** Writes the places of a whole layering into the nodes. */
    method AssignOrder(layering: Layering)
      requires g.Valid() && IsLayering(g, layering)
      modifies this
      ensures Valid() && L == layering
    {
      for r := 0 to |layering|
        invariant forall i, k :: 0 <= i < r && 0 <= k < |layering[i]| ==>
          layering[i][k] in order && order[layering[i][k]] == k
      {
        AssignLayer(layering, r);
      }
      L := layering;
      forall v | v in g.rank ensures v in order {
        assert LayerOk(g, L, g.rank[v]);
        assert v in L[g.rank[v]];
      }
    }

    method AssignLayer(layering: Layering, r: nat)
      requires g.Valid() && IsLayering(g, layering) && r < |layering|
      requires forall i, k :: 0 <= i < r && 0 <= k < |layering[i]| ==>
        layering[i][k] in order && order[layering[i][k]] == k
      modifies this`order
      ensures forall i, k :: 0 <= i < r + 1 && 0 <= k < |layering[i]| ==>
        layering[i][k] in order && order[layering[i][k]] == k
      ensures forall v :: v in old(order) ==> v in order
      ensures forall v :: v in old(order) && v !in layering[r] ==> order[v] == old(order)[v]
    {
      assert LayerOk(g, layering, r);
      WriteOrder(layering[r]);
      forall i, k | 0 <= i < r && 0 <= k < |layering[i]| ensures layering[i][k] in order && order[layering[i][k]] == k {
        OtherLayer(g, layering, i, k, r);
      }
    }

    /** What barycenter says of the nodes of layer r, in any order. */
    method Movable(r: nat, down: bool) returns (input: seq<Input>)
      requires Valid() && r < |g.E| && (if down then r > 0 else r + 1 < |g.E|)
      ensures (forall i, j :: 0 <= i < j < |input| ==> input[i].v != input[j].v)
        && forall x :: IsInput(input, x) <==> x in g.LayerSet(r)
      ensures forall i :: 0 <= i < |input| ==>
        input[i].score == ScoreFor(g.E[if down then r else r + 1], input[i].v, down, order) && Sane(input[i].score)
    {
      input := [];
      var todo := g.LayerSet(r);
      var E := g.E[if down then r else r + 1];
      while todo != {}
        invariant todo <= g.LayerSet(r)
          && (forall i :: 0 <= i < |input| ==> input[i].v in g.LayerSet(r) && input[i].v !in todo)
        invariant forall x :: x in g.LayerSet(r) && x !in todo ==> IsInput(input, x)
        invariant forall i, j :: 0 <= i < j < |input| ==> input[i].v != input[j].v
        invariant forall i :: 0 <= i < |input| ==>
          input[i].score == ScoreFor(E, input[i].v, down, order) && Sane(input[i].score)
        decreases todo
      {
        var v :| v in todo;
        todo := todo - {v};
        var score := Barycenter(v, E, down, order);
        ghost var before := input;
        input := input + [Input(v, score)];
        forall x | x in g.LayerSet(r) && x !in todo ensures IsInput(input, x) {
          if x == v {
            assert input[|before|].v == x;
          } else {
            var i :| 0 <= i < |before| && before[i].v == x;
            assert input[i].v == x;
          }
        }
      }
    }

    /** Orders layer r by its ties to the layer before or after it, under the constraints between its nodes. */
    method SweepLayer(r: nat, down: bool, biasRight: bool, cg: set<Con>)
      requires Valid() && Consistent(cg) && r < |g.E| && (if down then r > 0 else r + 1 < |g.E|)
      modifies this
      ensures Valid() && |L| == |old(L)| && LayerDone(g, L, r, down, cg) == true
        && forall i :: 0 <= i < |L| && i != r ==> L[i] == old(L)[i]
    {
      var input := Movable(r, down);
      var vs;
      ghost var C;
      vs, C := SortLayer(input, cg, biasRight);
      FewerConstraints(cg, C);
      ghost var L' := L[r := vs];
      SortedLayerOk(g, L, r, input, vs, L');
      SweptIsDone(g, L, order, r, down, input, vs, L', cg, C);
      ghost var order0 := order;
      assert LayerOk(g, L', r);
      WriteOrder(vs);
      OthersStay(g, L, order0, r, L', order);
      L := L';
    }

    static lemma SweptIsDone(g: Layers, L: Layering, order: map<Node, nat>, r: nat, down: bool, input: seq<Input>,
                      vs: seq<Node>, L': Layering, cg: set<Con>, C: set<Con>)
      requires Scored(g, L, order, r, down, input, vs, L')
      requires C == {} && NoNaN(ScoresOf(input)) ==> InScoreOrder(vs, ScoresOf(input))
      requires forall c :: c in C <==> c in cg && IsInput(input, c.v) && IsInput(input, c.w)
      requires Numeric(ScoresOf(input)) ==> CanComeOut(C, MarksOf(ScoresOf(input)), vs)
      requires Branchless(C) && Numeric(ScoresOf(input)) ==> KeepsAll(C, vs)
      ensures LayerDone(g, L', r, down, cg) == true
    {
      if cg == {} {
        assert C == {};
        SortedByPlaces(g, L, order, r, down, input, vs, L');
      }
      KeptByPlaces(g, L, order, r, down, input, vs, L', cg, C);
    }

    method WriteOrder(vs: seq<Node>)
      requires NoRepeats(vs)
      modifies this`order
      ensures forall j :: 0 <= j < |vs| ==> vs[j] in order && order[vs[j]] == j
      ensures forall v :: v in old(order) ==> v in order && (v !in vs ==> order[v] == old(order)[v])
    {
      for k := 0 to |vs|
        invariant forall j :: 0 <= j < k ==> vs[j] in order && order[vs[j]] == j
        invariant forall v :: v in old(order) ==> v in order && (v !in vs ==> order[v] == old(order)[v])
      {
        order := order[vs[k] := k];
      }
    }

    method SweepDown(biasRight: bool, cons: nat -> set<Con>)
      requires Valid() && forall r :: Consistent(cons(r))
      modifies this
      ensures Valid() && AllDone(g, L, true, cons) && |L| == |old(L)| && (|L| > 0 ==> L[0] == old(L)[0])
    {
      var r := 1;
      while r < |g.E|
        invariant Valid() && r >= 1 && |L| == |old(L)| && (|L| > 0 ==> L[0] == old(L)[0])
        invariant forall q: nat {:trigger IsSwept(L, q, true)} :: 1 <= q < r && IsSwept(L, q, true) ==>
          LayerDone(g, L, q, true, cons(q))
      {
        ghost var L0 := L;
        SweepLayer(r, true, biasRight, cons(r));
        forall q: nat | 1 <= q < r ensures LayerDone(g, L, q, true, cons(q)) == true {
          assert IsSwept(L0, q, true);
          DoneStays(g, L0, L, q, true, cons(q));
        }
        r := r + 1;
      }
    }

    method SweepUp(biasRight: bool, cons: nat -> set<Con>)
      requires Valid() && forall r :: Consistent(cons(r))
      modifies this
      ensures Valid() && AllDone(g, L, false, cons) && |L| == |old(L)|
        && (|L| > 0 ==> L[|L| - 1] == old(L)[|L| - 1])
    {
      var r := |g.E| - 2;
      while r >= 0
        invariant Valid() && -2 <= r <= |g.E| - 2 && |L| == |old(L)| && (|L| > 0 ==> L[|L| - 1] == old(L)[|L| - 1])
        invariant forall q: nat {:trigger IsSwept(L, q, false)} :: r < q && IsSwept(L, q, false) ==>
          LayerDone(g, L, q, false, cons(q))
        decreases r
      {
        ghost var L0 := L;
        SweepLayer(r, false, biasRight, cons(r));
        forall q: nat | r < q < |L| - 1 ensures LayerDone(g, L, q, false, cons(q)) == true {
          assert IsSwept(L0, q, false);
          DoneStays(g, L0, L, q, false, cons(q));
        }
        r := r - 1;
      }
    }

    /** One sweep: down or up, with a bias to the left or to the right. */
    method Sweep(i: nat, cons: nat -> set<Con>)
      requires Valid() && forall r :: Consistent(cons(r))
      modifies this
      ensures Valid() && AllDone(g, L, i % 2 == 1, cons) && (Free(cons) ==> AllSorted(g, L, i % 2 == 1))
      ensures Resumes(old(L), L, i)
    {
      var biasRight := i % 4 >= 2;
      if i % 2 == 1 { SweepDown(biasRight, cons); } else { SweepUp(biasRight, cons); }
      DoneIsSorted(g, L, i % 2 == 1, cons);
    }

    /** The layers as lists, read off the nodes. */
    method BuildLayerMatrix() returns (layering: Layering)
      requires Valid()
      ensures layering == L
    {
      layering := [];
      for r := 0 to |g.E|
        invariant layering == L[..r]
      {
        assert LayerOk(g, L, r);
        var layer := BuildLayer(r);
        layering := layering + [layer];
      }
    }

    method BuildLayer(r: nat) returns (layer: seq<Node>)
      requires Valid() && r < |g.E|
      ensures layer == L[r]
    {
      assert LayerOk(g, L, r);
      var todo := g.LayerSet(r);
      LayerSize(g, L, r);
      layer := seq(|todo|, k => Node(0));
      while todo != {}
        invariant todo <= g.LayerSet(r) && |layer| == |L[r]|
        invariant forall k :: 0 <= k < |layer| && L[r][k] !in todo ==> layer[k] == L[r][k]
        decreases todo
      {
        var v :| v in todo;
        todo := todo - {v};
        assert v in L[r];
        layer := layer[order[v] := v];
      }
    }

    method TrySweep(i: nat, cons: nat -> set<Con>) returns (layering: Layering, cc: int)
      requires Valid() && forall r :: Consistent(cons(r))
      modifies this
      ensures Valid() && layering == L && IsLayering(g, layering) && AllDone(g, layering, i % 2 == 1, cons) == true
      ensures cc == CC(g, layering) && cc >= 0 && Resumes(old(L), layering, i)
    {
      Sweep(i, cons);
      layering := BuildLayerMatrix();
      cc := CountAll(g, layering);
    }

    /** Sweeps until three in a row after the best have brought nothing better; tried are the layerings that the
        sweeps left, cons(i)(r) the constraints in force when sweep i comes to layer r. */
    method SweepAll(cons: nat -> nat -> set<Con>)
      returns (best: Layering, ghost bestCC: int, ghost tried: seq<Layering>)
      requires Valid() && forall i, r :: Consistent(cons(i)(r))
      modifies this
      ensures Valid() && BestSoFar(g, cons, tried, best, Some(bestCC), 4) == true && Chained(old(L), tried) == true
    {
      ghost var start := L;
      var found: Option<int> := None;
      var i, lastBest := 0, 0;
      best, tried := [], [];
      while lastBest < 4
        invariant Valid() && lastBest <= 4 && |tried| == i && BestSoFar(g, cons, tried, best, found, lastBest) == true
        invariant Chained(start, tried) == true && L == if tried == [] then start else tried[|tried| - 1]
        decreases if found.None? then 1 else 0, if found.Some? then found.value else 0, 4 - lastBest
      {
        var layering, cc := TrySweep(i, cons(i));
        OneMoreTried(g, cons, tried, best, found, lastBest, layering, cc);
        ChainOne(start, tried, layering);
        tried := tried + [layering];
        if found.None? || cc < found.value {
          lastBest := 0;
          best := layering;
          found := Some(cc);
        }
        i, lastBest := i + 1, lastBest + 1;
      }
      bestCC := found.value;
    }

    /** Starts from a depth-first order and ends with the best layering that the sweeps have left, the first of its
        count. */
    method Order(cons: nat -> nat -> set<Con>)
      returns (ghost entered: seq<Node>, ghost start: Layering, ghost tried: seq<Layering>)
      requires g.Valid() && forall i, r :: Consistent(cons(i)(r))
      modifies this
      ensures Valid() && |tried| >= 4 && L == tried[|tried| - 4]
      ensures IsDepthFirst(g, entered) == true && Layered(g, entered, start) == true && Chained(start, tried) == true
      ensures forall i :: 0 <= i < |tried| ==>
        IsLayering(g, tried[i]) && CC(g, L) <= CC(g, tried[i]) && (Free(cons(i)) ==> AllSorted(g, tried[i], i % 2 == 1))
      ensures forall i: nat {:trigger tried[i]} :: i < |tried| ==> AllDone(g, tried[i], i % 2 == 1, cons(i)) == true
      ensures AllDone(g, L, |tried| % 2 == 1, cons(|tried| - 4)) == true
      ensures forall i :: 0 <= i < |tried| - 4 ==> IsLayering(g, tried[i]) && CC(g, L) < CC(g, tried[i])
    {
      var layering, best;
      ghost var bestCC;
      layering, entered := InitOrder(g);
      AssignOrder(layering);
      start := layering;
      best, bestCC, tried := SweepAll(cons);
      forall k: nat | k < |tried| ensures IsBest(g, cons, tried[k], k, bestCC, k < |tried| - 4) {
        TriedIsNoBetter(g, cons, tried, best, bestCC, k);
      }
      AssignOrder(best);
    }
  }

  /** What is known of the k-th layering tried in the end: it is no better than the best count, or worse. */
  ghost predicate IsBest(g: Layers, cons: nat -> nat -> set<Con>, L: Layering, k: nat, bestCC: int, worse: bool) {
    && IsLayering(g, L) && AllDone(g, L, k % 2 == 1, cons(k)) == true
    && (Free(cons(k)) ==> AllSorted(g, L, k % 2 == 1)) && bestCC <= CC(g, L) && (worse ==> bestCC < CC(g, L))
  }

  lemma TriedIsNoBetter(g: Layers, cons: nat -> nat -> set<Con>, tried: seq<Layering>, best: Layering, bestCC: int,
                        k: nat)
    requires BestSoFar(g, cons, tried, best, Some(bestCC), 4) && k < |tried|
    ensures IsBest(g, cons, tried[k], k, bestCC, k < |tried| - 4)
  {
    assert IsTried(g, cons, tried[k], k, if k < |tried| - 4 then bestCC + 1 else bestCC) == true;
    DoneIsSorted(g, tried[k], k % 2 == 1, cons(k));
  }

  /** best is the first of the layerings tried with the least count, lastBest places from the end. */
  ghost predicate BestSoFar(g: Layers, cons: nat -> nat -> set<Con>, tried: seq<Layering>, best: Layering,
                            bestCC: Option<int>, lastBest: nat) {
    && lastBest <= |tried| && (bestCC.None? <==> tried == []) && (bestCC.None? <==> lastBest == 0)
    && (bestCC.Some? ==>
        && best == tried[|tried| - lastBest] && IsLayering(g, best)
        && bestCC.value == CC(g, best) && bestCC.value >= 0
        && AllTried(g, cons, tried, 0, |tried| - lastBest, bestCC.value + 1) == true
        && AllTried(g, cons, tried, |tried| - lastBest, |tried|, bestCC.value) == true)
  }

  /** The layerings tried from the one place to before the other have come out of their sweeps and count no less. */
  ghost predicate AllTried(g: Layers, cons: nat -> nat -> set<Con>, tried: seq<Layering>, from: int, to: int,
                           least: int) {
    0 <= from <= to <= |tried| && forall k: nat {:trigger tried[k]} :: from <= k < to ==>
      IsTried(g, cons, tried[k], k, least) == true
  }

  /** The k-th layering has come out of its sweep and counts no less. */
  ghost predicate IsTried(g: Layers, cons: nat -> nat -> set<Con>, L: Layering, k: nat, least: int) {
    IsLayering(g, L) && AllDone(g, L, k % 2 == 1, cons(k)) == true && least <= CC(g, L)
  }

  lemma CountsLess(g: Layers, cons: nat -> nat -> set<Con>, L: Layering, k: nat, least: int, least': int)
    requires IsTried(g, cons, L, k, least) == true && least' <= least
    ensures IsTried(g, cons, L, k, least') == true
  {
  }

  lemma TriedStay(g: Layers, cons: nat -> nat -> set<Con>, tried: seq<Layering>, from: int, to: int, least: int,
                  layering: Layering, least': int)
    requires AllTried(g, cons, tried, from, to, least) == true && least' <= least
    ensures AllTried(g, cons, tried + [layering], from, to, least') == true
  {
    forall k: nat | from <= k < to ensures IsTried(g, cons, (tried + [layering])[k], k, least') == true {
      CountsLess(g, cons, tried[k], k, least, least');
    }
  }

  lemma TriedJoin(g: Layers, cons: nat -> nat -> set<Con>, tried: seq<Layering>, from: int, mid: int, to: int,
                  least: int)
    requires AllTried(g, cons, tried, from, mid, least) == true && AllTried(g, cons, tried, mid, to, least) == true
    ensures AllTried(g, cons, tried, from, to, least) == true
  {
  }

  lemma LastTried(g: Layers, cons: nat -> nat -> set<Con>, tried: seq<Layering>, layering: Layering, least: int)
    requires IsLayering(g, layering) && AllDone(g, layering, |tried| % 2 == 1, cons(|tried|)) == true
    requires least <= CC(g, layering)
    ensures AllTried(g, cons, tried + [layering], |tried|, |tried| + 1, least) == true
  {
    assert IsTried(g, cons, layering, |tried|, least) == true;
  }

  lemma OneMoreTried(g: Layers, cons: nat -> nat -> set<Con>, tried: seq<Layering>, best: Layering, bestCC: Option<int>,
                     lastBest: nat, layering: Layering, cc: int)
    requires BestSoFar(g, cons, tried, best, bestCC, lastBest) && IsLayering(g, layering)
    requires AllDone(g, layering, |tried| % 2 == 1, cons(|tried|)) == true
    requires cc == CC(g, layering) && cc >= 0
    ensures (if bestCC.None? || cc < bestCC.value then BestSoFar(g, cons, tried + [layering], layering, Some(cc), 1)
             else BestSoFar(g, cons, tried + [layering], best, bestCC, lastBest + 1)) == true
  {
    var n, tried' := |tried|, tried + [layering];
    if bestCC.None? || cc < bestCC.value {
      if bestCC.Some? {
        TriedStay(g, cons, tried, 0, n - lastBest, bestCC.value + 1, layering, cc + 1);
        TriedStay(g, cons, tried, n - lastBest, n, bestCC.value, layering, cc + 1);
        TriedJoin(g, cons, tried', 0, n - lastBest, n, cc + 1);
      }
      LastTried(g, cons, tried, layering, cc);
    } else {
      TriedStay(g, cons, tried, 0, n - lastBest, bestCC.value + 1, layering, bestCC.value + 1);
      TriedStay(g, cons, tried, n - lastBest, n, bestCC.value, layering, bestCC.value);
      LastTried(g, cons, tried, layering, bestCC.value);
      TriedJoin(g, cons, tried', n - lastBest, n, n + 1, bestCC.value);
    }
  }

  method CountAll(g: Layers, layering: Layering) returns (cc: int)
    requires g.Valid() && IsLayering(g, layering)
    ensures cc == CC(g, layering) && cc >= 0
  {
    ghost var pos := PosSeq(layering);
    forall r | 0 <= r < |layering| ensures Positions(layering[r], pos[r]) {
      assert LayerOk(g, layering, r);
      PositionsOf(layering[r]);
    }
    forall r, e | 1 <= r < |g.E| && e in g.E[r] ensures e.v in pos[r - 1] && e.w in pos[r] {
      assert LayerOk(g, layering, r - 1) && LayerOk(g, layering, r);
    }
    CCIsNat(g, pos, |pos|);
    cc := CrossCount.CrossCount(g.E, layering, pos);
  }

  lemma FewerConstraints(cg: set<Con>, C: set<Con>)
    requires Consistent(cg) && C <= cg
    ensures Consistent(C)
  {
    var place :| Agrees(cg, place);
    assert Agrees(C, place);
  }

  lemma SortedLayerOk(g: Layers, L: Layering, r: nat, input: seq<Input>, vs: seq<Node>, L': Layering)
    requires IsLayering(g, L) && r < |L| && L' == L[r := vs]
    requires (forall i, j :: 0 <= i < j < |input| ==> input[i].v != input[j].v)
      && forall x :: IsInput(input, x) <==> x in g.LayerSet(r)
    requires multiset(vs) == multiset(NodesOf(input))
    ensures IsLayering(g, L') && forall x :: x in vs <==> IsInput(input, x)
  {
    var s := NodesOf(input);
    forall x ensures (x in vs <==> x in g.rank && g.rank[x] == r) && (x in vs <==> IsInput(input, x)) {
      assert x in vs <==> x in multiset(vs);
      assert x in s <==> x in multiset(s);
      if x in s {
        var i :| 0 <= i < |s| && s[i] == x;
        assert IsInput(input, x);
      }
      if IsInput(input, x) {
        var i :| 0 <= i < |input| && input[i].v == x;
        assert s[i] == x;
      }
      assert IsInput(input, x) <==> x in g.LayerSet(r);
    }
    SameNodesNoRepeats(s, vs);
    forall i | 0 <= i < |L'| ensures LayerOk(g, L', i) {
      assert LayerOk(g, L, i);
    }
  }

  lemma SameNodesNoRepeats(a: seq<Node>, b: seq<Node>)
    requires NoRepeats(a) && multiset(a) == multiset(b)
    ensures NoRepeats(b)
  {
    forall i, j | 0 <= i < j < |b| ensures b[i] != b[j] {
      if b[i] == b[j] {
        CountOnce(a, b[i]);
        TwiceInMultiset(b, i, j);
      }
    }
  }

  lemma OthersStay(g: Layers, L: Layering, order: map<Node, nat>, r: nat, L': Layering, order': map<Node, nat>)
    requires IsLayering(g, L) && IsLayering(g, L') && r < |L| && L' == L[r := L'[r]] && InPlace(L, order)
    requires forall j :: 0 <= j < |L'[r]| ==> L'[r][j] in order' && order'[L'[r][j]] == j
    requires forall v :: v in order ==> v in order' && (v !in L'[r] ==> order'[v] == order[v])
    ensures InPlace(L', order')
  {
    forall i, k | 0 <= i < |L'| && 0 <= k < |L'[i]| ensures L'[i][k] in order' && order'[L'[i][k]] == k {
      if i != r { OtherLayer(g, L', i, k, r); }
    }
  }

  lemma LayerSize(g: Layers, L: Layering, r: nat)
    requires r < |L| && LayerOk(g, L, r)
    ensures |g.LayerSet(r)| == |L[r]|
  {
    DistinctSize(L[r], g.LayerSet(r));
  }

  lemma {:induction false} DistinctSize(s: seq<Node>, S: set<Node>)
    requires NoRepeats(s) && forall x :: x in s <==> x in S
    ensures |s| == |S|
    decreases |s|
  {
    if s == [] {
      assert S == {};
    } else {
      var k := |s| - 1;
      assert s[k] in S;
      forall x ensures x in s[..k] <==> x in S - {s[k]} {
        if x in s && x != s[k] {
          var i :| 0 <= i < |s| && s[i] == x;
          assert s[..k][i] == x;
        }
      }
      DistinctSize(s[..k], S - {s[k]});
    }
  }
}
