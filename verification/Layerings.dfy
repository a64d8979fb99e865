/** Nodes in layers: what a layering is, and how many crossings it has. */
module Layerings {
  import opened Graphs
  import opened Sums
  import opened CrossCount
  import opened ConstraintRuns

  type Layering = seq<seq<Node>>

  /** A node's rank is its layer; E[r] holds the edges from layer r - 1 to layer r. */
  datatype Layers = Layers(rank: map<Node, nat>, E: seq<set<Segment>>) {
    ghost predicate Valid() {
      && (forall v :: v in rank ==> rank[v] < |E|)
      && (forall r, e {:trigger e in E[r]} :: 0 <= r < |E| && e in E[r] ==>
        e.v in rank && e.w in rank && rank[e.v] + 1 == r == rank[e.w] && e.weight >= 0)
    }

    function LayerSet(r: int): set<Node> {
      set v | v in rank && rank[v] == r
    }

    /** The nodes that edges lead to from v. */
    function Successors(v: Node): set<Node> {
      set r, e | 0 <= r < |E| && e in E[r] && e.v == v :: e.w
    }
  }

  /** Each layer of L lists its nodes once. */
  ghost predicate IsLayering(g: Layers, L: Layering) {
    |L| == |g.E| && forall r {:trigger LayerOk(g, L, r)} :: 0 <= r < |L| ==> LayerOk(g, L, r)
  }

  ghost predicate LayerOk(g: Layers, L: Layering, r: int)
    requires 0 <= r < |L|
  {
    NoRepeats(L[r]) && forall x :: x in L[r] <==> x in g.rank && g.rank[x] == r
  }

  /** Every node's order is its place in its layer. */
  ghost predicate InPlace(L: Layering, order: map<Node, nat>) {
    forall r, k :: 0 <= r < |L| && 0 <= k < |L[r]| ==> L[r][k] in order && order[L[r][k]] == k
  }

  ghost function PosOf(layer: seq<Node>): map<Node, nat> {
    map x | x in layer :: PlaceIn(layer, x)
  }

  ghost function PosSeq(L: Layering): seq<map<Node, nat>> {
    seq(|L|, r requires 0 <= r < |L| => PosOf(L[r]))
  }

  /** The number of crossings of a layering, each counted with the product of its edges' weights. */
  ghost function CC(g: Layers, L: Layering): int
    requires |L| == |g.E|
  {
    LayerCrossings(g.E, PosSeq(L), |L|)
  }

  lemma PositionsOf(layer: seq<Node>)
    requires NoRepeats(layer)
    ensures Positions(layer, PosOf(layer))
  {
    forall k | 0 <= k < |layer| ensures PlaceIn(layer, layer[k]) == k {
      assert layer[k] in layer;
    }
  }

  lemma CrossingsAreNat(E: set<Segment>, north: map<Node, nat>, south: map<Node, nat>)
    requires forall e :: e in E ==> e.weight >= 0
    ensures Crossings(E, north, south) >= 0
  {
    forall f | f in E ensures CrossedBy(E, north, south, f) >= 0 {
      forall e | e in E ensures CrossWeight(north, south, e, f) >= 0 {
        ProductIsNat(f.weight, e.weight);
      }
      SumNonNegative(E, (e: Segment) => CrossWeight(north, south, e, f));
    }
    SumNonNegative(E, (f: Segment) => CrossedBy(E, north, south, f));
  }

  lemma ProductIsNat(a: int, b: int)
    requires a >= 0 && b >= 0
    ensures a * b >= 0
  {
  }

  lemma {:induction false} CCIsNat(g: Layers, pos: seq<map<Node, nat>>, n: nat)
    requires g.Valid() && n <= |pos| && |pos| == |g.E|
    ensures LayerCrossings(g.E, pos, n) >= 0
    decreases n
  {
    if n > 1 {
      CCIsNat(g, pos, n - 1);
      forall e | e in g.E[n - 1] ensures e.weight >= 0 {}
      CrossingsAreNat(g.E[n - 1], pos[n - 2], pos[n - 1]);
    }
  }

  lemma OtherLayer(g: Layers, L: Layering, i: nat, k: nat, r: nat)
    requires IsLayering(g, L) && i < |L| && r < |L| && i != r && k < |L[i]|
    ensures L[i][k] !in L[r]
  {
    assert LayerOk(g, L, i) && LayerOk(g, L, r);
    assert L[i][k] in L[i];
  }
}
