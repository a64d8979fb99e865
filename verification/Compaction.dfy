/** Brandes-Koepf horizontal compaction: the block graph and its two placement passes. */
module Compaction {
  import opened Graphs
  import opened VerticalAlignment
  import opened BlockOrder
  import opened Sums

  // ----- separation -----

  datatype LabelPos = NoLabel | LeftLabel | CenterLabel | RightLabel

  /** What the position passes read of a node's label. */
  datatype Box = Box(width: real, dummy: bool, labelpos: LabelPos, borderType: Option<bool>)

  /** Node and edge separation of the graph and the box of each node. */
  datatype Spacing = Spacing(boxes: map<Node, Box>, nodeSep: real, edgeSep: real)

  /** The share of one node in a separation: half its width, moved by half a width by a side label. */
  function LabelShift(b: Box, towards: bool): real {
    match b.labelpos
    case LeftLabel => if towards then b.width / 2.0 else -b.width / 2.0
    case RightLabel => if towards then -b.width / 2.0 else b.width / 2.0
    case _ => 0.0
  }

  function Gap(s: Spacing, b: Box): real {
    (if b.dummy then s.edgeSep else s.nodeSep) / 2.0
  }

  /** The distance to keep between v and w, v coming after w in the layer as given. */
  function Sep(s: Spacing, reverseSep: bool, v: Node, w: Node): real
    requires v in s.boxes && w in s.boxes
  {
    var bv, bw := s.boxes[v], s.boxes[w];
    bv.width / 2.0 + LabelShift(bv, !reverseSep) + Gap(s, bv) + Gap(s, bw) + bw.width / 2.0 + LabelShift(bw, reverseSep)
  }

  /** Mirroring a layer and reversing the separation asks for the same distance between two nodes. */
  lemma SepIsMirrored(s: Spacing, v: Node, w: Node)
    requires v in s.boxes && w in s.boxes
    ensures Sep(s, false, v, w) == Sep(s, true, w, v)
  {
  }

  // ----- the block graph -----

  datatype Arc = Arc(v: Node, w: Node)

  /** The neighbours at places a - 1 and a of layer i. */
  ghost predicate Adjacent(L: Layering, i: nat, a: nat, u: Node, v: Node) {
    i < |L| && 1 <= a < |L[i]| && L[i][a - 1] == u && L[i][a] == v
  }

  /** u and v are neighbours in one of the layers treated so far: the first i, and layer i below place a. */
  ghost predicate Neighbors(L: Layering, i: nat, a: nat, u: Node, v: Node) {
    exists j: nat, b: nat :: Adjacent(L, j, b, u, v) && (j < i || (j == i && b < a))
  }

  /** The arcs are the neighbouring blocks; each carries the largest separation any of their neighbouring
      nodes needs, or 0. */
  ghost predicate BlockArcs(L: Layering, s: Spacing, reverseSep: bool, root: map<Node, Node>, i: nat, a: nat,
                            arcs: map<Arc, real>)
    requires forall j, b :: 0 <= j < |L| && 0 <= b < |L[j]| ==> L[j][b] in root && L[j][b] in s.boxes
  {
    && (forall u, v {:trigger Neighbors(L, i, a, u, v)} :: Neighbors(L, i, a, u, v) ==>
          u in root && v in root && Covers(s, reverseSep, root, arcs, u, v))
    && (forall e {:trigger Stems(L, s, reverseSep, root, i, a, arcs, e)} :: e in arcs ==>
        Stems(L, s, reverseSep, root, i, a, arcs, e))
  }

  ghost predicate Covers(s: Spacing, reverseSep: bool, root: map<Node, Node>, arcs: map<Arc, real>, u: Node, v: Node)
    requires u in root && v in root
  {
    var e := Arc(root[u], root[v]);
    e in arcs && u in s.boxes && v in s.boxes && arcs[e] >= Sep(s, reverseSep, v, u) && arcs[e] >= 0.0
  }

  /** The arc comes from two neighbouring nodes, and its separation is 0 or theirs. */
  ghost predicate Stems(L: Layering, s: Spacing, reverseSep: bool, root: map<Node, Node>, i: nat, a: nat,
                        arcs: map<Arc, real>, e: Arc) {
    e in arcs && exists u, v :: Neighbors(L, i, a, u, v) && From(s, reverseSep, root, e, arcs[e], u, v)
  }

  ghost predicate From(s: Spacing, reverseSep: bool, root: map<Node, Node>, e: Arc, x: real, u: Node, v: Node) {
    && u in root && v in root && u in s.boxes && v in s.boxes
    && e == Arc(root[u], root[v]) && x == MaxReal(Sep(s, reverseSep, v, u), 0.0)
  }

  ghost predicate Covered(L: Layering, root: map<Node, Node>, s: Spacing) {
    forall j, b :: 0 <= j < |L| && 0 <= b < |L[j]| ==> L[j][b] in root && L[j][b] in s.boxes
  }

  method BuildBlockGraph(L: Layering, s: Spacing, root: map<Node, Node>, reverseSep: bool)
    returns (nodes: set<Node>, arcs: map<Arc, real>)
    requires Covered(L, root, s)
    ensures BlockArcs(L, s, reverseSep, root, |L|, 0, arcs)
    ensures nodes == set j, b | 0 <= j < |L| && 0 <= b < |L[j]| :: root[L[j][b]]
  {
    nodes, arcs := {}, map[];
    assert forall u, v {:trigger Neighbors(L, 0, 0, u, v)} :: !Neighbors(L, 0, 0, u, v);
    for i := 0 to |L|
      invariant BlockArcs(L, s, reverseSep, root, i, 0, arcs)
      invariant nodes == set j, b | 0 <= j < i && 0 <= b < |L[j]| :: root[L[j][b]]
    {
      var u: Option<Node> := None;
      for a := 0 to |L[i]|
        invariant BlockArcs(L, s, reverseSep, root, i, a, arcs)
        invariant u == if a == 0 then None else Some(L[i][a - 1])
        invariant nodes ==
          (set j, b | 0 <= j < i && 0 <= b < |L[j]| :: root[L[j][b]]) + (set b | 0 <= b < a :: root[L[i][b]])
      {
        var v := L[i][a];
        var vRoot := root[v];
        nodes := nodes + {vRoot};
        ghost var before := arcs;
        if u.Some? {
          var e := Arc(root[u.value], vRoot);
          var prevMax := if e in arcs then arcs[e] else 0.0;
          arcs := arcs[e := MaxReal(Sep(s, reverseSep, v, u.value), prevMax)];
          AddNeighbors(L, s, reverseSep, root, i, a, a + 1, before, u.value, v, arcs);
        } else {
          NoNewNeighbors(L, s, reverseSep, root, i, a, i, a + 1, arcs);
        }
        u := Some(v);
      }
      NoNewNeighbors(L, s, reverseSep, root, i, |L[i]|, i + 1, 0, arcs);
    }
  }

  lemma AddNeighbors(L: Layering, s: Spacing, reverseSep: bool, root: map<Node, Node>, i: nat, a: nat, next: nat,
                     before: map<Arc, real>, u: Node, v: Node, arcs: map<Arc, real>)
    requires Covered(L, root, s) && BlockArcs(L, s, reverseSep, root, i, a, before) && next == a + 1
    requires Adjacent(L, i, a, u, v)
    requires var e := Arc(root[u], root[v]);
      arcs == before[e := MaxReal(Sep(s, reverseSep, v, u), if e in before then before[e] else 0.0)]
    ensures BlockArcs(L, s, reverseSep, root, i, next, arcs)
  {
    var e := Arc(root[u], root[v]);
    forall x, y | Neighbors(L, i, next, x, y)
      ensures x in root && y in root && Covers(s, reverseSep, root, arcs, x, y) {
      var j: nat, b: nat :| Adjacent(L, j, b, x, y) && (j < i || (j == i && b < next));
      if j < i || b < a { assert Neighbors(L, i, a, x, y); }
      if e in before { assert Stems(L, s, reverseSep, root, i, a, before, e); }
    }
    forall f | f in arcs ensures Stems(L, s, reverseSep, root, i, next, arcs, f) {
      if f != e || (f in before && arcs[e] == before[e]) {
        assert Stems(L, s, reverseSep, root, i, a, before, f);
        var x, y :| Neighbors(L, i, a, x, y) && From(s, reverseSep, root, f, before[f], x, y);
        assert Neighbors(L, i, next, x, y);
      } else {
        assert Neighbors(L, i, next, u, v);
        assert From(s, reverseSep, root, e, arcs[e], u, v);
      }
    }
  }

  lemma NoNewNeighbors(L: Layering, s: Spacing, reverseSep: bool, root: map<Node, Node>, i: nat, a: nat, i': nat,
                       a': nat, arcs: map<Arc, real>)
    requires Covered(L, root, s) && BlockArcs(L, s, reverseSep, root, i, a, arcs) && i < |L|
    requires (i' == i && a == 0 && a' == 1) || (i' == i + 1 && a == |L[i]| && a' == 0)
    ensures BlockArcs(L, s, reverseSep, root, i', a', arcs)
  {
    forall x, y | Neighbors(L, i', a', x, y) ensures Neighbors(L, i, a, x, y) {
      var j: nat, b: nat :| Adjacent(L, j, b, x, y) && (j < i' || (j == i' && b < a'));
    }
    forall e | e in arcs ensures Stems(L, s, reverseSep, root, i', a', arcs, e) {
      assert Stems(L, s, reverseSep, root, i, a, arcs, e);
      var x, y :| Neighbors(L, i, a, x, y) && From(s, reverseSep, root, e, arcs[e], x, y);
      var j: nat, b: nat :| Adjacent(L, j, b, x, y) && (j < i || (j == i && b < a));
      assert Neighbors(L, i', a', x, y);
    }
  }
}
