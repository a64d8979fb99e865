/** What a separation means for the boxes: where they lie beside their coordinates, and that they keep clear of each
    other. */
module Boxes {
  import opened Graphs
  import opened Sums
  import opened VerticalAlignment
  import opened Compaction
  import opened Widths

  // ----- where a box lies -----

  /** A box without a side label lies around its coordinate; with the label on the left it ends there, and with the
      label on the right it begins there. */
  function LeftSide(b: Box, x: real): real {
    match b.labelpos
    case LeftLabel => x - b.width
    case RightLabel => x
    case _ => x - b.width / 2.0
  }

  function RightSide(b: Box, x: real): real {
    match b.labelpos
    case LeftLabel => x
    case RightLabel => x + b.width
    case _ => x + b.width / 2.0
  }

  lemma SidesAreApart(b: Box, x: real)
    ensures RightSide(b, x) - LeftSide(b, x) == b.width
  {
  }

  /** The room between two neighbours: the node separation for two nodes, the edge separation for two dummies, and
      their mean for one of each. */
  function Room(nodeSep: real, edgeSep: real, u: Box, v: Box): real {
    match (u.dummy, v.dummy)
    case (false, false) => nodeSep
    case (true, true) => edgeSep
    case _ => (nodeSep + edgeSep) / 2.0
  }

  /** The separation is the distance at which v's box begins that room after u's has ended. */
  lemma SepIsRoom(s: Spacing, u: Node, v: Node, x: real)
    requires u in s.boxes && v in s.boxes
    ensures LeftSide(s.boxes[v], x + Sep(s, false, v, u)) ==
      RightSide(s.boxes[u], x) + Room(s.nodeSep, s.edgeSep, s.boxes[u], s.boxes[v])
  {
  }

  // ----- all boxes of a layer -----

  ghost predicate HasRoom(s: Spacing, xs: Xs, u: Node, v: Node) {
    && u in xs && v in xs && u in s.boxes && v in s.boxes
    && RightSide(s.boxes[u], xs[u]) + Room(s.nodeSep, s.edgeSep, s.boxes[u], s.boxes[v]) <= LeftSide(s.boxes[v], xs[v])
  }

  /** Between every two neighbours of a layer there is that room. */
  ghost predicate Roomy(L: Layering, s: Spacing, xs: Xs) {
    forall i: nat, a: nat, u, v {:trigger Adjacent(L, i, a, u, v)} :: Adjacent(L, i, a, u, v) ==> HasRoom(s, xs, u, v)
  }

  lemma MoveLeftSide(b: Box, x: real, y: real)
    ensures LeftSide(b, y) - LeftSide(b, x) == y - x
  {
  }

  lemma ApartHasRoom(s: Spacing, xs: Xs, u: Node, v: Node)
    requires u in xs && v in xs && u in s.boxes && v in s.boxes
    ensures xs[v] - xs[u] >= Sep(s, false, v, u) <==> HasRoom(s, xs, u, v)
  {
    SepIsRoom(s, u, v, xs[u]);
    MoveLeftSide(s.boxes[v], xs[u] + Sep(s, false, v, u), xs[v]);
  }

  ghost predicate NothingNegative(s: Spacing) {
    s.nodeSep >= 0.0 && s.edgeSep >= 0.0 && forall v :: v in s.boxes ==> s.boxes[v].width >= 0.0
  }

  /** One box ends before the other begins. */
  ghost predicate Clear(s: Spacing, xs: Xs, u: Node, v: Node) {
    && u in xs && v in xs && u in s.boxes && v in s.boxes
    && RightSide(s.boxes[u], xs[u]) <= LeftSide(s.boxes[v], xs[v])
  }

  ghost predicate AllClear(L: Layering, s: Spacing, xs: Xs) {
    forall i: nat, a: nat, b: nat :: i < |L| && a < b < |L[i]| ==> Clear(s, xs, L[i][a], L[i][b])
  }

  /** With nothing negative, no two boxes of a layer overlap. */
  lemma {:induction false} NoneOverlap(L: Layering, s: Spacing, xs: Xs, i: nat, a: nat, b: nat)
    requires Roomy(L, s, xs) && NothingNegative(s) && i < |L| && a < b < |L[i]|
    ensures Clear(s, xs, L[i][a], L[i][b])
    decreases b
  {
    assert Adjacent(L, i, b, L[i][b - 1], L[i][b]);
    if a < b - 1 {
      NoneOverlap(L, s, xs, i, a, b - 1);
      SidesAreApart(s.boxes[L[i][b - 1]], xs[L[i][b - 1]]);
    }
  }
}
