/** What decides which of the four assignments is taken for the narrowest. */
module Widths {
  import opened Graphs
  import opened Sums
  import opened Compaction

  type Xs = map<Node, real>

  ghost predicate Boxed(s: Spacing, xs: Xs) {
    xs.Keys <= s.boxes.Keys
  }

  function LeftEdge(s: Spacing, xs: Xs, v: Node): real
    requires v in xs && v in s.boxes
  {
    xs[v] - s.boxes[v].width / 2.0
  }

  function RightEdge(s: Spacing, xs: Xs, v: Node): real
    requires v in xs && v in s.boxes
  {
    xs[v] + s.boxes[v].width / 2.0
  }

  /** No box reaches further left than that of v, and none further right than that of w. */
  ghost predicate AreEnds(s: Spacing, xs: Xs, v: Node, w: Node)
    requires Boxed(s, xs)
  {
    && v in xs && w in xs
    && (forall u :: u in xs ==> LeftEdge(s, xs, v) <= LeftEdge(s, xs, u))
    && (forall u :: u in xs ==> RightEdge(s, xs, u) <= RightEdge(s, xs, w))
  }

  /** What the code compares: the callbacks see the edges of the boxes, but their centres are returned. */
  ghost function Measure(xs: Xs, v: Node, w: Node): real
    requires v in xs && w in xs
  {
    xs[w] - xs[v]
  }

  /** How far the boxes reach. */
  ghost function Extent(s: Spacing, xs: Xs, v: Node, w: Node): real
    requires Boxed(s, xs) && v in xs && w in xs
  {
    RightEdge(s, xs, w) - LeftEdge(s, xs, v)
  }

  lemma ExtentIsMeasureAndHalves(s: Spacing, xs: Xs, v: Node, w: Node)
    requires Boxed(s, xs) && v in xs && w in xs
    ensures Extent(s, xs, v, w) == Measure(xs, v, w) + (s.boxes[v].width + s.boxes[w].width) / 2.0
  {
  }

  // ----- the program -----

  /** lodash's min or max with a callback: the node whose box reaches furthest, of which the centre is taken. */
  method FurthestNode(s: Spacing, xs: Xs, right: bool) returns (v: Node)
    requires Boxed(s, xs) && xs.Keys != {}
    ensures v in xs
    ensures forall u :: u in xs ==>
      if right then RightEdge(s, xs, u) <= RightEdge(s, xs, v) else LeftEdge(s, xs, v) <= LeftEdge(s, xs, u)
  {
    var todo := xs.Keys;
    v :| v in todo;
    todo := todo - {v};
    while todo != {}
      invariant todo <= xs.Keys && v in xs
      invariant forall u :: u in xs && u !in todo ==>
        if right then RightEdge(s, xs, u) <= RightEdge(s, xs, v) else LeftEdge(s, xs, v) <= LeftEdge(s, xs, u)
      decreases todo
    {
      var u :| u in todo;
      todo := todo - {u};
      if (if right then RightEdge(s, xs, u) > RightEdge(s, xs, v)
          else LeftEdge(s, xs, u) < LeftEdge(s, xs, v)) { v := u; }
    }
  }

  method MeasureOf(s: Spacing, xs: Xs) returns (m: real, ghost v: Node, ghost w: Node)
    requires Boxed(s, xs) && xs.Keys != {}
    ensures AreEnds(s, xs, v, w) && m == Measure(xs, v, w)
  {
    var left := FurthestNode(s, xs, false);
    var right := FurthestNode(s, xs, true);
    v, w := left, right;
    m := xs[right] - xs[left];
  }

  // ----- when the least measure is the least extent -----

  /** Of any two assignments to the nodes V, the one that the code prefers is no wider. */
  ghost predicate AlwaysNarrowest(s: Spacing, V: set<Node>)
    requires V <= s.boxes.Keys
  {
    forall xs: Xs, ys: Xs, v, w, v', w' {:trigger AreEnds(s, xs, v, w), AreEnds(s, ys, v', w')} ::
      xs.Keys == V && ys.Keys == V && AreEnds(s, xs, v, w) && AreEnds(s, ys, v', w')
        && Measure(xs, v, w) <= Measure(ys, v', w')
      ==> Extent(s, xs, v, w) <= Extent(s, ys, v', w')
  }

  ghost predicate AllEqual(s: Spacing, V: set<Node>)
    requires V <= s.boxes.Keys
  {
    forall v, w :: v in V && w in V ==> s.boxes[v].width == s.boxes[w].width
  }

  lemma ThirdIsOneOfTwo(V: set<Node>, a: Node, b: Node, c: Node)
    requires |V| <= 2 && a in V && b in V && c in V && a != b
    ensures c == a || c == b
  {
    if c != a && c != b {
      SizeMonotone({a, b, c}, V);
    }
  }

  lemma ReachesAround(s: Spacing, xs: Xs, v: Node, w: Node, u: Node)
    requires Boxed(s, xs) && AreEnds(s, xs, v, w) && u in xs
    ensures Measure(xs, v, w) >= 0.0 && Extent(s, xs, v, w) >= s.boxes[u].width
    ensures Measure(xs, v, w) == 0.0 ==> s.boxes[v].width == s.boxes[w].width
  {
    assert LeftEdge(s, xs, v) <= LeftEdge(s, xs, u) && RightEdge(s, xs, u) <= RightEdge(s, xs, w);
    assert LeftEdge(s, xs, v) <= LeftEdge(s, xs, w) && RightEdge(s, xs, v) <= RightEdge(s, xs, w);
  }

  lemma PreferredIsNarrowest(s: Spacing, xs: Xs, ys: Xs, v: Node, w: Node, v': Node, w': Node)
    requires Boxed(s, xs) && xs.Keys == ys.Keys && (|xs.Keys| <= 2 || AllEqual(s, xs.Keys))
    requires AreEnds(s, xs, v, w) && AreEnds(s, ys, v', w') && Measure(xs, v, w) <= Measure(ys, v', w')
    ensures Extent(s, xs, v, w) <= Extent(s, ys, v', w')
  {
    ExtentIsMeasureAndHalves(s, xs, v, w);
    ExtentIsMeasureAndHalves(s, ys, v', w');
    ReachesAround(s, xs, v, w, v);
    ReachesAround(s, ys, v', w', v);
    if Measure(xs, v, w) != 0.0 && |xs.Keys| <= 2 {
      ThirdIsOneOfTwo(xs.Keys, v, w, v');
      ThirdIsOneOfTwo(xs.Keys, v, w, w');
    }
  }

  ghost function WidthBound(s: Spacing, V: set<Node>): (b: real)
    requires V <= s.boxes.Keys
    ensures b >= 0.0 && forall v :: v in V ==> -b <= s.boxes[v].width <= b
  {
    if V == {} then 0.0 else
      var v :| v in V;
      var b, w := WidthBound(s, V - {v}), s.boxes[v].width;
      if w > b then w else if -w > b then -w else b
  }

  /** v and w at distance d, all other nodes in the middle. */
  function Spread(V: set<Node>, v: Node, w: Node, d: real): Xs {
    map u | u in V :: if u == v then 0.0 else if u == w then d else d / 2.0
  }

  lemma SpreadHasEnds(s: Spacing, V: set<Node>, v: Node, w: Node, d: real)
    requires V <= s.boxes.Keys && v in V && w in V && v != w && d >= 2.0 * WidthBound(s, V)
    ensures AreEnds(s, Spread(V, v, w, d), v, w) && Measure(Spread(V, v, w, d), v, w) == d
  {
  }

  lemma WidestIsPreferred(s: Spacing, V: set<Node>, p: Node, q: Node, r: Node)
    requires V <= s.boxes.Keys && p in V && q in V && r in V && p != r && q != r && s.boxes[p].width > s.boxes[q].width
    ensures !AlwaysNarrowest(s, V)
  {
    var d := 2.0 * WidthBound(s, V);
    var d' := d + (s.boxes[p].width - s.boxes[q].width) / 4.0;
    var xs, ys := Spread(V, p, r, d), Spread(V, q, r, d');
    SpreadHasEnds(s, V, p, r, d);
    SpreadHasEnds(s, V, q, r, d');
    ExtentIsMeasureAndHalves(s, xs, p, r);
    ExtentIsMeasureAndHalves(s, ys, q, r);
    assert xs.Keys == V && ys.Keys == V;
  }

  lemma ThirdNode(V: set<Node>, a: Node, b: Node) returns (c: Node)
    requires |V| > 2 && a in V && b in V
    ensures c in V && c != a && c != b
  {
    var two := {a} + {b};
    assert |two| <= 2;
    if V <= two { SizeMonotone(V, two); }
    c :| c in V && c !in two;
  }

  /** The preferred assignment is a narrowest one, whatever the four are, exactly if there are at most two
      nodes or all are equally wide. */
  lemma NarrowestIffEqual(s: Spacing, V: set<Node>)
    requires V <= s.boxes.Keys
    ensures AlwaysNarrowest(s, V) <==> |V| <= 2 || AllEqual(s, V)
  {
    if |V| <= 2 || AllEqual(s, V) {
      forall xs: Xs, ys: Xs, v, w, v', w' {:trigger AreEnds(s, xs, v, w), AreEnds(s, ys, v', w')} |
        xs.Keys == V && ys.Keys == V && AreEnds(s, xs, v, w) && AreEnds(s, ys, v', w')
          && Measure(xs, v, w) <= Measure(ys, v', w')
        ensures Extent(s, xs, v, w) <= Extent(s, ys, v', w')
      {
        PreferredIsNarrowest(s, xs, ys, v, w, v', w');
      }
    } else {
      var p, q :| p in V && q in V && s.boxes[p].width > s.boxes[q].width;
      var r := ThirdNode(V, p, q);
      WidestIsPreferred(s, V, p, q, r);
    }
  }

  /** Two boxes of width 100, and one of width 0 between them in number. */
  function TwoWideOneThin(): Spacing {
    var wide, thin := Box(100.0, false, NoLabel, None), Box(0.0, false, NoLabel, None);
    Spacing(map[Node(0) := wide, Node(1) := thin, Node(2) := wide], 0.0, 0.0)
  }

  function At(x0: real, x1: real, x2: real): Xs {
    map[Node(0) := x0, Node(1) := x1, Node(2) := x2]
  }

  /** The assignment that reaches over 110 is preferred to the one that reaches over 101. */
  lemma WiderIsPreferred()
    ensures var s, A, B := TwoWideOneThin(), At(0.0, 51.0, 0.0), At(0.0, 0.0, 10.0);
      && Boxed(s, A) && Boxed(s, B)
      && AreEnds(s, A, Node(0), Node(1)) && AreEnds(s, B, Node(0), Node(2))
      && (forall v, w :: AreEnds(s, A, v, w) ==> Measure(A, v, w) == 51.0 && Extent(s, A, v, w) == 101.0)
      && (forall v, w :: AreEnds(s, B, v, w) ==> Measure(B, v, w) == 10.0 && Extent(s, B, v, w) == 110.0)
  {
    var s, A, B := TwoWideOneThin(), At(0.0, 51.0, 0.0), At(0.0, 0.0, 10.0);
    forall v, w | AreEnds(s, A, v, w) ensures Measure(A, v, w) == 51.0 && Extent(s, A, v, w) == 101.0 {
      assert LeftEdge(s, A, v) <= LeftEdge(s, A, Node(0)) && RightEdge(s, A, Node(1)) <= RightEdge(s, A, w);
    }
    forall v, w | AreEnds(s, B, v, w) ensures Measure(B, v, w) == 10.0 && Extent(s, B, v, w) == 110.0 {
      assert LeftEdge(s, B, v) <= LeftEdge(s, B, Node(0)) && RightEdge(s, B, Node(2)) <= RightEdge(s, B, w);
    }
  }
}
