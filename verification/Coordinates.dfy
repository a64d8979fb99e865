/** The four Brandes-Koepf alignments and their balance: no layer ever loses its separation. */
module Coordinates {
  import opened Graphs
  import opened Sums
  import opened VerticalAlignment
  import opened BlockOrder
  import opened Compaction
  import opened Widths
  import opened Boxes
  import opened Placement

  /** u stands directly before v in some layer. */
  ghost predicate NextTo(L: Layering, u: Node, v: Node) {
    exists i: nat, a: nat :: Adjacent(L, i, a, u, v)
  }

  /** Every two neighbours in a layer are at least their separation apart. */
  ghost predicate Separated(L: Layering, s: Spacing, reverseSep: bool, xs: Xs) {
    forall u, v {:trigger NextTo(L, u, v)} :: NextTo(L, u, v) ==> Apart(s, reverseSep, xs, u, v)
  }

  ghost predicate Apart(s: Spacing, reverseSep: bool, xs: Xs, u: Node, v: Node) {
    u in xs && v in xs && u in s.boxes && v in s.boxes && xs[v] - xs[u] >= Sep(s, reverseSep, v, u)
  }

  // ----- horizontalCompaction -----

  lemma ArcsPointForward(L: Layering, s: Spacing, reverseSep: bool, al: Alignment, N: set<Node>, arcs: map<Arc, real>,
                         ord: Xs, i: nat)
    requires Covered(L, al.root, s) && i == |L| && BlockArcs(L, s, reverseSep, al.root, i, 0, arcs)
    requires N == set j, b | 0 <= j < |L| && 0 <= b < |L[j]| :: al.root[L[j][b]]
    requires Orders(L, al.root, ord, i)
    ensures Forward(N, arcs, ord)
  {
    forall x | x in N ensures x in ord {
      var j, b :| 0 <= j < |L| && 0 <= b < |L[j]| && x == al.root[L[j][b]];
      assert Grows(L[j], al.root, ord);
    }
    forall e | e in arcs ensures e.v in N && e.w in N && ord[e.v] < ord[e.w] {
      assert Stems(L, s, reverseSep, al.root, i, 0, arcs, e);
      var u, v :| Neighbors(L, i, 0, u, v) && From(s, reverseSep, al.root, e, arcs[e], u, v);
      var j: nat, b: nat :| Adjacent(L, j, b, u, v);
      assert Grows(L[j], al.root, ord);
    }
  }

  /** Coordinates that respect the arcs, spread over the blocks, separate every layer. */
  lemma BlocksSeparateLayers(L: Layering, s: Spacing, reverseSep: bool, root: map<Node, Node>, arcs: map<Arc, real>,
                             blockXs: Xs, xs: Xs, i: nat)
    requires Covered(L, root, s) && i == |L| && BlockArcs(L, s, reverseSep, root, i, 0, arcs) && Holds(arcs, blockXs)
    requires forall v {:trigger Spread(root, blockXs, xs, v)} :: v in root ==> Spread(root, blockXs, xs, v)
    ensures Separated(L, s, reverseSep, xs)
  {
    forall u, v | NextTo(L, u, v) ensures Apart(s, reverseSep, xs, u, v) {
      var j: nat, b: nat :| Adjacent(L, j, b, u, v);
      assert Neighbors(L, i, 0, u, v);
      assert Covers(s, reverseSep, root, arcs, u, v);
      assert Spread(root, blockXs, xs, u) && Spread(root, blockXs, xs, v);
    }
  }

  /** Both passes over the block graph. */
  method PlaceBlocks(L: Layering, s: Spacing, root: map<Node, Node>, reverseSep: bool, ghost al: Alignment,
                     ghost n: nat)
    returns (ghost arcs: map<Arc, real>, blockXs: Xs, ghost first: Xs)
    requires Placed(L, al.rank, al.pos) && al.Valid() && al.root == root && n == |L|
    requires Covered(L, root, s)
    ensures BlockArcs(L, s, reverseSep, root, n, 0, arcs) && Holds(arcs, blockXs)
      && BothPasses(s, arcs, reverseSep, first, blockXs)
    ensures Spreadable(al, blockXs, n)
  {
    var N, seps := BuildBlockGraph(L, s, root, reverseSep);
    arcs := seps;
    ghost var ord := BlocksAreOrdered(L, al, n);
    ArcsPointForward(L, s, reverseSep, al, N, arcs, ord, n);
    RootsAreBlocks(L, al, N);
    blockXs, first := RunPasses(s, N, seps, reverseSep, ord);
    MayBeSpread(L, al, blockXs, n);
  }

  /** Blocks at the border that the run leaves alone when it pulls the others to the right. */
  function Borders(s: Spacing, N: set<Node>, reverseSep: bool): set<Node> {
    set v | v in N && v in s.boxes && s.boxes[v].borderType == Some(reverseSep)
  }

  /** first has every block as far left as the arcs allow; in blockXs each is pulled right as far as they do. */
  ghost predicate BothPasses(s: Spacing, arcs: map<Arc, real>, reverseSep: bool, first: Xs, blockXs: Xs) {
    forall k {:trigger Look(k)} :: Look(k) ==>
      && PlacedLeft(arcs, first, blockXs.Keys)
      && PulledRight(arcs, first, blockXs, Borders(s, blockXs.Keys, reverseSep), blockXs.Keys)
  }

  method RunPasses(s: Spacing, N: set<Node>, arcs: map<Arc, real>, reverseSep: bool, ghost ord: Xs)
    returns (blockXs: Xs, ghost first: Xs)
    requires Forward(N, arcs, ord)
    ensures Holds(arcs, blockXs) && blockXs.Keys == N && BothPasses(s, arcs, reverseSep, first, blockXs)
  {
    var left := PlaceLeft(N, arcs, ord);
    first := left;
    PlacedLeftHolds(N, arcs, ord, left);
    var borders := Borders(s, N, reverseSep);
    blockXs := PullRight(N, arcs, borders, left, ord);
    SameSet(blockXs.Keys, N);
  }

  /** The blocks have gone through both passes, and every node has its block's coordinate. */
  ghost predicate CompactedBy(L: Layering, s: Spacing, reverseSep: bool, root: map<Node, Node>, arcs: map<Arc, real>,
                              first: Xs, blockXs: Xs, xs: Xs) {
    && Covered(L, root, s) && BlockArcs(L, s, reverseSep, root, |L|, 0, arcs)
    && BothPasses(s, arcs, reverseSep, first, blockXs) && xs.Keys == root.Keys
    && forall v {:trigger Spread(root, blockXs, xs, v)} :: v in root ==> Spread(root, blockXs, xs, v)
  }

  lemma SealCompaction(L: Layering, s: Spacing, reverseSep: bool, root: map<Node, Node>, arcs: map<Arc, real>,
                       first: Xs, blockXs: Xs, xs: Xs, n: nat)
    requires Covered(L, root, s) && n == |L| && BlockArcs(L, s, reverseSep, root, n, 0, arcs) == true
    requires BothPasses(s, arcs, reverseSep, first, blockXs) == true && xs.Keys == root.Keys
    requires forall v {:trigger Spread(root, blockXs, xs, v)} :: v in root ==> Spread(root, blockXs, xs, v)
    ensures CompactedBy(L, s, reverseSep, root, arcs, first, blockXs, xs) == true
  {
  }

  method HorizontalCompaction(L: Layering, s: Spacing, root: map<Node, Node>, align: map<Node, Node>, reverseSep: bool,
                              ghost al: Alignment)
    returns (xs: Xs, ghost arcs: map<Arc, real>, ghost first: Xs, ghost blockXs: Xs)
    requires Placed(L, al.rank, al.pos) && al.Valid() && al.root == root && al.align == align
    requires al.rank.Keys <= s.boxes.Keys
    ensures Separated(L, s, reverseSep, xs) && CompactedBy(L, s, reverseSep, root, arcs, first, blockXs, xs) == true
    ensures BlockArcs(L, s, reverseSep, root, |L|, 0, arcs) && BothPasses(s, arcs, reverseSep, first, blockXs)
    ensures forall v {:trigger Spread(root, blockXs, xs, v)} :: v in root ==> Spread(root, blockXs, xs, v)
    ensures forall v {:trigger AtRoot(root, xs, v)} :: v in root ==> AtRoot(root, xs, v)
    ensures xs.Keys == root.Keys
  {
    ghost var n := |L|;
    var placed;
    LayersAreCovered(L, s, al);
    arcs, placed, first := PlaceBlocks(L, s, root, reverseSep, al, n);
    blockXs := placed;
    xs := SpreadSeparated(L, s, root, align, reverseSep, placed, al, n, arcs, first);
  }

  lemma LayersAreCovered(L: Layering, s: Spacing, al: Alignment)
    requires Placed(L, al.rank, al.pos) && al.Valid() && al.rank.Keys <= s.boxes.Keys
    ensures Covered(L, al.root, s)
  {
  }

  lemma MayBeSpread(L: Layering, al: Alignment, blockXs: Xs, n: nat)
    requires Placed(L, al.rank, al.pos) && al.Valid() && n == |L|
    requires blockXs.Keys <= al.root.Keys && forall v :: v in al.root ==> al.root[v] in blockXs
    ensures Spreadable(al, blockXs, n)
  {
  }

  method SpreadSeparated(L: Layering, s: Spacing, root: map<Node, Node>, align: map<Node, Node>, reverseSep: bool,
                         blockXs: Xs, ghost al: Alignment, ghost n: nat, ghost arcs: map<Arc, real>,
                         ghost first: Xs)
    returns (xs: Xs)
    requires al.root == root && al.align == align && Spreadable(al, blockXs, n) && n == |L|
    requires Covered(L, root, s) && BlockArcs(L, s, reverseSep, root, n, 0, arcs) && Holds(arcs, blockXs)
    requires BothPasses(s, arcs, reverseSep, first, blockXs) == true
    ensures CompactedBy(L, s, reverseSep, root, arcs, first, blockXs, xs) == true
    ensures Separated(L, s, reverseSep, xs) && xs.Keys == root.Keys
    ensures forall v {:trigger Spread(root, blockXs, xs, v)} :: v in root ==> Spread(root, blockXs, xs, v)
    ensures forall v {:trigger AtRoot(root, xs, v)} :: v in root ==> AtRoot(root, xs, v)
  {
    xs := SpreadOverBlocks(root, align, blockXs, al, n);
    BlocksSeparateLayers(L, s, reverseSep, root, arcs, blockXs, xs, n);
    SealCompaction(L, s, reverseSep, root, arcs, first, blockXs, xs, n);
  }

  lemma RootsAreBlocks(L: Layering, al: Alignment, N: set<Node>)
    requires Placed(L, al.rank, al.pos) && al.Valid()
    requires N == set j, b | 0 <= j < |L| && 0 <= b < |L[j]| :: al.root[L[j][b]]
    ensures N <= al.rank.Keys && forall v :: v in al.rank ==> al.root[v] in N
  {
    forall x | x in N ensures x in al.rank {
      var j, b :| 0 <= j < |L| && 0 <= b < |L[j]| && x == al.root[L[j][b]];
      al.RootIsAbove(L[j][b]);
    }
    forall v | v in al.rank ensures al.root[v] in N {
      IsAtItsPlace(L, al.rank, al.pos, v, al.rank[v]);
    }
  }

  /** Every node takes the coordinate of its block: running over the values of align reaches all nodes,
      because align permutes them. */
  method SpreadOverBlocks(root: map<Node, Node>, align: map<Node, Node>, blockXs: Xs, ghost al: Alignment,
                          ghost height: nat) returns (xs: Xs)
    requires al.root == root && al.align == align && Spreadable(al, blockXs, height)
    ensures xs.Keys == root.Keys
    ensures forall v {:trigger Spread(root, blockXs, xs, v)} :: v in root ==> Spread(root, blockXs, xs, v)
    ensures forall v {:trigger AtRoot(root, xs, v)} :: v in root ==> AtRoot(root, xs, v)
  {
    xs := blockXs;
    var todo := align.Keys;
    SpreadNone(al, blockXs, xs, height, todo);
    while todo != {}
      invariant todo <= al.align.Keys && SpreadExcept(al.root, al.align, blockXs, xs, todo)
      decreases todo
    {
      var k :| k in todo;
      ghost var before, left := xs, todo;
      Shrinks(todo, k);
      todo := todo - {k};
      var v := align[k];
      RootHasItsX(al, blockXs, xs, left, k, v, height);
      var x := xs[root[v]];
      xs := xs[v := x];
      SpreadOne(al, blockXs, before, left, k, todo, v, x, xs);
    }
    AllSpread(al, blockXs, xs, height, todo);
  }

  /** What the coordinates of the blocks are spread over; the alignment's own validity is sealed. */
  ghost predicate Spreadable(al: Alignment, blockXs: Xs, height: nat) {
    forall k {:trigger Look(k)} :: Look(k) ==>
      && al.Valid() && (forall x :: x in al.rank ==> al.rank[x] < height)
      && blockXs.Keys <= al.root.Keys && forall v :: v in al.root ==> al.root[v] in blockXs
  }

  lemma SpreadNone(al: Alignment, blockXs: Xs, xs: Xs, height: nat, todo: set<Node>)
    requires Spreadable(al, blockXs, height) && xs == blockXs && todo == al.align.Keys
    ensures SpreadExcept(al.root, al.align, blockXs, xs, todo)
  {
    assert Look(0);
  }


  /** The roots still have their block's coordinate, and so have the align values of all keys not in todo. */
  ghost predicate SpreadExcept(root: map<Node, Node>, align: map<Node, Node>, blockXs: Xs, xs: Xs, todo: set<Node>) {
    && blockXs.Keys <= xs.Keys <= root.Keys
    && (forall v :: v in root && root[v] == v ==> v in xs && v in blockXs && xs[v] == blockXs[v])
    && (forall k :: k in align && k !in todo ==> Spread(root, blockXs, xs, align[k]))
  }

  ghost predicate Spread(root: map<Node, Node>, blockXs: Xs, xs: Xs, v: Node) {
    v in xs && v in root && root[v] in blockXs && xs[v] == blockXs[root[v]]
  }

  /** A node stands where its root does. */
  ghost predicate AtRoot(root: map<Node, Node>, xs: Xs, v: Node) {
    v in xs && v in root && root[v] in xs && xs[v] == xs[root[v]]
  }

  lemma RootHasItsX(al: Alignment, blockXs: Xs, xs: Xs, todo: set<Node>, k: Node, v: Node, height: nat)
    requires Spreadable(al, blockXs, height) && k in al.align && v == al.align[k]
      && SpreadExcept(al.root, al.align, blockXs, xs, todo)
    ensures v in al.root && al.root[v] in xs && al.root[v] in blockXs && xs[al.root[v]] == blockXs[al.root[v]]
  {
    assert Look(0);
    al.AlignStaysInBlock(k);
    al.RootIsAbove(v);
  }

  lemma SpreadOne(al: Alignment, blockXs: Xs, xs: Xs, todo: set<Node>, k: Node, todo': set<Node>, v: Node, x: real,
                  xs': Xs)
    requires k in al.align && v == al.align[k] && todo' == todo - {k}
    requires SpreadExcept(al.root, al.align, blockXs, xs, todo)
    requires v in al.root && al.root[v] in xs && al.root[v] in blockXs && x == xs[al.root[v]]
      && x == blockXs[al.root[v]] && xs' == xs[v := x]
    ensures SpreadExcept(al.root, al.align, blockXs, xs', todo')
  {
    forall j | j in al.align && j !in todo' ensures Spread(al.root, blockXs, xs', al.align[j]) {
      if j != k { assert Spread(al.root, blockXs, xs, al.align[j]); }
    }
  }

  lemma AllSpread(al: Alignment, blockXs: Xs, xs: Xs, height: nat, none: set<Node>)
    requires Spreadable(al, blockXs, height) && none == {} && SpreadExcept(al.root, al.align, blockXs, xs, none)
    ensures xs.Keys == al.root.Keys
    ensures forall v {:trigger Spread(al.root, blockXs, xs, v)} :: v in al.root ==> Spread(al.root, blockXs, xs, v)
    ensures forall v {:trigger AtRoot(al.root, xs, v)} :: v in al.root ==> AtRoot(al.root, xs, v)
  {
    assert Look(0);
    forall v | v in al.root
      ensures Spread(al.root, blockXs, xs, v) && Spread(al.root, blockXs, xs, al.root[v])
        && al.root[al.root[v]] == al.root[v] {
      SpreadAt(al, blockXs, xs, height, none, v);
      al.RootIsAbove(v);
      SpreadAt(al, blockXs, xs, height, none, al.root[v]);
    }
    SameSet(xs.Keys, al.root.Keys);
  }

  lemma SpreadAt(al: Alignment, blockXs: Xs, xs: Xs, height: nat, none: set<Node>, v: Node)
    requires al.Valid() && none == {} && SpreadExcept(al.root, al.align, blockXs, xs, none) && v in al.root
    requires forall x :: x in al.rank ==> al.rank[x] < height
    ensures Spread(al.root, blockXs, xs, v)
  {
    var k := al.AlignReaches(v, height);
  }

  // ----- mirrored and upside-down layerings -----

  function MirrorLayer(layer: seq<Node>): seq<Node> {
    seq(|layer|, k requires 0 <= k < |layer| => layer[|layer| - 1 - k])
  }

  /** Every layer right to left. */
  function Mirror(L: Layering): Layering {
    seq(|L|, i requires 0 <= i < |L| => MirrorLayer(L[i]))
  }

  /** The layers bottom to top. */
  function Flip(L: Layering): Layering {
    seq(|L|, i requires 0 <= i < |L| => L[|L| - 1 - i])
  }

  lemma MirrorIsPlaced(L: Layering, rank: map<Node, nat>, pos: map<Node, nat>) returns (pos': map<Node, nat>)
    requires Placed(L, rank, pos)
    ensures Placed(Mirror(L), rank, pos')
  {
    pos' := map v | v in pos :: (if rank[v] < |L| && pos[v] < |L[rank[v]]| then |L[rank[v]]| - 1 - pos[v] else 0);
    var M := Mirror(L);
    forall i, a | 0 <= i < |M| && 0 <= a < |M[i]| ensures M[i][a] in rank && rank[M[i][a]] == i && pos'[M[i][a]] == a {
      assert M[i][a] == L[i][|L[i]| - 1 - a];
    }
    forall v | v in rank ensures rank[v] < |M| && pos'[v] < |M[rank[v]]| && M[rank[v]][pos'[v]] == v {
      assert pos'[v] == |L[rank[v]]| - 1 - pos[v];
    }
  }

  lemma FlipIsPlaced(L: Layering, rank: map<Node, nat>, pos: map<Node, nat>) returns (rank': map<Node, nat>)
    requires Placed(L, rank, pos)
    ensures Placed(Flip(L), rank', pos)
    ensures forall v :: v in rank ==> rank[v] < |L| && v in rank' && rank'[v] == |L| - 1 - rank[v]
  {
    rank' := map v | v in rank :: (if rank[v] < |L| then |L| - 1 - rank[v] else 0);
  }

  lemma NextToInMirror(L: Layering, u: Node, v: Node)
    requires NextTo(L, u, v)
    ensures NextTo(Mirror(L), v, u)
  {
    var i: nat, a: nat :| Adjacent(L, i, a, u, v);
    assert Adjacent(Mirror(L), i, |L[i]| - a, v, u);
  }

  lemma NextToInFlip(L: Layering, u: Node, v: Node)
    requires NextTo(L, u, v)
    ensures NextTo(Flip(L), u, v)
  {
    var i: nat, a: nat :| Adjacent(L, i, a, u, v);
    assert Adjacent(Flip(L), |L| - 1 - i, a, u, v);
  }

  function Negated(xs: Xs): Xs {
    map v | v in xs :: -xs[v]
  }

  /** Coordinates found on the mirrored layering with the reversed separation, negated, separate the layering itself. */
  lemma MirroredBack(L: Layering, s: Spacing, xs: Xs)
    requires Separated(Mirror(L), s, true, xs)
    ensures Separated(L, s, false, Negated(xs))
  {
    forall u, v | NextTo(L, u, v) ensures Apart(s, false, Negated(xs), u, v) {
      NextToInMirror(L, u, v);
      assert Apart(s, true, xs, v, u);
      SepIsMirrored(s, v, u);
    }
  }

  lemma FlippedBack(L: Layering, s: Spacing, xs: Xs)
    requires Separated(Flip(L), s, false, xs)
    ensures Separated(L, s, false, xs)
  {
    forall u, v | NextTo(L, u, v) ensures Apart(s, false, xs, u, v) {
      NextToInFlip(L, u, v);
    }
  }

  // ----- alignCoordinates and balance -----

  datatype Four = Four(ul: Xs, ur: Xs, dl: Xs, dr: Xs) {
    function Get(k: nat): Xs {
      if k == 0 then ul else if k == 1 then ur else if k == 2 then dl else dr
    }
  }

  ghost predicate AllSeparated(L: Layering, s: Spacing, f: Four) {
    Separated(L, s, false, f.ul) && Separated(L, s, false, f.ur) && Separated(L, s, false, f.dl)
      && Separated(L, s, false, f.dr)
  }

  function Moved(xs: Xs, delta: real): Xs {
    map v | v in xs :: xs[v] + delta
  }

  lemma MovedKeepsSeparation(L: Layering, s: Spacing, xs: Xs, delta: real)
    requires Separated(L, s, false, xs)
    ensures Separated(L, s, false, Moved(xs, delta))
  {
    forall u, v | NextTo(L, u, v) ensures Apart(s, false, Moved(xs, delta), u, v) {
      assert Apart(s, false, xs, u, v);
    }
  }

  /** The least coordinate, or the greatest. */
  method Extreme(xs: Xs, greatest: bool) returns (x: real)
    requires xs.Keys != {}
    ensures exists v :: v in xs && xs[v] == x
    ensures forall v :: v in xs ==> if greatest then xs[v] <= x else x <= xs[v]
  {
    var todo := xs.Keys;
    var v0 :| v0 in todo;
    x := xs[v0];
    while todo != {}
      invariant todo <= xs.Keys && exists v :: v in xs && xs[v] == x
      invariant forall v :: v in xs && v !in todo ==> if greatest then xs[v] <= x else x <= xs[v]
      decreases todo
    {
      var v :| v in todo;
      todo := todo - {v};
      if (if greatest then xs[v] > x else xs[v] < x) { x := xs[v]; }
    }
  }

  ghost predicate IsExtreme(xs: Xs, greatest: bool, x: real) {
    (exists v :: v in xs && xs[v] == x) && forall v :: v in xs ==> if greatest then xs[v] <= x else x <= xs[v]
  }

  /** Moves xs so that its least (or greatest) coordinate meets that of alignTo. */
  method AlignTo(xs: Xs, alignTo: Xs, right: bool, ghost L: Layering, ghost s: Spacing) returns (xs': Xs)
    requires xs.Keys == alignTo.Keys && Separated(L, s, false, xs)
    ensures Separated(L, s, false, xs') && xs'.Keys == xs.Keys
    ensures IsAligned(xs, alignTo, right, xs')
  {
    if xs.Keys == {} {
      xs' := xs;
      assert xs' == Moved(xs, 0.0);
      return;
    }
    var goal := Extreme(alignTo, right);
    var own := Extreme(xs, right);
    var delta := goal - own;
    xs' := Moved(xs, delta);
    MovedKeepsSeparation(L, s, xs, delta);
    MeetsGoal(xs, alignTo, right, own, goal, delta);
  }

  lemma MeetsGoal(xs: Xs, alignTo: Xs, right: bool, own: real, goal: real, delta: real)
    requires IsExtreme(xs, right, own) && IsExtreme(alignTo, right, goal) && delta == goal - own
    ensures forall x :: IsExtreme(alignTo, right, x) ==> IsExtreme(Moved(xs, delta), right, x)
  {
    forall x | IsExtreme(alignTo, right, x) ensures IsExtreme(Moved(xs, delta), right, x) {
      var v, w, z :| v in alignTo && alignTo[v] == x && w in alignTo && alignTo[w] == goal && z in xs && xs[z] == own;
      assert x == goal;
      assert Moved(xs, delta)[z] == x;
    }
  }

  /** xs has been moved as a whole, so that its least (or greatest) coordinate meets that of alignTo. */
  ghost predicate IsAligned(xs: Xs, alignTo: Xs, right: bool, xs': Xs) {
    && (exists delta :: xs' == Moved(xs, delta))
    && forall x :: IsExtreme(alignTo, right, x) ==> IsExtreme(xs', right, x)
  }

  lemma AlignedWithItself(xs: Xs, right: bool)
    ensures IsAligned(xs, xs, right, xs)
  {
    assert xs == Moved(xs, 0.0);
  }

  method AlignCoordinates(f: Four, alignTo: nat, ghost L: Layering, ghost s: Spacing, ghost V: set<Node>)
    returns (f': Four)
    requires alignTo < 4 && AllSeparated(L, s, f)
    requires f.ul.Keys == V && f.ur.Keys == V && f.dl.Keys == V && f.dr.Keys == V
    ensures AllSeparated(L, s, f') && f'.Get(alignTo) == f.Get(alignTo)
    ensures IsAligned(f.ul, f.Get(alignTo), false, f'.ul) && IsAligned(f.dl, f.Get(alignTo), false, f'.dl)
    ensures IsAligned(f.ur, f.Get(alignTo), true, f'.ur) && IsAligned(f.dr, f.Get(alignTo), true, f'.dr)
    ensures f'.ul.Keys == V && f'.ur.Keys == V && f'.dl.Keys == V && f'.dr.Keys == V
  {
    var to := f.Get(alignTo);
    var ul, ur, dl, dr := f.ul, f.ur, f.dl, f.dr;
    if alignTo != 0 { ul := AlignTo(ul, to, false, L, s); }
    if alignTo != 1 { ur := AlignTo(ur, to, true, L, s); }
    if alignTo != 2 { dl := AlignTo(dl, to, false, L, s); }
    if alignTo != 3 { dr := AlignTo(dr, to, true, L, s); }
    f' := Four(ul, ur, dl, dr);
    AlignedWithItself(to, false);
    AlignedWithItself(to, true);
  }

  /** Four values in order. */
  function SortFour(a: real, b: real, c: real, d: real): (r: seq<real>)
    ensures |r| == 4 && r[0] <= r[1] <= r[2] <= r[3]
  {
    var lo1, hi1, lo2, hi2 := MinReal(a, b), MaxReal(a, b), MinReal(c, d), MaxReal(c, d);
    var m1, m2 := MaxReal(lo1, lo2), MinReal(hi1, hi2);
    [MinReal(lo1, lo2), MinReal(m1, m2), MaxReal(m1, m2), MaxReal(hi1, hi2)]
  }

  lemma PairKeepsSum(a: real, b: real)
    ensures MinReal(a, b) + MaxReal(a, b) == a + b
  {
  }

  /** The two middle values are what is left of the sum without the least and the greatest. */
  lemma MiddleOfFour(a: real, b: real, c: real, d: real)
    ensures var r := SortFour(a, b, c, d);
      && r[1] + r[2] == a + b + c + d - r[0] - r[3]
      && r[0] == MinReal(MinReal(a, b), MinReal(c, d)) && r[3] == MaxReal(MaxReal(a, b), MaxReal(c, d))
  {
    var lo1, hi1, lo2, hi2 := MinReal(a, b), MaxReal(a, b), MinReal(c, d), MaxReal(c, d);
    PairKeepsSum(a, b);
    PairKeepsSum(c, d);
    PairKeepsSum(lo1, lo2);
    PairKeepsSum(hi1, hi2);
    PairKeepsSum(MaxReal(lo1, lo2), MinReal(hi1, hi2));
  }

  lemma PairKeepsDistance(a: real, b: real, a': real, b': real, gap: real)
    requires a' >= a + gap && b' >= b + gap
    ensures MinReal(a', b') >= MinReal(a, b) + gap && MaxReal(a', b') >= MaxReal(a, b) + gap
  {
  }

  /** If four values each exceed four others by the gap, so do they place by place once both are sorted. */
  lemma SortingKeepsDistance(a: real, b: real, c: real, d: real, a': real, b': real, c': real, d': real, gap: real)
    requires a' >= a + gap && b' >= b + gap && c' >= c + gap && d' >= d + gap
    ensures SortFour(a', b', c', d')[1] >= SortFour(a, b, c, d)[1] + gap
    ensures SortFour(a', b', c', d')[2] >= SortFour(a, b, c, d)[2] + gap
  {
    PairKeepsDistance(a, b, a', b', gap);
    PairKeepsDistance(c, d, c', d', gap);
    PairKeepsDistance(MinReal(a, b), MinReal(c, d), MinReal(a', b'), MinReal(c', d'), gap);
    PairKeepsDistance(MaxReal(a, b), MaxReal(c, d), MaxReal(a', b'), MaxReal(c', d'), gap);
    PairKeepsDistance(MaxReal(MinReal(a, b), MinReal(c, d)), MinReal(MaxReal(a, b), MaxReal(c, d)),
                      MaxReal(MinReal(a', b'), MinReal(c', d')), MinReal(MaxReal(a', b'), MaxReal(c', d')), gap);
  }

  function Balanced(f: Four, v: Node): real
    requires v in f.ul && v in f.ur && v in f.dl && v in f.dr
  {
    var xs := SortFour(f.ul[v], f.ur[v], f.dl[v], f.dr[v]);
    (xs[1] + xs[2]) / 2.0
  }

  /** The mean of the two middle coordinates of every node, unless one alignment is asked for. */
  method Balance(f: Four, align: Option<nat>, ghost L: Layering, ghost s: Spacing) returns (xs: Xs)
    requires AllSeparated(L, s, f) == true && (align.Some? ==> align.value < 4)
    requires f.ur.Keys == f.ul.Keys && f.dl.Keys == f.ul.Keys && f.dr.Keys == f.ul.Keys
    ensures Separated(L, s, false, xs) && xs.Keys == f.ul.Keys
    ensures align.Some? ==> xs == f.Get(align.value)
    ensures align.None? ==> forall v :: v in xs ==> xs[v] == Balanced(f, v)
  {
    if align.Some? {
      xs := f.Get(align.value);
    } else {
      xs := map v | v in f.ul :: Balanced(f, v);
      BalancedSeparates(f, L, s, xs);
    }
  }

  lemma BalancedSeparates(f: Four, L: Layering, s: Spacing, xs: Xs)
    requires AllSeparated(L, s, f)
    requires f.ur.Keys == f.ul.Keys && f.dl.Keys == f.ul.Keys && f.dr.Keys == f.ul.Keys
    requires xs.Keys == f.ul.Keys && forall v :: v in xs ==> xs[v] == Balanced(f, v)
    ensures Separated(L, s, false, xs)
  {
    forall u, v | NextTo(L, u, v) ensures Apart(s, false, xs, u, v) {
      assert Apart(s, false, f.ul, u, v) && Apart(s, false, f.ur, u, v) && Apart(s, false, f.dl, u, v)
        && Apart(s, false, f.dr, u, v);
      SortingKeepsDistance(f.ul[u], f.ur[u], f.dl[u], f.dr[u], f.ul[v], f.ur[v], f.dl[v], f.dr[v], Sep(s, false, v, u));
    }
  }

  // ----- findSmallestWidthAlignment and positionX -----

  /** The first of the four with the least measure; ms are the measures, each taken at some pair of ends. */
  method FindSmallestWidthAlignment(f: Four, s: Spacing) returns (k: nat, ghost ms: seq<real>)
    requires f.ul.Keys != {} && f.ul.Keys <= s.boxes.Keys
    requires f.ur.Keys == f.ul.Keys && f.dl.Keys == f.ul.Keys && f.dr.Keys == f.ul.Keys
    ensures k < 4 && |ms| == 4 && forall j :: 0 <= j < 4 ==> IsMeasure(s, f.Get(j), ms[j])
    ensures forall j :: 0 <= j < 4 ==> if j < k then ms[k] < ms[j] else ms[k] <= ms[j]
  {
    k := 0;
    var best, v, w := MeasureOf(s, f.ul);
    ms := [best];
    for j := 1 to 4
      invariant k < j == |ms| && best == ms[k] && forall i :: 0 <= i < j ==> IsMeasure(s, f.Get(i), ms[i])
      invariant forall i :: 0 <= i < j ==> if i < k then ms[k] < ms[i] else ms[k] <= ms[i]
    {
      var m;
      m, v, w := MeasureOf(s, f.Get(j));
      ms := ms + [m];
      if m < best { k, best := j, m; }
    }
  }

  /** The distance between the centres of two boxes at the ends. */
  ghost predicate IsMeasure(s: Spacing, xs: Xs, m: real) {
    Boxed(s, xs) && exists v, w :: AreEnds(s, xs, v, w) && m == Measure(xs, v, w)
  }

  // ----- the four runs -----

  /** What one run goes through: its alignment with the medians it chose from, the arcs between the blocks, and the
      coordinates of the blocks after either pass. */
  datatype Trace = Trace(al: Alignment, med: map<Node, set<Node>>, arcs: map<Arc, real>, first: Xs, blockXs: Xs)

  /** med holds the medians of the neighbours. */
  ghost predicate MedianAt(pos: map<Node, nat>, nbrs: map<Node, set<Node>>, med: map<Node, set<Node>>, v: Node) {
    v in nbrs && nbrs[v] <= pos.Keys && v in med && med[v] == Medians(pos, nbrs[v])
  }

  /** Every node is aligned with the first of its median neighbours that is not blocked. */
  ghost predicate AlignedBy(L: Layering, conflicts: set<Pair>, nbrs: map<Node, set<Node>>, al: Alignment,
                            med: map<Node, set<Node>>) {
    && Placed(L, al.rank, al.pos) && al.Valid()
    && (forall v {:trigger MedianAt(al.pos, nbrs, med, v)} :: v in al.rank ==> MedianAt(al.pos, nbrs, med, v))
    && (forall v {:trigger IsChosen(al, med, conflicts, v)} :: v in al.rank ==> IsChosen(al, med, conflicts, v))
  }

  /** Sealed, as a proof rarely needs what is inside. */
  ghost predicate IsRun(L: Layering, s: Spacing, conflicts: set<Pair>, nbrs: map<Node, set<Node>>, reverseSep: bool,
                        t: Trace, xs: Xs) {
    forall k {:trigger Look(k)} :: Look(k) ==>
      && AlignedBy(L, conflicts, nbrs, t.al, t.med)
      && CompactedBy(L, s, reverseSep, t.al.root, t.arcs, t.first, t.blockXs, xs)
  }

  lemma SealRun(L: Layering, s: Spacing, conflicts: set<Pair>, nbrs: map<Node, set<Node>>, reverseSep: bool,
                t: Trace, xs: Xs)
    requires AlignedBy(L, conflicts, nbrs, t.al, t.med) == true
    requires CompactedBy(L, s, reverseSep, t.al.root, t.arcs, t.first, t.blockXs, xs) == true
    ensures IsRun(L, s, conflicts, nbrs, reverseSep, t, xs) == true
  {
  }

  method AlignRun(L: Layering, conflicts: set<Pair>, nbrs: map<Node, set<Node>>, ghost rank: map<Node, nat>,
                  ghost pos: map<Node, nat>)
    returns (root: map<Node, Node>, align: map<Node, Node>, ghost al: Alignment, ghost med: map<Node, set<Node>>)
    requires Placed(L, rank, pos) && OneLayerUp(rank, nbrs)
    ensures AlignedBy(L, conflicts, nbrs, al, med) == true
    ensures al.rank == rank && al.pos == pos && al.root == root && al.align == align
  {
    root, align, al, med := VerticalAlign(L, conflicts, nbrs, rank, pos);
  }

  method CompactRun(L: Layering, s: Spacing, root: map<Node, Node>, align: map<Node, Node>, reverseSep: bool,
                    ghost al: Alignment)
    returns (xs: Xs, ghost arcs: map<Arc, real>, ghost first: Xs, ghost blockXs: Xs)
    requires Placed(L, al.rank, al.pos) && al.Valid() && al.root == root && al.align == align
    requires al.rank.Keys <= s.boxes.Keys
    ensures CompactedBy(L, s, reverseSep, root, arcs, first, blockXs, xs) == true
    ensures Separated(L, s, reverseSep, xs) && xs.Keys == root.Keys
  {
    xs, arcs, first, blockXs := HorizontalCompaction(L, s, root, align, reverseSep, al);
  }

  /** One of the four runs: align, then place. */
  method RunAlignment(L: Layering, s: Spacing, conflicts: set<Pair>, nbrs: map<Node, set<Node>>, reverseSep: bool,
                      ghost rank: map<Node, nat>, ghost pos: map<Node, nat>) returns (xs: Xs, ghost t: Trace)
    requires Placed(L, rank, pos) && OneLayerUp(rank, nbrs) && rank.Keys <= s.boxes.Keys
    ensures Separated(L, s, reverseSep, xs) && xs.Keys == rank.Keys
    ensures IsRun(L, s, conflicts, nbrs, reverseSep, t, xs) == true && t.al.rank == rank && t.al.pos == pos
  {
    var root, align;
    ghost var al, med;
    root, align, al, med := AlignRun(L, conflicts, nbrs, rank, pos);
    ghost var arcs, first, blockXs;
    xs, arcs, first, blockXs := CompactRun(L, s, root, align, reverseSep, al);
    t := Trace(al, med, arcs, first, blockXs);
    SealRun(L, s, conflicts, nbrs, reverseSep, t, xs);
  }

  lemma NegatedTwice(xs: Xs)
    ensures Negated(Negated(xs)) == xs
  {
  }

  /** The run to the left and the mirrored run to the right over one direction of the layers. */
  method RunBothSides(L: Layering, s: Spacing, conflicts: set<Pair>, nbrs: map<Node, set<Node>>,
                      ghost rank: map<Node, nat>, ghost pos: map<Node, nat>)
    returns (left: Xs, right: Xs, ghost tl: Trace, ghost tr: Trace)
    requires Placed(L, rank, pos) && OneLayerUp(rank, nbrs) && rank.Keys <= s.boxes.Keys
    ensures Separated(L, s, false, left) && Separated(L, s, false, right)
    ensures left.Keys == rank.Keys && right.Keys == rank.Keys
    ensures IsRun(L, s, conflicts, nbrs, false, tl, left) && tl.al.rank == tr.al.rank == rank && tl.al.pos == pos
    ensures IsRun(Mirror(L), s, conflicts, nbrs, true, tr, Negated(right))
  {
    left, tl := RunAlignment(L, s, conflicts, nbrs, false, rank, pos);
    ghost var mirrored := MirrorIsPlaced(L, rank, pos);
    var xs;
    xs, tr := RunAlignment(Mirror(L), s, conflicts, nbrs, true, rank, mirrored);
    right := Negated(xs);
    NegatedTwice(xs);
    MirroredBack(L, s, xs);
  }

  /** All neighbours lie in the layer just after. */
  ghost predicate OneLayerDown(rank: map<Node, nat>, nbrs: map<Node, set<Node>>) {
    && nbrs.Keys == rank.Keys
    && (forall v, w :: v in nbrs && w in nbrs[v] ==> w in rank && rank[w] == rank[v] + 1)
  }

  lemma FlipTurnsDownUp(rank: map<Node, nat>, rank': map<Node, nat>, n: nat, nbrs: map<Node, set<Node>>)
    requires OneLayerDown(rank, nbrs) && rank'.Keys == rank.Keys
    requires forall v :: v in rank ==> rank[v] < n && rank'[v] == n - 1 - rank[v]
    ensures OneLayerUp(rank', nbrs)
  {
    forall v | v in nbrs ensures AllAbove(rank', nbrs[v], v) {
    }
  }

  /** How the coordinates came about: the four runs, their coordinates before (raw) and after the shift, and which
      of them was taken for the narrowest by these measures. */
  datatype Report = Report(ul: Trace, ur: Trace, dl: Trace, dr: Trace, raw: Four, four: Four, smallest: nat,
                           ms: seq<real>)

  /** The runs go up and down, and with either to the left, and to the right on the mirrored layers. */
  ghost predicate AreRuns(L: Layering, s: Spacing, conflicts: set<Pair>, preds: map<Node, set<Node>>,
                          succs: map<Node, set<Node>>, r: Report) {
    && IsRun(L, s, conflicts, preds, false, r.ul, r.raw.ul)
    && IsRun(Mirror(L), s, conflicts, preds, true, r.ur, Negated(r.raw.ur))
    && IsRun(Flip(L), s, conflicts, succs, false, r.dl, r.raw.dl)
    && IsRun(Mirror(Flip(L)), s, conflicts, succs, true, r.dr, Negated(r.raw.dr))
  }

  /** The one of least measure stays where it is; the others are moved to its left or right end. */
  ghost predicate MovedToSmallest(s: Spacing, raw: Four, four: Four, smallest: nat, ms: seq<real>) {
    && smallest < 4 && |ms| == 4
    && (forall j :: 0 <= j < 4 ==> IsMeasure(s, raw.Get(j), ms[j]))
    && (forall j :: 0 <= j < 4 ==> if j < smallest then ms[smallest] < ms[j] else ms[smallest] <= ms[j])
    && four.Get(smallest) == raw.Get(smallest)
    && IsAligned(raw.ul, raw.Get(smallest), false, four.ul) && IsAligned(raw.dl, raw.Get(smallest), false, four.dl)
    && IsAligned(raw.ur, raw.Get(smallest), true, four.ur) && IsAligned(raw.dr, raw.Get(smallest), true, four.dr)
  }

  /** The mean of the two middle ones, or the one asked for. */
  ghost predicate IsBalanced(four: Four, align: Option<nat>, xs: Xs) {
    if align.Some? then xs == four.Get(align.value)
    else forall v :: v in xs ==>
      v in four.ul && v in four.ur && v in four.dl && v in four.dr && xs[v] == Balanced(four, v)
  }

  ghost predicate IsPositioned(L: Layering, s: Spacing, conflicts: set<Pair>, preds: map<Node, set<Node>>,
                               succs: map<Node, set<Node>>, align: Option<nat>, r: Report, xs: Xs) {
    && AreRuns(L, s, conflicts, preds, succs, r)
      && (if xs.Keys == {} then r.four == r.raw else MovedToSmallest(s, r.raw, r.four, r.smallest, r.ms))
    && IsBalanced(r.four, align, xs)
  }

  lemma SeparatedIsRoomy(L: Layering, s: Spacing, xs: Xs)
    requires Separated(L, s, false, xs)
    ensures Roomy(L, s, xs)
  {
    forall i: nat, a: nat, u, v | Adjacent(L, i, a, u, v) ensures HasRoom(s, xs, u, v) {
      assert NextTo(L, u, v);
      assert Apart(s, false, xs, u, v);
      ApartHasRoom(s, xs, u, v);
    }
  }

  /** The x coordinates the layout ends with are balanced from the four runs. They keep the separation between any two
      neighbours of any layer, that is, room between their boxes, whatever conflicts were found and whichever
      alignment is asked for; with nothing negative no two boxes of a layer overlap. */
  method PositionX(L: Layering, s: Spacing, conflicts: set<Pair>, preds: map<Node, set<Node>>,
                   succs: map<Node, set<Node>>, align: Option<nat>,
                   ghost rank: map<Node, nat>, ghost pos: map<Node, nat>) returns (xs: Xs, ghost r: Report)
    requires Placed(L, rank, pos) && rank.Keys <= s.boxes.Keys && (align.Some? ==> align.value < 4)
    requires OneLayerUp(rank, preds) && OneLayerDown(rank, succs)
    ensures IsPositioned(L, s, conflicts, preds, succs, align, r, xs) == true
    ensures Separated(L, s, false, xs) == true && xs.Keys == rank.Keys && AllSeparated(L, s, r.four) == true
    ensures Roomy(L, s, xs) == true
    ensures NothingNegative(s) ==> AllClear(L, s, xs) == true
  {
    var f;
    ghost var ul, ur, dl, dr, four, smallest, ms;
    f, ul, ur, dl, dr := RunAll(L, s, conflicts, preds, succs, rank, pos);
    xs, four, smallest, ms := MoveAndBalance(f, s, align, L, rank.Keys);
    r := Report(ul, ur, dl, dr, f, four, smallest, ms);
    PositionedBy(L, s, conflicts, preds, succs, align, r, xs);
    KeepsClear(L, s, xs);
  }

  lemma PositionedBy(L: Layering, s: Spacing, conflicts: set<Pair>, preds: map<Node, set<Node>>,
                     succs: map<Node, set<Node>>, align: Option<nat>, r: Report, xs: Xs)
    requires AreRuns(L, s, conflicts, preds, succs, r) == true && IsBalanced(r.four, align, xs) == true
    requires if xs.Keys == {} then r.four == r.raw else MovedToSmallest(s, r.raw, r.four, r.smallest, r.ms) == true
    ensures IsPositioned(L, s, conflicts, preds, succs, align, r, xs) == true
  {
  }

  lemma KeepsClear(L: Layering, s: Spacing, xs: Xs)
    requires Separated(L, s, false, xs) == true
    ensures Roomy(L, s, xs) == true
    ensures NothingNegative(s) ==> AllClear(L, s, xs) == true
  {
    SeparatedIsRoomy(L, s, xs);
    if NothingNegative(s) {
      forall i: nat, a: nat, b: nat | i < |L| && a < b < |L[i]| ensures Clear(s, xs, L[i][a], L[i][b]) {
        NoneOverlap(L, s, xs, i, a, b);
      }
    }
  }

  method RunAll(L: Layering, s: Spacing, conflicts: set<Pair>, preds: map<Node, set<Node>>,
                succs: map<Node, set<Node>>, ghost rank: map<Node, nat>, ghost pos: map<Node, nat>)
    returns (f: Four, ghost ult: Trace, ghost urt: Trace, ghost dlt: Trace, ghost drt: Trace)
    requires Placed(L, rank, pos) && rank.Keys <= s.boxes.Keys
    requires OneLayerUp(rank, preds) && OneLayerDown(rank, succs)
    ensures IsRun(L, s, conflicts, preds, false, ult, f.ul) == true
    ensures IsRun(Mirror(L), s, conflicts, preds, true, urt, Negated(f.ur)) == true
    ensures IsRun(Flip(L), s, conflicts, succs, false, dlt, f.dl) == true
    ensures IsRun(Mirror(Flip(L)), s, conflicts, succs, true, drt, Negated(f.dr)) == true
    ensures AllSeparated(L, s, f) == true
    ensures f.ul.Keys == rank.Keys && f.ur.Keys == rank.Keys && f.dl.Keys == rank.Keys && f.dr.Keys == rank.Keys
  {
    var ul, ur, dl, dr;
    ul, ur, ult, urt := RunBothSides(L, s, conflicts, preds, rank, pos);
    ghost var flipped := FlipIsPlaced(L, rank, pos);
    FlipTurnsDownUp(rank, flipped, |L|, succs);
    dl, dr, dlt, drt := RunBothSides(Flip(L), s, conflicts, succs, flipped, pos);
    FlippedBack(L, s, dl);
    FlippedBack(L, s, dr);
    f := Four(ul, ur, dl, dr);
  }

  method MoveAndBalance(f: Four, s: Spacing, align: Option<nat>, ghost L: Layering, ghost V: set<Node>)
    returns (xs: Xs, ghost four: Four, ghost smallest: nat, ghost ms: seq<real>)
    requires AllSeparated(L, s, f) == true && V <= s.boxes.Keys && (align.Some? ==> align.value < 4)
    requires f.ul.Keys == V && f.ur.Keys == V && f.dl.Keys == V && f.dr.Keys == V
    ensures Separated(L, s, false, xs) == true && AllSeparated(L, s, four) == true && xs.Keys == V
    ensures IsBalanced(four, align, xs) == true
    ensures if V == {} then four == f else MovedToSmallest(s, f, four, smallest, ms) == true
  {
    var moved, k;
    moved, k, ms := MoveToSmallest(f, s, L, V);
    four, smallest := moved, k;
    xs := Balance(moved, align, L, s);
  }

  method MoveToSmallest(f: Four, s: Spacing, ghost L: Layering, ghost V: set<Node>)
    returns (four: Four, smallest: nat, ghost ms: seq<real>)
    requires AllSeparated(L, s, f) == true && V <= s.boxes.Keys
    requires f.ul.Keys == V && f.ur.Keys == V && f.dl.Keys == V && f.dr.Keys == V
    ensures AllSeparated(L, s, four) == true && four.ul.Keys == V && four.ur.Keys == V && four.dl.Keys == V
      && four.dr.Keys == V
    ensures if V == {} then four == f
      else MovedToSmallest(s, f, four, smallest, ms) == true
  {
    four, smallest, ms := f, 0, [];
    if f.ul.Keys != {} {
      smallest, ms := FindSmallestWidthAlignment(f, s);
      four := AlignCoordinates(f, smallest, L, s, f.ul.Keys);
    }
  }
}
