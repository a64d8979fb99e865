/** An edge that is alone at both of its ends and crosses no other is drawn straight. */
module StraightEdges {
  import opened Graphs
  import opened Sums
  import opened VerticalAlignment
  import opened Compaction
  import opened Widths
  import opened Coordinates

  // ----- one run -----

  /** Seen from v, all that stands before it in its layer leads to places before w. */
  ghost predicate FreeBefore(rank: map<Node, nat>, pos: map<Node, nat>, nbrs: map<Node, set<Node>>, v: Node, w: Node) {
    forall u, y {:trigger y in nbrs[u]} :: u in nbrs && y in nbrs[u] && StandsBefore(rank, pos, u, v) ==>
      y in pos && w in pos && pos[y] < pos[w]
  }

  ghost predicate StandsBefore(rank: map<Node, nat>, pos: map<Node, nat>, u: Node, v: Node) {
    u in rank && v in rank && rank[u] == rank[v] && u in pos && v in pos && pos[u] < pos[v]
  }

  /** A node with one neighbour is chained to it if nothing stands in the way. */
  lemma OnlyNeighborIsChosen(al: Alignment, med: map<Node, set<Node>>, nbrs: map<Node, set<Node>>,
                             conflicts: set<Pair>, v: Node, w: Node)
    requires al.Valid() && v in al.rank && v in nbrs && nbrs[v] == {w} && Und(v, w) !in conflicts
    requires forall u {:trigger MedianAt(al.pos, nbrs, med, u)} :: u in al.rank ==> MedianAt(al.pos, nbrs, med, u)
    requires forall u {:trigger IsChosen(al, med, conflicts, u)} :: u in al.rank ==> IsChosen(al, med, conflicts, u)
    requires FreeBefore(al.rank, al.pos, nbrs, v, w)
    ensures v in al.up && al.up[v] == w
  {
    assert MedianAt(al.pos, nbrs, med, v) && IsChosen(al, med, conflicts, v);
    OneIsMedian(al.pos, nbrs[v], w);
    assert med[v] == {w};
    if v !in al.up {
      assert PassedOver(al, conflicts, v, w);
      var u :| u in al.up && Obstructs(al, u, v, w);
      assert MedianAt(al.pos, nbrs, med, u) && IsChosen(al, med, conflicts, u);
      assert al.up[u] in nbrs[u] && StandsBefore(al.rank, al.pos, u, v);
    }
  }

  lemma OneIsMedian(pos: map<Node, nat>, X: set<Node>, w: Node)
    requires X == {w} && X <= pos.Keys
    ensures Medians(pos, X) == {w}
  {
    assert Before(pos, X, w) == {};
    assert |X| == 1;
    assert w in Medians(pos, X);
  }

  /** In such a run the two stand at one place. */
  lemma RunIsStraight(L: Layering, s: Spacing, conflicts: set<Pair>, nbrs: map<Node, set<Node>>, reverseSep: bool,
                      t: Trace, xs: Xs, v: Node, w: Node)
    requires IsRun(L, s, conflicts, nbrs, reverseSep, t, xs) && v in t.al.rank
    requires v in nbrs && nbrs[v] == {w} && Und(v, w) !in conflicts && FreeBefore(t.al.rank, t.al.pos, nbrs, v, w)
    ensures v in xs && w in xs && xs[v] == xs[w]
  {
    UpIs(L, s, conflicts, nbrs, reverseSep, t, xs, v, w);
    SameBlockSamePlace(L, s, conflicts, nbrs, reverseSep, t, xs, v, w);
  }

  lemma UpIs(L: Layering, s: Spacing, conflicts: set<Pair>, nbrs: map<Node, set<Node>>, reverseSep: bool,
             t: Trace, xs: Xs, v: Node, w: Node)
    requires IsRun(L, s, conflicts, nbrs, reverseSep, t, xs) && v in t.al.rank
    requires v in nbrs && nbrs[v] == {w} && Und(v, w) !in conflicts && FreeBefore(t.al.rank, t.al.pos, nbrs, v, w)
    ensures w in t.al.root && v in t.al.root && t.al.root[v] == t.al.root[w]
  {
    RunIsAligned(L, s, conflicts, nbrs, reverseSep, t, xs);
    OnlyNeighborIsChosen(t.al, t.med, nbrs, conflicts, v, w);
    assert t.al.Linked(v);
  }

  lemma RunIsAligned(L: Layering, s: Spacing, conflicts: set<Pair>, nbrs: map<Node, set<Node>>, reverseSep: bool,
                     t: Trace, xs: Xs)
    requires IsRun(L, s, conflicts, nbrs, reverseSep, t, xs)
    ensures AlignedBy(L, conflicts, nbrs, t.al, t.med) == true
  {
    assert Look(0);
  }

  lemma RunIsCompacted(L: Layering, s: Spacing, conflicts: set<Pair>, nbrs: map<Node, set<Node>>, reverseSep: bool,
                       t: Trace, xs: Xs)
    requires IsRun(L, s, conflicts, nbrs, reverseSep, t, xs)
    ensures CompactedBy(L, s, reverseSep, t.al.root, t.arcs, t.first, t.blockXs, xs) == true
  {
    assert Look(0);
  }

  lemma SameBlockSamePlace(L: Layering, s: Spacing, conflicts: set<Pair>, nbrs: map<Node, set<Node>>,
                           reverseSep: bool, t: Trace, xs: Xs, v: Node, w: Node)
    requires IsRun(L, s, conflicts, nbrs, reverseSep, t, xs)
    requires v in t.al.root && w in t.al.root && t.al.root[v] == t.al.root[w]
    ensures v in xs && w in xs && xs[v] == xs[w]
  {
    RunIsCompacted(L, s, conflicts, nbrs, reverseSep, t, xs);
    assert Coordinates.Spread(t.al.root, t.blockXs, xs, v) && Coordinates.Spread(t.al.root, t.blockXs, xs, w);
  }

  // ----- the places in the four layerings -----

  lemma MirroredPlaces(L: Layering, rank: map<Node, nat>, pos: map<Node, nat>, rank': map<Node, nat>,
                       pos': map<Node, nat>)
    requires Placed(L, rank, pos) && Placed(Mirror(L), rank', pos')
    ensures rank'.Keys == rank.Keys
    ensures forall x :: x in rank ==> rank'[x] == rank[x] < |L| && pos'[x] == |L[rank[x]]| - 1 - pos[x]
  {
    var M := Mirror(L);
    forall x | x in rank' ensures x in rank && rank'[x] == rank[x] && pos'[x] == |L[rank[x]]| - 1 - pos[x] {
      assert M[rank'[x]][pos'[x]] == x;
      assert L[rank'[x]][|L[rank'[x]]| - 1 - pos'[x]] == x;
    }
    forall x | x in rank ensures x in rank' {
      assert L[rank[x]][pos[x]] == x;
      assert M[rank[x]][|L[rank[x]]| - 1 - pos[x]] == x;
    }
  }

  lemma FlippedPlaces(L: Layering, rank: map<Node, nat>, pos: map<Node, nat>, rank': map<Node, nat>,
                      pos': map<Node, nat>)
    requires Placed(L, rank, pos) && Placed(Flip(L), rank', pos')
    ensures rank'.Keys == rank.Keys
    ensures forall x :: x in rank ==> rank[x] < |L| && rank'[x] == |L| - 1 - rank[x] && pos'[x] == pos[x]
  {
    var M := Flip(L);
    forall x | x in rank' ensures x in rank && rank'[x] == |L| - 1 - rank[x] && pos'[x] == pos[x] {
      assert M[rank'[x]][pos'[x]] == x;
      assert L[|L| - 1 - rank'[x]][pos'[x]] == x;
    }
    forall x | x in rank ensures x in rank' {
      assert L[rank[x]][pos[x]] == x;
      assert M[|L| - 1 - rank[x]][pos[x]] == x;
    }
  }

  lemma FlippedMirroredPlaces(L: Layering, rank: map<Node, nat>, pos: map<Node, nat>, rank': map<Node, nat>,
                              pos': map<Node, nat>)
    requires Placed(L, rank, pos) && Placed(Mirror(Flip(L)), rank', pos')
    ensures rank'.Keys == rank.Keys
    ensures forall x :: x in rank ==>
      rank[x] < |L| && rank'[x] == |L| - 1 - rank[x] && pos'[x] == |L[rank[x]]| - 1 - pos[x]
  {
    var flipped := FlipIsPlaced(L, rank, pos);
    MirroredPlaces(Flip(L), flipped, pos, rank', pos');
    FlippedPlaces(L, rank, pos, flipped, pos);
  }

  // ----- an edge alone at both ends -----

  /** w stands above v, and neither has another neighbour between their layers. */
  ghost predicate AloneAtBothEnds(preds: map<Node, set<Node>>, succs: map<Node, set<Node>>, v: Node, w: Node) {
    v in preds && preds[v] == {w} && w in succs && succs[w] == {v}
  }

  ghost predicate Converse(preds: map<Node, set<Node>>, succs: map<Node, set<Node>>) {
    forall x, y :: (x in preds && y in preds[x]) <==> (y in succs && x in succs[y])
  }

  /** No edge between these two layers starts on one side of w and ends on the other side of v. */
  ghost predicate CrossesNone(rank: map<Node, nat>, pos: map<Node, nat>, preds: map<Node, set<Node>>, v: Node,
                              w: Node) {
    forall x, y {:trigger y in preds[x]} ::
      x in preds && y in preds[x] && x in rank && v in rank && rank[x] == rank[v] ==>
      x in pos && v in pos && y in pos && w in pos
      && !(pos[x] < pos[v] && pos[y] > pos[w]) && !(pos[x] > pos[v] && pos[y] < pos[w])
  }

  /** Every other edge between the layers lies wholly on one side. */
  lemma OthersAreBeside(L: Layering, rank: map<Node, nat>, pos: map<Node, nat>, preds: map<Node, set<Node>>,
                        succs: map<Node, set<Node>>, v: Node, w: Node, x: Node, y: Node)
    requires Placed(L, rank, pos) && OneLayerUp(rank, preds) && Converse(preds, succs)
    requires AloneAtBothEnds(preds, succs, v, w) && CrossesNone(rank, pos, preds, v, w)
    requires x in preds && y in preds[x] && v in rank && x in rank && rank[x] == rank[v]
    ensures y in rank && w in rank && rank[y] == rank[w] && rank[w] + 1 == rank[v]
    ensures x != v ==> y != w && pos[y] != pos[w] && pos[x] != pos[v] && (pos[x] < pos[v] <==> pos[y] < pos[w])
  {
    assert AllAbove(rank, preds[x], x) && AllAbove(rank, preds[v], v);
    assert w in preds[v];
    if x != v {
      assert y in succs && x in succs[y];
      assert L[rank[y]][pos[y]] == y && L[rank[w]][pos[w]] == w;
      assert L[rank[x]][pos[x]] == x && L[rank[v]][pos[v]] == v;
    }
  }

  /** What such an edge is: alone, without conflict, and crossing none. */
  ghost predicate IsLone(L: Layering, conflicts: set<Pair>, rank: map<Node, nat>, pos: map<Node, nat>,
                         preds: map<Node, set<Node>>, succs: map<Node, set<Node>>, v: Node, w: Node) {
    && Placed(L, rank, pos) && OneLayerUp(rank, preds) && OneLayerDown(rank, succs) && Converse(preds, succs)
    && v in rank && AloneAtBothEnds(preds, succs, v, w) && Und(v, w) !in conflicts
      && CrossesNone(rank, pos, preds, v, w)
  }

  lemma LoneUp(L: Layering, conflicts: set<Pair>, rank: map<Node, nat>, pos: map<Node, nat>,
               preds: map<Node, set<Node>>, succs: map<Node, set<Node>>, v: Node, w: Node)
    requires IsLone(L, conflicts, rank, pos, preds, succs, v, w)
    ensures FreeBefore(rank, pos, preds, v, w) && w in rank && rank[w] + 1 == rank[v]
  {
    OthersAreBeside(L, rank, pos, preds, succs, v, w, v, w);
    forall u, y | u in preds && y in preds[u] && StandsBefore(rank, pos, u, v) ensures y in pos && pos[y] < pos[w] {
      OthersAreBeside(L, rank, pos, preds, succs, v, w, u, y);
    }
  }

  lemma LoneUpMirrored(L: Layering, conflicts: set<Pair>, rank: map<Node, nat>, pos: map<Node, nat>,
                       preds: map<Node, set<Node>>, succs: map<Node, set<Node>>, v: Node, w: Node,
                       rank': map<Node, nat>, pos': map<Node, nat>)
    requires IsLone(L, conflicts, rank, pos, preds, succs, v, w) && Placed(Mirror(L), rank', pos')
    ensures FreeBefore(rank', pos', preds, v, w) && v in rank'
  {
    MirroredPlaces(L, rank, pos, rank', pos');
    OthersAreBeside(L, rank, pos, preds, succs, v, w, v, w);
    forall u, y | u in preds && y in preds[u] && StandsBefore(rank', pos', u, v)
      ensures y in pos' && pos'[y] < pos'[w] {
      OthersAreBeside(L, rank, pos, preds, succs, v, w, u, y);
    }
  }

  lemma BesideBelow(L: Layering, conflicts: set<Pair>, rank: map<Node, nat>, pos: map<Node, nat>,
                    preds: map<Node, set<Node>>, succs: map<Node, set<Node>>, v: Node, w: Node, u: Node, y: Node)
    requires IsLone(L, conflicts, rank, pos, preds, succs, v, w) && u in succs && y in succs[u]
    requires u in rank && w in rank && rank[u] == rank[w] && u != w
    ensures y in rank && rank[y] == rank[v] && pos[y] != pos[v] && (pos[u] < pos[w] <==> pos[y] < pos[v])
  {
    OthersAreBeside(L, rank, pos, preds, succs, v, w, v, w);
    assert u in preds[y] && y in rank;
    assert u !in preds[v] && y != v;
    OthersAreBeside(L, rank, pos, preds, succs, v, w, y, u);
  }

  lemma LoneDown(L: Layering, conflicts: set<Pair>, rank: map<Node, nat>, pos: map<Node, nat>,
                 preds: map<Node, set<Node>>, succs: map<Node, set<Node>>, v: Node, w: Node,
                 rank': map<Node, nat>, pos': map<Node, nat>)
    requires IsLone(L, conflicts, rank, pos, preds, succs, v, w) && Placed(Flip(L), rank', pos')
    ensures FreeBefore(rank', pos', succs, w, v) && w in rank'
  {
    FlippedPlaces(L, rank, pos, rank', pos');
    OthersAreBeside(L, rank, pos, preds, succs, v, w, v, w);
    forall u, y | u in succs && y in succs[u] && StandsBefore(rank', pos', u, w)
      ensures y in pos' && pos'[y] < pos'[v] {
      BesideBelow(L, conflicts, rank, pos, preds, succs, v, w, u, y);
    }
  }

  lemma LoneDownMirrored(L: Layering, conflicts: set<Pair>, rank: map<Node, nat>, pos: map<Node, nat>,
                         preds: map<Node, set<Node>>, succs: map<Node, set<Node>>, v: Node, w: Node,
                         rank': map<Node, nat>, pos': map<Node, nat>)
    requires IsLone(L, conflicts, rank, pos, preds, succs, v, w) && Placed(Mirror(Flip(L)), rank', pos')
    ensures FreeBefore(rank', pos', succs, w, v) && w in rank'
  {
    FlippedMirroredPlaces(L, rank, pos, rank', pos');
    OthersAreBeside(L, rank, pos, preds, succs, v, w, v, w);
    forall u, y | u in succs && y in succs[u] && StandsBefore(rank', pos', u, w)
      ensures y in pos' && pos'[y] < pos'[v] {
      BesideBelow(L, conflicts, rank, pos, preds, succs, v, w, u, y);
    }
  }

  // ----- all four runs and what is made of them -----

  ghost predicate Level(xs: Xs, v: Node, w: Node) {
    v in xs && w in xs && xs[v] == xs[w]
  }

  ghost predicate AllLevel(f: Four, v: Node, w: Node) {
    Level(f.ul, v, w) && Level(f.ur, v, w) && Level(f.dl, v, w) && Level(f.dr, v, w)
  }

  lemma RunPlaces(L: Layering, s: Spacing, conflicts: set<Pair>, nbrs: map<Node, set<Node>>, reverseSep: bool,
                  t: Trace, xs: Xs)
    requires IsRun(L, s, conflicts, nbrs, reverseSep, t, xs)
    ensures Placed(L, t.al.rank, t.al.pos)
  {
    RunIsAligned(L, s, conflicts, nbrs, reverseSep, t, xs);
  }

  lemma UpRunsAreLevel(L: Layering, s: Spacing, conflicts: set<Pair>, rank: map<Node, nat>, pos: map<Node, nat>,
                       preds: map<Node, set<Node>>, succs: map<Node, set<Node>>, r: Report, v: Node, w: Node)
    requires IsLone(L, conflicts, rank, pos, preds, succs, v, w) == true
    requires AreRuns(L, s, conflicts, preds, succs, r) == true
    ensures Level(r.raw.ul, v, w) && Level(r.raw.ur, v, w)
  {
    RunPlaces(L, s, conflicts, preds, false, r.ul, r.raw.ul);
    SamePlaces(L, rank, pos, r.ul.al.rank, r.ul.al.pos);
    LoneUp(L, conflicts, rank, pos, preds, succs, v, w);
    RunIsStraight(L, s, conflicts, preds, false, r.ul, r.raw.ul, v, w);
    RunPlaces(Mirror(L), s, conflicts, preds, true, r.ur, Negated(r.raw.ur));
    LoneUpMirrored(L, conflicts, rank, pos, preds, succs, v, w, r.ur.al.rank, r.ur.al.pos);
    RunIsStraight(Mirror(L), s, conflicts, preds, true, r.ur, Negated(r.raw.ur), v, w);
  }

  lemma DownRunsAreLevel(L: Layering, s: Spacing, conflicts: set<Pair>, rank: map<Node, nat>, pos: map<Node, nat>,
                         preds: map<Node, set<Node>>, succs: map<Node, set<Node>>, r: Report, v: Node, w: Node)
    requires IsLone(L, conflicts, rank, pos, preds, succs, v, w) == true
    requires AreRuns(L, s, conflicts, preds, succs, r) == true
    ensures Level(r.raw.dl, v, w) && Level(r.raw.dr, v, w)
  {
    assert Und(w, v) == Und(v, w) || w == v;
    RunPlaces(Flip(L), s, conflicts, succs, false, r.dl, r.raw.dl);
    LoneDown(L, conflicts, rank, pos, preds, succs, v, w, r.dl.al.rank, r.dl.al.pos);
    RunIsStraight(Flip(L), s, conflicts, succs, false, r.dl, r.raw.dl, w, v);
    RunPlaces(Mirror(Flip(L)), s, conflicts, succs, true, r.dr, Negated(r.raw.dr));
    LoneDownMirrored(L, conflicts, rank, pos, preds, succs, v, w, r.dr.al.rank, r.dr.al.pos);
    RunIsStraight(Mirror(Flip(L)), s, conflicts, succs, true, r.dr, Negated(r.raw.dr), w, v);
  }

  lemma SamePlaces(L: Layering, rank: map<Node, nat>, pos: map<Node, nat>, rank': map<Node, nat>, pos': map<Node, nat>)
    requires Placed(L, rank, pos) && Placed(L, rank', pos')
    ensures rank' == rank && pos' == pos
  {
    forall x | x in rank ensures x in rank' && rank'[x] == rank[x] && pos'[x] == pos[x] {
      assert L[rank[x]][pos[x]] == x;
    }
    forall x | x in rank' ensures x in rank { assert L[rank'[x]][pos'[x]] == x; }
    assert pos'.Keys == pos.Keys;
  }

  lemma ShiftKeepsLevel(xs: Xs, alignTo: Xs, right: bool, xs': Xs, v: Node, w: Node)
    requires IsAligned(xs, alignTo, right, xs') && Level(xs, v, w)
    ensures Level(xs', v, w)
  {
  }

  lemma FourStayLevel(s: Spacing, r: Report, v: Node, w: Node)
    requires MovedToSmallest(s, r.raw, r.four, r.smallest, r.ms) && AllLevel(r.raw, v, w)
    ensures AllLevel(r.four, v, w)
  {
    var to := r.raw.Get(r.smallest);
    ShiftKeepsLevel(r.raw.ul, to, false, r.four.ul, v, w);
    ShiftKeepsLevel(r.raw.dl, to, false, r.four.dl, v, w);
    ShiftKeepsLevel(r.raw.ur, to, true, r.four.ur, v, w);
    ShiftKeepsLevel(r.raw.dr, to, true, r.four.dr, v, w);
  }

  /** In the final coordinates the two ends stand at one place. */
  lemma LoneEdgeIsStraight(L: Layering, s: Spacing, conflicts: set<Pair>, rank: map<Node, nat>, pos: map<Node, nat>,
                           preds: map<Node, set<Node>>, succs: map<Node, set<Node>>, align: Option<nat>, r: Report,
                           xs: Xs, v: Node, w: Node)
    requires IsPositioned(L, s, conflicts, preds, succs, align, r, xs) && xs.Keys == rank.Keys
    requires IsLone(L, conflicts, rank, pos, preds, succs, v, w) && (align.Some? ==> align.value < 4)
    ensures w in xs && xs[v] == xs[w]
  {
    UpRunsAreLevel(L, s, conflicts, rank, pos, preds, succs, r, v, w);
    DownRunsAreLevel(L, s, conflicts, rank, pos, preds, succs, r, v, w);
    FourStayLevel(s, r, v, w);
    LoneUp(L, conflicts, rank, pos, preds, succs, v, w);
    BalanceIsLevel(r.four, align, xs, v, w);
  }

  lemma BalanceIsLevel(four: Four, align: Option<nat>, xs: Xs, v: Node, w: Node)
    requires IsBalanced(four, align, xs) && AllLevel(four, v, w) && v in xs && w in xs
    ensures xs[v] == xs[w]
  {
  }
}
