/** What it means to enter the nodes of a layered graph depth first. */
module DepthFirst {
  import opened Graphs
  import opened Sums
  import opened CrossCount
  import opened ConstraintRuns
  import opened Layerings
  import opened Reachability

  /** The graph without the edges to the nodes of A. */
  ghost function Without(g: Layers, A: seq<Node>): Succ {
    map v | v in g.rank :: set w | w in g.Successors(v) && w !in A
  }

  /** From i to before j stand the nodes that are reached from s[i] without passing one entered before it. */
  ghost predicate Block(g: Layers, s: seq<Node>, i: nat, j: nat) {
    && i < j <= |s|
    && forall x {:trigger Reach(Without(g, s[..i]), s[i], x)} {:trigger x in s[i..j]} ::
      x in s[i..j] <==> Reach(Without(g, s[..i]), s[i], x)
  }

  ghost predicate HasBlock(g: Layers, s: seq<Node>, i: nat) {
    exists j: nat :: Block(g, s, i, j)
  }

  /** From the given place on, everything newly reached from a node is entered before the search goes on. */
  ghost predicate Explored(g: Layers, s: seq<Node>, from: nat) {
    forall i: nat {:trigger HasBlock(g, s, i)} :: from <= i < |s| ==> HasBlock(g, s, i)
  }

  /** v is found along an edge, or all nodes of lower rank have been entered. */
  ghost predicate MayEnter(g: Layers, s: seq<Node>, v: Node) {
    (exists u :: u in s && v in g.Successors(u))
    || forall x :: x in g.rank && v in g.rank && g.rank[x] < g.rank[v] ==> x in s
  }

  ghost predicate Justified(g: Layers, s: seq<Node>) {
    forall k {:trigger s[..k]} :: 0 <= k < |s| ==> MayEnter(g, s[..k], s[k])
  }

  /** s lists every node once, in an order of depth-first search that tries its roots by rank. */
  ghost predicate IsDepthFirst(g: Layers, s: seq<Node>) {
    NoRepeats(s) && (forall x :: x in s <==> x in g.rank) && Explored(g, s, 0) && Justified(g, s)
  }

  /** The nodes of rank r, in the order of s. */
  ghost function OfRank(g: Layers, s: seq<Node>, r: int): seq<Node> {
    if s == [] then [] else
      var v := s[|s| - 1];
      OfRank(g, s[..|s| - 1], r) + (if v in g.rank && g.rank[v] == r then [v] else [])
  }

  ghost predicate Layered(g: Layers, s: seq<Node>, L: Layering) {
    |L| == |g.E| && forall r {:trigger L[r]} :: 0 <= r < |L| ==> L[r] == OfRank(g, s, r)
  }

  // ----- entering one more node -----

  lemma EnterOne(g: Layers, s: seq<Node>, L: Layering, v: Node)
    requires g.Valid() && Layered(g, s, L) && v in g.rank
    ensures Layered(g, s + [v], L[g.rank[v] := L[g.rank[v]] + [v]])
  {
    var s' := s + [v];
    assert s'[..|s'| - 1] == s;
  }

  lemma EnterJustified(g: Layers, s: seq<Node>, v: Node)
    requires Justified(g, s) && MayEnter(g, s, v)
    ensures Justified(g, s + [v])
  {
    var s' := s + [v];
    forall k | 0 <= k < |s'| ensures MayEnter(g, s'[..k], s'[k]) {
      assert s'[..k] == if k < |s| then s[..k] else s;
    }
  }

  lemma BlockStays(g: Layers, s: seq<Node>, s': seq<Node>, i: nat)
    requires s <= s' && HasBlock(g, s, i)
    ensures HasBlock(g, s', i)
  {
    var j: nat :| Block(g, s, i, j);
    assert s'[..i] == s[..i] && s'[i..j] == s[i..j];
    assert Block(g, s', i, j);
  }

  lemma FewerWithout(g: Layers, A: seq<Node>, B: seq<Node>, x: Node, y: Node)
    requires (forall z :: z in A ==> z in B) && Reach(Without(g, B), x, y)
    ensures Reach(Without(g, A), x, y)
  {
    var a, b := Without(g, A), Without(g, B);
    forall C: set<Node> | ClosedUnder(a, C) && x in C ensures y in C {
      assert ClosedUnder(b, C) by {
        forall p, q | p in C && p in b && q in b[p] ensures q in C { assert q in a[p]; }
      }
    }
  }

  /** A block has no edge to a node that has not been entered by its end. */
  lemma BlockIsClosed(g: Layers, s: seq<Node>, i: nat, j: nat, x: Node, y: Node)
    requires Block(g, s, i, j) && x in s[i..j] && x in g.rank && y in g.Successors(x)
    ensures y in s[..j]
  {
    if y !in s[..i] {
      ReachStep(Without(g, s[..i]), x, y);
      ReachTransitive(Without(g, s[..i]), s[i], x, y);
      assert y in s[i..j];
    }
    assert s[..j] == s[..i] + s[i..j];
  }

  // ----- the search from one node -----

  /** v has been entered after s0; what was entered since has been explored; todo holds what is left to try. */
  ghost predicate Underway(g: Layers, s0: seq<Node>, s: seq<Node>, v: Node, todo: set<Node>) {
    && s0 + [v] <= s && Explored(g, s, |s0| + 1)
    && (forall x {:trigger x in s[|s0|..]} :: x in s[|s0|..] ==> Reach(Without(g, s0), v, x))
    && (forall x, y :: x in s[|s0| + 1..] && y in g.Successors(x) ==> y in s)
    && (forall y :: y in g.Successors(v) ==> y in s || y in todo)
  }

  lemma JustEntered(g: Layers, s0: seq<Node>, v: Node)
    ensures Underway(g, s0, s0 + [v], v, g.Successors(v))
  {
    assert (s0 + [v])[|s0|..] == [v] && (s0 + [v])[|s0| + 1..] == [];
  }

  /** What a call for w has brought: nothing if w was entered, and w's block if it was not. */
  ghost predicate Searched(g: Layers, s: seq<Node>, w: Node, s': seq<Node>) {
    && s <= s' && w in s' && (w in s ==> s' == s)
    && (w !in s ==> |s| < |s'| && s'[|s|] == w && Block(g, s', |s|, |s'|) == true) && Explored(g, s', |s|) == true
  }

  lemma OneSearched(g: Layers, s0: seq<Node>, s: seq<Node>, v: Node, todo: set<Node>, w: Node, s': seq<Node>)
    requires Underway(g, s0, s, v, todo) && v in g.rank && w in g.Successors(v) && Searched(g, s, w, s')
    requires forall x :: x in s' ==> x in g.rank
    ensures Underway(g, s0, s', v, todo - {w}) == true
  {
    if w !in s {
      NewExplored(g, s, s', |s0| + 1);
      NewIsReached(g, s0, s, v, w, s');
      NewIsClosed(g, s, s', |s0| + 1);
      assert s0 + [v] <= s';
    }
  }

  lemma NewExplored(g: Layers, s: seq<Node>, s': seq<Node>, from: nat)
    requires s <= s' && Explored(g, s, from) && Explored(g, s', |s|)
    ensures Explored(g, s', from)
  {
    forall i: nat | from <= i < |s'| ensures HasBlock(g, s', i) {
      if i < |s| { BlockStays(g, s, s', i); }
    }
  }

  lemma NewIsReached(g: Layers, s0: seq<Node>, s: seq<Node>, v: Node, w: Node, s': seq<Node>)
    requires s0 <= s <= s' && w !in s && |s| < |s'| && s'[|s|] == w && Block(g, s', |s|, |s'|)
    requires v in g.rank && w in g.Successors(v)
    requires forall x {:trigger x in s[|s0|..]} :: x in s[|s0|..] ==> Reach(Without(g, s0), v, x)
    ensures forall x {:trigger x in s'[|s0|..]} :: x in s'[|s0|..] ==> Reach(Without(g, s0), v, x)
  {
    assert s'[..|s|] == s && s'[|s0|..] == s[|s0|..] + s'[|s|..|s'|];
    forall x | x in s'[|s|..|s'|] ensures Reach(Without(g, s0), v, x) {
      FewerWithout(g, s0, s, w, x);
      ReachStep(Without(g, s0), v, w);
      ReachTransitive(Without(g, s0), v, w, x);
    }
  }

  lemma NewIsClosed(g: Layers, s: seq<Node>, s': seq<Node>, from: nat)
    requires s <= s' && from <= |s| < |s'| && Block(g, s', |s|, |s'|) && forall x :: x in s' ==> x in g.rank
    requires forall x, y :: x in s[from..] && y in g.Successors(x) ==> y in s
    ensures forall x, y :: x in s'[from..] && y in g.Successors(x) ==> y in s'
  {
    assert s'[from..] == s[from..] + s'[|s|..|s'|] && s'[..|s'|] == s';
    forall x, y | x in s'[from..] && y in g.Successors(x) ensures y in s' {
      if x in s[from..] { assert y in s; } else { BlockIsClosed(g, s', |s|, |s'|, x, y); }
    }
  }

  /** When nothing is left to try, all that is reached from v has been entered. */
  lemma AllSearched(g: Layers, s0: seq<Node>, s: seq<Node>, v: Node)
    requires Underway(g, s0, s, v, {}) && NoRepeats(s)
    ensures Block(g, s, |s0|, |s|) == true && Explored(g, s, |s0|) == true
  {
    var a, C := Without(g, s0), set x | x in s[|s0|..];
    assert s[..|s0|] == s0 && s[|s0|..|s|] == s[|s0|..] && s == s0 + s[|s0|..] && s[|s0|] == v;
    assert s[|s0|..] == [v] + s[|s0| + 1..];
    assert ClosedUnder(a, C) by {
      forall x, y | x in C && x in a && y in a[x] ensures y in C { assert y in s && y !in s0; }
    }
    assert Block(g, s, |s0|, |s|);
    assert HasBlock(g, s, |s0|);
  }

  // ----- what a depth-first order brings -----

  lemma {:induction false} OfRankLists(g: Layers, s: seq<Node>, r: int)
    requires NoRepeats(s)
    ensures NoRepeats(OfRank(g, s, r))
    ensures forall x :: x in OfRank(g, s, r) <==> x in s && x in g.rank && g.rank[x] == r
    decreases |s|
  {
    if s != [] {
      var k := |s| - 1;
      assert s == s[..k] + [s[k]];
      OfRankLists(g, s[..k], r);
    }
  }

  lemma LayeredIsLayering(g: Layers, s: seq<Node>, L: Layering)
    requires NoRepeats(s) && (forall x :: x in s <==> x in g.rank) && Layered(g, s, L)
    ensures IsLayering(g, L)
  {
    forall r | 0 <= r < |L| ensures LayerOk(g, L, r) { OfRankLists(g, s, r); }
  }

  /** A layer lists its nodes in the order in which they have been entered. */
  lemma {:induction false} OfRankInOrder(g: Layers, s: seq<Node>, r: int, p: nat, q: nat)
    requires NoRepeats(s) && p < q < |OfRank(g, s, r)|
    ensures OfRank(g, s, r)[p] in s && OfRank(g, s, r)[q] in s
      && PlaceIn(s, OfRank(g, s, r)[p]) < PlaceIn(s, OfRank(g, s, r)[q])
    decreases |s|
  {
    var k := |s| - 1;
    var layer, rest := OfRank(g, s, r), OfRank(g, s[..k], r);
    OfRankLists(g, s, r);
    OfRankLists(g, s[..k], r);
    assert layer[p] in layer && layer[q] in layer;
    var i, j := PlaceIn(s, layer[p]), PlaceIn(s, layer[q]);
    if q < |rest| {
      OfRankInOrder(g, s[..k], r, p, q);
      var i', j' := PlaceIn(s[..k], layer[p]), PlaceIn(s[..k], layer[q]);
      assert s[i'] == layer[p] && s[j'] == layer[q];
    } else {
      assert layer[q] == s[k] && layer[p] in rest && layer[p] in s[..k];
    }
  }

  /** From a node no other of its rank is reached. */
  lemma ReachGoesDown(g: Layers, A: seq<Node>, x: Node, y: Node)
    requires g.Valid() && x in g.rank && Reach(Without(g, A), x, y)
    ensures y == x || (y in g.rank && g.rank[y] > g.rank[x])
  {
    var C := {x} + set z | z in g.rank && g.rank[z] > g.rank[x];
    assert ClosedUnder(Without(g, A), C);
  }

  /** What an edge from a leads to is entered before any later node c of the same rank. */
  lemma EnteredBefore(g: Layers, s: seq<Node>, a: Node, b: Node, c: Node)
    requires g.Valid() && IsDepthFirst(g, s) && b in g.Successors(a)
    requires a in g.rank && c in g.rank && g.rank[a] == g.rank[c] && PlaceIn(s, a) < PlaceIn(s, c)
    ensures b in s && PlaceIn(s, b) < PlaceIn(s, c)
  {
    var i, k := PlaceIn(s, a), PlaceIn(s, c);
    assert HasBlock(g, s, i);
    var j: nat :| Block(g, s, i, j);
    BlockEndsBefore(g, s, i, j, k);
    assert s[i..j][0] == a;
    BlockIsClosed(g, s, i, j, a, b);
    var m :| 0 <= m < j && s[..j][m] == b;
    assert s[m] == b;
    SamePlace(s, b, m);
  }

  lemma SamePlace(s: seq<Node>, x: Node, m: nat)
    requires NoRepeats(s) && m < |s| && s[m] == x
    ensures x in s && PlaceIn(s, x) == m
  {
    assert x in s;
  }

  lemma BlockEndsBefore(g: Layers, s: seq<Node>, i: nat, j: nat, k: nat)
    requires g.Valid() && NoRepeats(s) && Block(g, s, i, j) == true && i < k < |s|
    requires s[i] in g.rank && s[k] in g.rank && g.rank[s[i]] == g.rank[s[k]]
    ensures j <= k
  {
    if k < j {
      assert s[i..j][k - i] == s[k];
      ReachGoesDown(g, s[..i], s[i], s[k]);
    }
  }

  /** A node with one predecessor only is entered after it. */
  lemma EnteredAfter(g: Layers, s: seq<Node>, c: Node, d: Node)
    requires g.Valid() && IsDepthFirst(g, s) && d in g.Successors(c) && c in g.rank
    requires forall x :: x in g.rank && d in g.Successors(x) ==> x == c
    ensures d in s && PlaceIn(s, c) < PlaceIn(s, d)
  {
    assert g.rank[c] < g.rank[d];
    var k := PlaceIn(s, d);
    assert MayEnter(g, s[..k], s[k]);
    assert c in s[..k];
    var i :| 0 <= i < k && s[..k][i] == c;
    assert s[i] == c;
  }

  /** No node has two predecessors. */
  ghost predicate IsForest(g: Layers) {
    forall r, e, f :: 0 <= r < |g.E| && e in g.E[r] && f in g.E[r] && e.w == f.w ==> e.v == f.v
  }

  lemma PairDoesNotCross(g: Layers, s: seq<Node>, L: Layering, r: int, e: Segment, f: Segment)
    requires g.Valid() && IsForest(g) && IsDepthFirst(g, s) && Layered(g, s, L) && 1 <= r < |L|
    requires e in g.E[r] && f in g.E[r]
    ensures !Cross(PosOf(L[r - 1]), PosOf(L[r]), e, f)
  {
    var north, south := PosOf(L[r - 1]), PosOf(L[r]);
    if Cross(north, south, e, f) {
      OfRankInOrder(g, s, r - 1, north[e.v], north[f.v]);
      OfRankInOrder(g, s, r, south[f.w], south[e.w]);
      EnteredBefore(g, s, e.v, e.w, f.v);
      OnePredecessor(g, r, f);
      EnteredAfter(g, s, f.v, f.w);
      assert false;
    }
  }

  lemma OnePredecessor(g: Layers, r: int, f: Segment)
    requires g.Valid() && IsForest(g) && 0 <= r < |g.E| && f in g.E[r]
    ensures forall x :: f.w in g.Successors(x) ==> x == f.v
  {
    forall x | f.w in g.Successors(x) ensures x == f.v {
      var q, e :| 0 <= q < |g.E| && e in g.E[q] && e.v == x && e.w == f.w;
      assert q == g.rank[f.w] == r;
    }
  }

  lemma {:induction false} NoneCross(g: Layers, s: seq<Node>, L: Layering, n: nat)
    requires g.Valid() && IsForest(g) && IsDepthFirst(g, s) && Layered(g, s, L) && n <= |L|
    ensures LayerCrossings(g.E, PosSeq(L), n) == 0
    decreases n
  {
    if n > 1 {
      NoneCross(g, s, L, n - 1);
      var E, north, south := g.E[n - 1], PosOf(L[n - 2]), PosOf(L[n - 1]);
      forall e, f | e in E && f in E ensures !Cross(north, south, e, f) {
        PairDoesNotCross(g, s, L, n - 1, e, f);
      }
      NoCrossings(E, north, south);
    }
  }

  lemma NoCrossings(E: set<Segment>, north: map<Node, nat>, south: map<Node, nat>)
    requires forall e, f :: e in E && f in E ==> !Cross(north, south, e, f)
    ensures Crossings(E, north, south) == 0
  {
    forall f | f in E ensures CrossedBy(E, north, south, f) == 0 {
      var h := (e: Segment) => CrossWeight(north, south, e, f);
      SumLinear(E, h, 0, h, 0, h);
      SumCong(E, h, (e: Segment) => CrossWeight(north, south, e, f));
    }
    var k := (f: Segment) => CrossedBy(E, north, south, f);
    SumLinear(E, k, 0, k, 0, k);
    SumCong(E, k, (f: Segment) => CrossedBy(E, north, south, f));
  }

  /** A forest whose edges lead away from its roots starts without crossings. */
  lemma ForestStartsPlanar(g: Layers, s: seq<Node>, L: Layering)
    requires g.Valid() && IsForest(g) && IsDepthFirst(g, s) && Layered(g, s, L)
    ensures CC(g, L) == 0
  {
    NoneCross(g, s, L, |L|);
  }
}
