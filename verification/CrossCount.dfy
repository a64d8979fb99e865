/** Counting weighted edge crossings between layers with an accumulator tree. */
module CrossCount {
  import opened Graphs
  import opened Sums

  // ----- the accumulator tree -----

  function Parent(j: nat): nat
    requires j > 0
  {
    (j - 1) / 2
  }

  /** Tree node i lies on the path from j to the root. */
  ghost predicate IsAncestor(i: nat, j: nat) {
    i == j || (j > 0 && IsAncestor(i, Parent(j)))
  }

  ghost function Depth(j: nat): nat {
    if j == 0 then 0 else 1 + Depth(Parent(j))
  }

  function Pow2(k: nat): (p: nat)
    ensures p >= 1
  {
    if k == 0 then 1 else 2 * Pow2(k - 1)
  }

  /** The nodes from 2^k - 1 to 2^(k+1) - 2 are the ones at depth k. */
  lemma {:induction false} LevelDepth(k: nat, j: nat)
    requires Pow2(k) - 1 <= j < 2 * Pow2(k) - 1
    ensures Depth(j) == k
    decreases k
  {
    if k > 0 { LevelDepth(k - 1, Parent(j)); }
  }

  lemma {:induction false} AncestorDepth(i: nat, j: nat)
    requires IsAncestor(i, j)
    ensures i <= j && Depth(i) <= Depth(j) && (Depth(i) == Depth(j) ==> i == j)
    decreases j
  {
    if i != j { AncestorDepth(i, Parent(j)); }
  }

  lemma {:induction false} RootIsAncestor(j: nat)
    ensures IsAncestor(0, j)
    decreases j
  {
    if j > 0 { RootIsAncestor(Parent(j)); }
  }

  /** Of two nodes at the same depth, the one with the smaller ancestor at some depth comes first. */
  lemma {:induction false} SubtreesAreOrdered(i: nat, k: nat, a: nat, b: nat)
    requires IsAncestor(i, a) && IsAncestor(k, b) && Depth(a) == Depth(b) && Depth(i) == Depth(k) && i < k
    ensures a < b
    decreases a
  {
    AncestorDepth(i, a);
    AncestorDepth(k, b);
    if a != i { SubtreesAreOrdered(i, k, Parent(a), Parent(b)); }
  }

  /** Two ancestors of one node at the same depth are the same. */
  lemma {:induction false} OneAncestorPerDepth(i: nat, k: nat, j: nat)
    requires IsAncestor(i, j) && IsAncestor(k, j) && Depth(i) == Depth(k)
    ensures i == k
    decreases j
  {
    AncestorDepth(i, j);
    AncestorDepth(k, j);
    if i != j { OneAncestorPerDepth(i, k, Parent(j)); }
  }

  /** Below the parent of i lie i's subtree and that of its sibling. */
  lemma {:induction false} SplitAtParent(i: nat, j: nat)
    requires i > 0 && Depth(j) >= Depth(i)
    ensures var s := if i % 2 == 1 then i + 1 else i - 1;
      && Depth(s) == Depth(i)
      && (IsAncestor(Parent(i), j) <==> IsAncestor(i, j) || IsAncestor(s, j))
      && !(IsAncestor(i, j) && IsAncestor(s, j))
    decreases j
  {
    var s := if i % 2 == 1 then i + 1 else i - 1;
    assert Parent(s) == Parent(i);
    if IsAncestor(i, j) && IsAncestor(s, j) { OneAncestorPerDepth(i, s, j); }
    SplitUp(i, s, j);
  }

  lemma {:induction false} SplitUp(i: nat, s: nat, j: nat)
    requires i > 0 && s == (if i % 2 == 1 then i + 1 else i - 1) && Parent(s) == Parent(i) && Depth(j) >= Depth(i)
    ensures IsAncestor(Parent(i), j) <==> IsAncestor(i, j) || IsAncestor(s, j)
    decreases j
  {
    if j > 0 && j != i && j != s {
      if Depth(Parent(j)) >= Depth(i) {
        SplitUp(i, s, Parent(j));
      } else {
        if IsAncestor(Parent(i), Parent(j)) { AncestorDepth(Parent(i), Parent(j)); }
        if IsAncestor(i, Parent(j)) { AncestorDepth(i, Parent(j)); }
        if IsAncestor(s, Parent(j)) { AncestorDepth(s, Parent(j)); }
      }
    } else if j == i || j == s {
      assert IsAncestor(Parent(i), Parent(j));
    }
  }

  // ----- what the tree holds -----

  datatype Entry = Entry(pos: nat, weight: int)

  /** The weight of the first n entries whose leaf lies below tree node i. */
  ghost function WeightBelow(es: seq<Entry>, n: nat, first: nat, i: nat): int
    requires n <= |es|
  {
    if n == 0 then 0 else
      WeightBelow(es, n - 1, first, i) + if IsAncestor(i, es[n - 1].pos + first) then es[n - 1].weight else 0
  }

  /** The same, for leaves to the right of the given one. */
  ghost function WeightRight(es: seq<Entry>, n: nat, first: nat, i: nat, leaf: nat): int
    requires n <= |es|
  {
    if n == 0 then 0 else
      WeightRight(es, n - 1, first, i, leaf) +
      if IsAncestor(i, es[n - 1].pos + first) && es[n - 1].pos + first > leaf then es[n - 1].weight else 0
  }

  /** The weight of the first n entries placed after pos. */
  ghost function WeightAfter(es: seq<Entry>, n: nat, pos: nat): int
    requires n <= |es|
  {
    if n == 0 then 0 else WeightAfter(es, n - 1, pos) + if es[n - 1].pos > pos then es[n - 1].weight else 0
  }

  /** Summed over all pairs of entries, the later placed before the earlier: the products of their weights. */
  ghost function Inversions(es: seq<Entry>, n: nat): int
    requires n <= |es|
  {
    if n == 0 then 0 else Inversions(es, n - 1) + es[n - 1].weight * WeightAfter(es, n - 1, es[n - 1].pos)
  }

  /** All entries fit on the leaves, which are the nodes at depth k. */
  ghost predicate OnLeaves(es: seq<Entry>, k: nat, first: nat) {
    first == Pow2(k) - 1 && forall m :: 0 <= m < |es| ==> es[m].pos < Pow2(k)
  }

  lemma LeafDepth(es: seq<Entry>, k: nat, first: nat, m: nat)
    requires OnLeaves(es, k, first) && m < |es|
    ensures Depth(es[m].pos + first) == k
  {
    LevelDepth(k, es[m].pos + first);
  }

  lemma {:induction false} NoneRightAtLeaf(es: seq<Entry>, n: nat, k: nat, first: nat, leaf: nat)
    requires OnLeaves(es, k, first) && n <= |es| && Depth(leaf) == k
    ensures WeightRight(es, n, first, leaf, leaf) == 0
    decreases n
  {
    if n > 0 {
      NoneRightAtLeaf(es, n - 1, k, first, leaf);
      LeafDepth(es, k, first, n - 1);
      if IsAncestor(leaf, es[n - 1].pos + first) { AncestorDepth(leaf, es[n - 1].pos + first); }
    }
  }

  /** Going up one step adds the sibling's subtree on the right of the path, and nothing on its left. */
  lemma {:induction false} RightAtParent(es: seq<Entry>, n: nat, k: nat, first: nat, leaf: nat, i: nat)
    requires OnLeaves(es, k, first) && n <= |es| && Depth(leaf) == k && i > 0 && IsAncestor(i, leaf)
    ensures WeightRight(es, n, first, Parent(i), leaf)
         == WeightRight(es, n, first, i, leaf) + if i % 2 == 1 then WeightBelow(es, n, first, i + 1) else 0
    decreases n
  {
    if n > 0 {
      RightAtParent(es, n - 1, k, first, leaf, i);
      var j := es[n - 1].pos + first;
      LeafDepth(es, k, first, n - 1);
      AncestorDepth(i, leaf);
      SplitAtParent(i, j);
      if i % 2 == 1 {
        if IsAncestor(i + 1, j) { SubtreesAreOrdered(i, i + 1, leaf, j); }
      } else {
        if IsAncestor(i - 1, j) { SubtreesAreOrdered(i - 1, i, j, leaf); }
      }
    }
  }

  lemma {:induction false} RightAtRoot(es: seq<Entry>, n: nat, first: nat, pos: nat)
    requires n <= |es|
    ensures WeightRight(es, n, first, 0, pos + first) == WeightAfter(es, n, pos)
    decreases n
  {
    if n > 0 {
      RightAtRoot(es, n - 1, first, pos);
      RootIsAncestor(es[n - 1].pos + first);
    }
  }

  /** The tree holds the weights of the first n entries; the nodes from index up to leaf also hold the next. */
  ghost predicate TreeHolds(tree: seq<int>, es: seq<Entry>, n: nat, first: nat)
    requires n <= |es|
  {
    forall i :: 0 <= i < |tree| ==> tree[i] == WeightBelow(es, n, first, i)
  }

  ghost predicate TreeHoldsAbove(tree: seq<int>, es: seq<Entry>, n: nat, first: nat, index: nat)
    requires n < |es|
  {
    forall i :: 0 <= i < |tree| ==>
      tree[i] == WeightBelow(es, n, first, i) + if i >= index && IsAncestor(i, es[n].pos + first) then es[n].weight
        else 0
  }

  /** No node strictly between a node and its parent is an ancestor of what lies below. */
  lemma {:induction false} NextAncestor(index: nat, leaf: nat, i: nat)
    requires index > 0 && IsAncestor(index, leaf) && Parent(index) < i < index
    ensures !IsAncestor(i, leaf)
    decreases leaf
  {
    if leaf == index {
      if IsAncestor(i, Parent(leaf)) { AncestorDepth(i, Parent(leaf)); }
    } else {
      AncestorDepth(index, leaf);
      NextAncestor(index, Parent(leaf), i);
    }
  }

  lemma ParentIsAncestor(index: nat, leaf: nat)
    requires index > 0 && IsAncestor(index, leaf)
    ensures IsAncestor(Parent(index), leaf)
    decreases leaf
  {
    if index != leaf { ParentIsAncestor(index, Parent(leaf)); }
  }

  lemma ClimbOne(tree: seq<int>, es: seq<Entry>, n: nat, first: nat, index: nat)
    requires n < |es| && 0 < index < |tree| && IsAncestor(index, es[n].pos + first)
    requires TreeHoldsAbove(tree, es, n, first, index)
    ensures TreeHoldsAbove(tree[Parent(index) := tree[Parent(index)] + es[n].weight], es, n, first, Parent(index))
  {
    var p, leaf := Parent(index), es[n].pos + first;
    ParentIsAncestor(index, leaf);
    forall i: nat | p < i < index ensures !IsAncestor(i, leaf) {
      NextAncestor(index, leaf, i);
    }
  }

  /** Adds one entry to the tree and returns the weight already there to its right. */
  method AddEntry(tree: array<int>, first: nat, entry: Entry, ghost es: seq<Entry>, ghost n: nat, ghost k: nat)
    returns (weightSum: int)
    requires n < |es| && es[n] == entry && OnLeaves(es, k, first) && tree.Length == 2 * Pow2(k) - 1
    requires TreeHolds(tree[..], es, n, first)
    modifies tree
    ensures TreeHolds(tree[..], es, n + 1, first)
    ensures weightSum == WeightAfter(es, n, entry.pos)
  {
    var index := entry.pos + first;
    ghost var leaf := index;
    LevelDepth(k, leaf);
    NoneRightAtLeaf(es, n, k, first, leaf);
    StartClimb(tree[..], es, n, k, first);
    tree[index] := tree[index] + entry.weight;
    weightSum := 0;
    while index > 0
      invariant index <= leaf < tree.Length && IsAncestor(index, leaf)
      invariant TreeHoldsAbove(tree[..], es, n, first, index)
      invariant weightSum == WeightRight(es, n, first, index, leaf)
      decreases index
    {
      RightAtParent(es, n, k, first, leaf, index);
      if index % 2 == 1 {
        SiblingIsNoAncestor(index, leaf);
        weightSum := weightSum + tree[index + 1];
      }
      ClimbOne(tree[..], es, n, first, index);
      ParentIsAncestor(index, leaf);
      index := (index - 1) / 2;
      tree[index] := tree[index] + entry.weight;
    }
    RightAtRoot(es, n, first, entry.pos);
  }

  lemma SiblingIsNoAncestor(i: nat, leaf: nat)
    requires i % 2 == 1 && IsAncestor(i, leaf)
    ensures !IsAncestor(i + 1, leaf)
  {
    AncestorDepth(i, leaf);
    SplitAtParent(i, leaf);
  }

  lemma StartClimb(tree: seq<int>, es: seq<Entry>, n: nat, k: nat, first: nat)
    requires n < |es| && OnLeaves(es, k, first) && |tree| == 2 * Pow2(k) - 1 && TreeHolds(tree, es, n, first)
    ensures var leaf := es[n].pos + first;
      TreeHoldsAbove(tree[leaf := tree[leaf] + es[n].weight], es, n, first, leaf)
  {
    var leaf := es[n].pos + first;
    forall i | leaf < i < |tree| ensures !IsAncestor(i, leaf) {
      if IsAncestor(i, leaf) { AncestorDepth(i, leaf); }
    }
  }

  /** The accumulator tree counts exactly the weighted inversions of the south positions. */
  method CountInversions(es: seq<Entry>, size: nat) returns (cc: int)
    requires forall m :: 0 <= m < |es| ==> es[m].pos < size
    ensures cc == Inversions(es, |es|)
  {
    var firstIndex := 1;
    ghost var k := 0;
    while firstIndex < size
      invariant firstIndex == Pow2(k)
      decreases size - firstIndex
    {
      firstIndex := 2 * firstIndex;
      k := k + 1;
    }
    var treeSize := 2 * firstIndex - 1;
    firstIndex := firstIndex - 1;
    var tree := new int[treeSize](_ => 0);
    cc := 0;
    for n := 0 to |es|
      invariant TreeHolds(tree[..], es, n, firstIndex)
      invariant cc == Inversions(es, n)
    {
      var weightSum := AddEntry(tree, firstIndex, es[n], es, n, k);
      cc := cc + es[n].weight * weightSum;
    }
  }

  // ----- layers and edges -----

  /** An edge from a layer to the next; parallel edges differ in their name. */
  datatype Segment = Segment(v: Node, w: Node, name: nat, weight: int)

  /** Positions in a layer. */
  ghost predicate Positions(layer: seq<Node>, pos: map<Node, nat>) {
    && (forall v :: v in pos ==> pos[v] < |layer| && layer[pos[v]] == v)
    && (forall i :: 0 <= i < |layer| ==> layer[i] in pos && pos[layer[i]] == i)
  }

  /** e and f cross: e starts before f and ends after it. */
  ghost predicate Cross(north: map<Node, nat>, south: map<Node, nat>, e: Segment, f: Segment) {
    e.v in north && f.v in north && e.w in south && f.w in south && north[e.v] < north[f.v] && south[e.w] > south[f.w]
  }

  ghost function CrossWeight(north: map<Node, nat>, south: map<Node, nat>, e: Segment, f: Segment): int {
    if Cross(north, south, e, f) then f.weight * e.weight else 0
  }

  /** The definition: over all ordered pairs of edges that cross, the product of their weights. */
  ghost function Crossings(E: set<Segment>, north: map<Node, nat>, south: map<Node, nat>): int {
    Sum(E, (f: Segment) => CrossedBy(E, north, south, f))
  }

  ghost function CrossedBy(E: set<Segment>, north: map<Node, nat>, south: map<Node, nat>, f: Segment): int {
    Sum(E, (e: Segment) => CrossWeight(north, south, e, f))
  }

  /** L lists E, north ends first to last, and for each north end the south ends first to last. */
  ghost predicate Swept(L: seq<Segment>, E: set<Segment>, north: map<Node, nat>, south: map<Node, nat>) {
    && (forall e :: e in L <==> e in E)
    && (forall e :: e in E ==> e.v in north && e.w in south)
    && (forall i, j :: 0 <= i < j < |L| ==> Before(L[i], L[j], north, south))
  }

  ghost predicate Before(e: Segment, f: Segment, north: map<Node, nat>, south: map<Node, nat>) {
    e != f && e.v in north && f.v in north && e.w in south && f.w in south &&
    (north[e.v] < north[f.v] || (north[e.v] == north[f.v] && south[e.w] <= south[f.w]))
  }

  function Entries(L: seq<Segment>, south: map<Node, nat>): (es: seq<Entry>)
    requires forall e :: e in L ==> e.w in south
    ensures |es| == |L| && forall i :: 0 <= i < |L| ==> es[i] == Entry(south[L[i].w], L[i].weight)
  {
    seq(|L|, i requires 0 <= i < |L| => Entry(south[L[i].w], L[i].weight))
  }

  ghost function Members(L: seq<Segment>, n: nat): set<Segment>
    requires n <= |L|
  {
    set i | 0 <= i < n :: L[i]
  }

  /** In a swept list the entries placed after f among those before it are the edges that f is crossed by. */
  lemma {:induction false} AfterIsCrossing(L: seq<Segment>, E: set<Segment>, north: map<Node, nat>,
                                           south: map<Node, nat>, n: nat, m: nat)
    requires Swept(L, E, north, south) && m <= n < |L|
    ensures L[n].weight * WeightAfter(Entries(L, south), m, south[L[n].w]) ==
      CrossedBy(Members(L, m), north, south, L[n])
    decreases m
  {
    var f := (e: Segment) => CrossWeight(north, south, e, L[n]);
    if m > 0 {
      AfterIsCrossing(L, E, north, south, n, m - 1);
      assert L[m - 1] in Members(L, m);
      SumPick(Members(L, m), f, L[m - 1]);
      MembersLessLast(L, E, north, south, m);
      assert Before(L[m - 1], L[n], north, south);
      AddProduct(L[n].weight, WeightAfter(Entries(L, south), m - 1, south[L[n].w]), L[m - 1].weight);
    } else {
      SumLinear(Members(L, m), f, 0, f, 0, f);
    }
  }

  lemma AddProduct(w: int, a: int, b: int)
    ensures w * (a + b) == w * a + w * b
  {
  }

  lemma MembersLessLast(L: seq<Segment>, E: set<Segment>, north: map<Node, nat>, south: map<Node, nat>, m: nat)
    requires Swept(L, E, north, south) && 0 < m <= |L|
    ensures L[m - 1] in Members(L, m) && Members(L, m) - {L[m - 1]} == Members(L, m - 1)
  {
    forall i | 0 <= i < m - 1 ensures L[i] != L[m - 1] {
      assert Before(L[i], L[m - 1], north, south);
    }
  }

  /** Nothing later in a swept list crosses an earlier edge from the left. */
  lemma CrossersComeFirst(L: seq<Segment>, E: set<Segment>, north: map<Node, nat>, south: map<Node, nat>, n: nat)
    requires Swept(L, E, north, south) && n < |L|
    ensures CrossedBy(E, north, south, L[n]) == CrossedBy(Members(L, n), north, south, L[n])
  {
    var f := (e: Segment) => CrossWeight(north, south, e, L[n]);
    var before := Members(L, n);
    var rest := E - before;
    forall e | e in rest ensures f(e) == 0 {
      var i :| 0 <= i < |L| && L[i] == e;
      if i > n { assert Before(L[n], L[i], north, south); }
    }
    SumLinear(rest, f, 0, f, 0, f);
    forall e | e in before ensures e in E { var i :| 0 <= i < n && L[i] == e; }
    SumUnion(before, rest, f);
    SameSet(before + rest, E);
  }

  lemma {:induction false} InversionsAreCrossings(L: seq<Segment>, E: set<Segment>, north: map<Node, nat>,
                                                  south: map<Node, nat>, n: nat)
    requires Swept(L, E, north, south) && n <= |L|
    ensures Inversions(Entries(L, south), n) == Sum(Members(L, n), (f: Segment) => CrossedBy(E, north, south, f))
    decreases n
  {
    if n > 0 {
      var m := n - 1;
      InversionsAreCrossings(L, E, north, south, m);
      CrossingsOneMore(L, E, north, south, m, n);
    } else {
      var g := (f: Segment) => CrossedBy(E, north, south, f);
      SumLinear(Members(L, n), g, 0, g, 0, g);
    }
  }

  lemma CrossingsOneMore(L: seq<Segment>, E: set<Segment>, north: map<Node, nat>, south: map<Node, nat>, m: nat, n: nat)
    requires Swept(L, E, north, south) && n <= |L| && n == m + 1
    ensures Inversions(Entries(L, south), n) - Inversions(Entries(L, south), m)
         == Sum(Members(L, n), (f: Segment) => CrossedBy(E, north, south, f)) - Sum(Members(L, m),
           (f: Segment) => CrossedBy(E, north, south, f))
  {
    var g := (f: Segment) => CrossedBy(E, north, south, f);
    var es := Entries(L, south);
    AfterIsCrossing(L, E, north, south, m, m);
    CrossersComeFirst(L, E, north, south, m);
    MembersLessLast(L, E, north, south, n);
    SumPick(Members(L, n), g, L[m]);
    assert Inversions(es, n) == Inversions(es, m) + es[m].weight * WeightAfter(es, m, es[m].pos);
  }

  /** The out-edges of v sorted by where they end. */
  method SortBySouth(X: set<Segment>, v: Node, ghost north: map<Node, nat>, south: map<Node, nat>)
    returns (L: seq<Segment>)
    requires v in north && forall e :: e in X ==> e.v == v && e.w in south
    ensures Swept(L, X, north, south)
  {
    L := [];
    var todo := X;
    while todo != {}
      invariant todo <= X && (forall e :: e in L <==> e in X && e !in todo)
      invariant forall i, j :: 0 <= i < j < |L| ==> Before(L[i], L[j], north, south)
      invariant forall i, f :: 0 <= i < |L| && f in todo ==> south[L[i].w] <= south[f.w]
      decreases todo
    {
      var least :| least in todo;
      var rest := todo - {least};
      while rest != {}
        invariant rest <= todo && least in todo
        invariant forall e :: e in todo && e !in rest ==> south[least.w] <= south[e.w]
        decreases rest
      {
        var e :| e in rest;
        rest := rest - {e};
        if south[e.w] < south[least.w] { least := e; }
      }
      forall i | 0 <= i < |L| ensures Before(L[i], least, north, south) {
        assert L[i] in L;
      }
      todo := todo - {least};
      L := L + [least];
    }
  }

  lemma JoinSweeps(L: seq<Segment>, E: set<Segment>, M: seq<Segment>, X: set<Segment>, v: Node, north: map<Node, nat>,
                   south: map<Node, nat>)
    requires Swept(L, E, north, south) && Swept(M, X, north, south) && v in north
    requires (forall e :: e in X ==> e.v == v) && forall e :: e in E ==> north[e.v] < north[v]
    ensures Swept(L + M, E + X, north, south)
  {
    var LM := L + M;
    forall i, j | 0 <= i < j < |LM| ensures Before(LM[i], LM[j], north, south) {
      if i < |L| <= j {
        assert LM[i] in L && LM[j] in M;
      }
    }
  }

  /** The edges of E that start before place i of the layer. */
  ghost function StartBefore(E: set<Segment>, north: map<Node, nat>, i: nat): set<Segment> {
    set e | e in E && e.v in north && north[e.v] < i
  }

  method TwoLayerCrossCount(E: set<Segment>, northLayer: seq<Node>, southLayer: seq<Node>, ghost north: map<Node, nat>,
                            ghost south: map<Node, nat>)
    returns (cc: int)
    requires Positions(northLayer, north) && Positions(southLayer, south)
    requires forall e :: e in E ==> e.v in north && e.w in south
    ensures cc == Crossings(E, north, south)
  {
    var southPos: map<Node, nat> := map[];
    for i := 0 to |southLayer|
      invariant forall v :: v in southPos <==> v in south && south[v] < i
      invariant forall v :: v in southPos ==> southPos[v] == south[v]
    {
      southPos := southPos[southLayer[i] := i];
    }
    assert southPos == south;
    var L: seq<Segment> := [];
    ghost var seen: set<Segment> := {};
    for i := 0 to |northLayer|
      invariant seen == StartBefore(E, north, i)
      invariant Swept(L, seen, north, south)
    {
      var v := northLayer[i];
      var out := set e | e in E && e.v == v;
      var M := SortBySouth(out, v, north, southPos);
      JoinSweeps(L, seen, M, out, v, north, south);
      OneMoreStart(E, northLayer, north, i, seen, out);
      L := L + M;
      seen := seen + out;
    }
    SameSet(seen, E);
    cc := CountInversions(Entries(L, southPos), |southLayer|);
    SweepCounts(L, E, north, south);
  }

  lemma OneMoreStart(E: set<Segment>, northLayer: seq<Node>, north: map<Node, nat>, i: nat, seen: set<Segment>,
                     out: set<Segment>)
    requires Positions(northLayer, north) && i < |northLayer| && seen == StartBefore(E, north, i)
    requires out == set e | e in E && e.v == northLayer[i]
    ensures seen + out == StartBefore(E, north, i + 1)
  {
  }

  lemma SweepCounts(L: seq<Segment>, E: set<Segment>, north: map<Node, nat>, south: map<Node, nat>)
    requires Swept(L, E, north, south)
    ensures Inversions(Entries(L, south), |L|) == Crossings(E, north, south)
  {
    InversionsAreCrossings(L, E, north, south, |L|);
    forall e | e in E ensures e in Members(L, |L|) { var i :| 0 <= i < |L| && L[i] == e; }
    SameSet(Members(L, |L|), E);
  }

  // ----- all layers -----

  /** The crossings between layers i - 1 and i, added up over the first n layers. */
  ghost function LayerCrossings(E: seq<set<Segment>>, pos: seq<map<Node, nat>>, n: nat): int
    requires n <= |pos| && |E| == |pos|
  {
    if n <= 1 then 0 else LayerCrossings(E, pos, n - 1) + Crossings(E[n - 1], pos[n - 2], pos[n - 1])
  }

  /** E[i] holds the edges from layer i - 1 to layer i. */
  method CrossCount(E: seq<set<Segment>>, layering: seq<seq<Node>>, ghost pos: seq<map<Node, nat>>) returns (cc: int)
    requires |E| == |layering| == |pos|
    requires forall i :: 0 <= i < |layering| ==> Positions(layering[i], pos[i])
    requires forall i, e :: 1 <= i < |E| && e in E[i] ==> e.v in pos[i - 1] && e.w in pos[i]
    ensures cc == LayerCrossings(E, pos, |pos|)
  {
    cc := 0;
    var i := 1;
    while i < |layering|
      invariant 1 <= i && (i <= |layering| || |layering| == 0)
      invariant cc == if i <= |layering| then LayerCrossings(E, pos, i) else 0
    {
      var c := TwoLayerCrossCount(E[i], layering[i - 1], layering[i], pos[i - 1], pos[i]);
      cc := cc + c;
      i := i + 1;
    }
  }
}
