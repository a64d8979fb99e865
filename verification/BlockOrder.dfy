/** Blocks that do not cross can be ordered from left to right, so the block graph has no cycle. */
module BlockOrder {
  import opened Graphs
  import opened VerticalAlignment

  // ----- filling gaps in an increasing sequence -----

  /** The marked members of S have values, and these strictly grow along S. */
  ghost predicate Increasing(S: seq<Node>, marked: seq<bool>, ord: map<Node, real>) {
    && |marked| == |S|
    && (forall k :: 0 <= k < |S| && marked[k] ==> S[k] in ord)
    && (forall k, m :: 0 <= k < m < |S| && marked[k] && marked[m] ==> ord[S[k]] < ord[S[m]])
  }

  /** The last marked place before b, or -1. */
  ghost function LastBefore(marked: seq<bool>, b: nat): (c: int)
    requires b <= |marked|
    ensures -1 <= c < b && (c >= 0 ==> marked[c])
    ensures forall k :: c < k < b ==> !marked[k]
  {
    if b == 0 then -1 else if marked[b - 1] then b - 1 else LastBefore(marked, b - 1)
  }

  /** The first marked place from b on, or the end. */
  ghost function FirstFrom(marked: seq<bool>, b: nat): (c: nat)
    requires b <= |marked|
    ensures b <= c <= |marked| && (c < |marked| ==> marked[c])
    ensures forall k :: b <= k < c ==> !marked[k]
    decreases |marked| - b
  {
    if b == |marked| || marked[b] then b else FirstFrom(marked, b + 1)
  }

  /** An unmarked member fits in between its marked neighbours. */
  lemma FillGap(S: seq<Node>, marked: seq<bool>, ord: map<Node, real>, a: nat) returns (x: real)
    requires Increasing(S, marked, ord) && a < |S| && !marked[a]
    ensures forall k :: 0 <= k < a && marked[k] ==> ord[S[k]] < x
    ensures forall k :: a < k < |S| && marked[k] ==> x < ord[S[k]]
  {
    var c, d := LastBefore(marked, a), FirstFrom(marked, a);
    if c < 0 {
      x := if d < |S| then ord[S[d]] - 1.0 else 0.0;
    } else {
      x := if d < |S| then (ord[S[c]] + ord[S[d]]) / 2.0 else ord[S[c]] + 1.0;
    }
  }

  /** All unmarked members, new to ord, can be given values in between; the old values stay. */
  lemma {:induction false} FillGaps(S: seq<Node>, marked: seq<bool>, ord: map<Node, real>, a: nat)
    returns (ord': map<Node, real>)
    requires Increasing(S, marked, ord) && a <= |S|
    requires forall k, m :: 0 <= k < m < |S| ==> S[k] != S[m]
    requires forall k :: 0 <= k < a ==> marked[k]
    requires forall k :: 0 <= k < |S| && !marked[k] ==> S[k] !in ord
    ensures forall k :: 0 <= k < |S| ==> S[k] in ord'
    ensures forall k, m :: 0 <= k < m < |S| ==> ord'[S[k]] < ord'[S[m]]
    ensures forall y :: y in ord ==> y in ord' && ord'[y] == ord[y]
    decreases |S| - a
  {
    if a == |S| {
      ord' := ord;
    } else if marked[a] {
      ord' := FillGaps(S, marked, ord, a + 1);
    } else {
      var x := FillGap(S, marked, ord, a);
      ord' := FillGaps(S, marked[a := true], ord[S[a] := x], a + 1);
    }
  }

  // ----- the blocks -----

  /** ord strictly grows along every one of the first i layers, block by block. */
  ghost predicate Orders(L: Layering, root: map<Node, Node>, ord: map<Node, real>, i: nat) {
    i <= |L| && forall j {:trigger Grows(L[j], root, ord)} :: 0 <= j < i ==> Grows(L[j], root, ord)
  }

  ghost predicate Grows(layer: seq<Node>, root: map<Node, Node>, ord: map<Node, real>) {
    && (forall k :: 0 <= k < |layer| ==> layer[k] in root && root[layer[k]] in ord)
    && (forall k, m :: 0 <= k < m < |layer| ==> ord[root[layer[k]]] < ord[root[layer[m]]])
  }

  ghost function RootsAlong(layer: seq<Node>, root: map<Node, Node>): seq<Node>
    requires forall k :: 0 <= k < |layer| ==> layer[k] in root
  {
    seq(|layer|, k requires 0 <= k < |layer| => root[layer[k]])
  }

  ghost function Continuing(layer: seq<Node>, up: map<Node, Node>): seq<bool> {
    seq(|layer|, k requires 0 <= k < |layer| => layer[k] in up)
  }

  lemma UpIsAbove(al: Alignment, v: Node)
    requires al.Valid() && v in al.up
    ensures var w := al.up[v]; w in al.rank && v in al.rank && al.rank[w] + 1 == al.rank[v]
    ensures al.up[v] in al.root && v in al.root && al.root[v] == al.root[al.up[v]]
  {
    assert al.Linked(v);
  }

  lemma IsAtItsPlace(L: Layering, rank: map<Node, nat>, pos: map<Node, nat>, w: Node, i: nat)
    requires Placed(L, rank, pos) && w in rank && i == rank[w]
    ensures i < |L| && w in pos && pos[w] < |L[i]| && L[i][pos[w]] == w
  {
  }

  /** Blocks that reach layer i keep the order they have in the layer above. */
  lemma ContinuingIncrease(L: Layering, al: Alignment, ord: map<Node, real>, i: nat, v: Node, w: Node)
    requires i < |L| && Placed(L, al.rank, al.pos) && al.Valid() && Orders(L, al.root, ord, i)
    requires v in al.up && w in al.up && al.rank[v] == i && al.rank[w] == i && al.pos[v] < al.pos[w]
    ensures al.root[v] in ord && al.root[w] in ord && ord[al.root[v]] < ord[al.root[w]]
  {
    UpIsAbove(al, v);
    IsAtItsPlace(L, al.rank, al.pos, al.up[v], i - 1);
    UpIsAbove(al, w);
    IsAtItsPlace(L, al.rank, al.pos, al.up[w], i - 1);
    assert Grows(L[i - 1], al.root, ord);
  }

  lemma ContinuingOrdered(L: Layering, al: Alignment, ord: map<Node, real>, i: nat, v: Node)
    requires i < |L| && Placed(L, al.rank, al.pos) && al.Valid() && Orders(L, al.root, ord, i)
    requires v in al.up && al.rank[v] == i
    ensures al.root[v] in ord
  {
    UpIsAbove(al, v);
    IsAtItsPlace(L, al.rank, al.pos, al.up[v], i - 1);
    assert Grows(L[i - 1], al.root, ord);
  }

  ghost predicate OnlyRootsAbove(al: Alignment, ord: map<Node, real>, i: nat)
    requires al.Valid()
  {
    forall x :: x in ord ==> x in al.rank && al.rank[x] < i
  }

  lemma LayerIsIncreasing(L: Layering, al: Alignment, ord: map<Node, real>, i: nat)
    requires i < |L| && Placed(L, al.rank, al.pos) && al.Valid() && Orders(L, al.root, ord, i)
    ensures Increasing(RootsAlong(L[i], al.root), Continuing(L[i], al.up), ord)
  {
    var layer := L[i];
    forall k | 0 <= k < |layer| && layer[k] in al.up ensures al.root[layer[k]] in ord {
      ContinuingOrdered(L, al, ord, i, layer[k]);
    }
    forall k, m | 0 <= k < m < |layer| && layer[k] in al.up && layer[m] in al.up
      ensures ord[al.root[layer[k]]] < ord[al.root[layer[m]]]
    {
      ContinuingIncrease(L, al, ord, i, layer[k], layer[m]);
    }
  }

  lemma RootsAreDistinct(L: Layering, al: Alignment, i: nat)
    requires i < |L| && Placed(L, al.rank, al.pos) && al.Valid()
    ensures var S := RootsAlong(L[i], al.root); forall k, m :: 0 <= k < m < |S| ==> S[k] != S[m]
  {
    var layer := L[i];
    forall k, m | 0 <= k < m < |layer| ensures al.root[layer[k]] != al.root[layer[m]] {
      if al.root[layer[k]] == al.root[layer[m]] { al.OnePerLayer(layer[k], layer[m]); }
    }
  }

  /** The blocks of the first i layers have a left-to-right order that every layer agrees with. */
  lemma {:induction false} BlocksAreOrdered(L: Layering, al: Alignment, i: nat) returns (ord: map<Node, real>)
    requires Placed(L, al.rank, al.pos) && al.Valid() && i <= |L|
    ensures Orders(L, al.root, ord, i)
    decreases i
  {
    ord := map[];
    if i > 0 {
      var before := BlocksAreOrdered(L, al, i - 1);
      ord := AddLayer(L, al, before, i - 1, i);
    }
  }

  /** Blocks that start in layer i are new to the order. */
  lemma NewBlocksAreNew(L: Layering, al: Alignment, ord: map<Node, real>, i: nat)
    requires i < |L| && Placed(L, al.rank, al.pos) && al.Valid() && OnlyRootsAbove(al, ord, i)
    ensures var S, C := RootsAlong(L[i], al.root), Continuing(L[i], al.up);
      forall k :: 0 <= k < |S| && !C[k] ==> S[k] !in ord
  {
  }

  lemma AddLayer(L: Layering, al: Alignment, before: map<Node, real>, i: nat, next: nat) returns (ord: map<Node, real>)
    requires i < |L| && next == i + 1 && Placed(L, al.rank, al.pos) && al.Valid() && Orders(L, al.root, before, i)
    ensures Orders(L, al.root, ord, next)
  {
    var clean := map x | x in before && x in al.rank && al.rank[x] < i :: before[x];
    CleanOrders(L, al, before, clean, i);
    ord := FillLayer(L, al, clean, i);
    forall j | 0 <= j < next ensures Grows(L[j], al.root, ord) {
      if j < i {
        assert Grows(L[j], al.root, clean);
        GrowsStill(L[j], al.root, clean, ord);
      }
    }
  }

  lemma GrowsStill(layer: seq<Node>, root: map<Node, Node>, ord: map<Node, real>, ord': map<Node, real>)
    requires Grows(layer, root, ord) && forall y :: y in ord ==> y in ord' && ord'[y] == ord[y]
    ensures Grows(layer, root, ord')
  {
  }

  lemma FillLayer(L: Layering, al: Alignment, clean: map<Node, real>, i: nat) returns (ord: map<Node, real>)
    requires i < |L| && Placed(L, al.rank, al.pos) && al.Valid() && Orders(L, al.root, clean, i)
      && OnlyRootsAbove(al, clean, i)
    ensures Grows(L[i], al.root, ord) && forall y :: y in clean ==> y in ord && ord[y] == clean[y]
  {
    LayerIsIncreasing(L, al, clean, i);
    RootsAreDistinct(L, al, i);
    NewBlocksAreNew(L, al, clean, i);
    var S := RootsAlong(L[i], al.root);
    ord := FillGaps(S, Continuing(L[i], al.up), clean, 0);
    GrowsAlong(L[i], al.root, S, ord);
  }

  lemma GrowsAlong(layer: seq<Node>, root: map<Node, Node>, S: seq<Node>, ord: map<Node, real>)
    requires (forall k :: 0 <= k < |layer| ==> layer[k] in root) && S == RootsAlong(layer, root)
    requires forall k :: 0 <= k < |S| ==> S[k] in ord
    requires forall k, m :: 0 <= k < m < |S| ==> ord[S[k]] < ord[S[m]]
    ensures Grows(layer, root, ord)
  {
    assert forall k :: 0 <= k < |layer| ==> S[k] == root[layer[k]];
  }

  lemma CleanOrders(L: Layering, al: Alignment, before: map<Node, real>, clean: map<Node, real>, i: nat)
    requires i < |L| && Placed(L, al.rank, al.pos) && al.Valid() && Orders(L, al.root, before, i)
    requires clean == map x | x in before && x in al.rank && al.rank[x] < i :: before[x]
    ensures Orders(L, al.root, clean, i)
  {
    forall j | 0 <= j < i ensures Grows(L[j], al.root, clean) {
      assert Grows(L[j], al.root, before);
      forall k | 0 <= k < |L[j]| ensures al.root[L[j][k]] in clean {
        al.RootIsAbove(L[j][k]);
      }
    }
  }
}
