/** Brandes-Koepf vertical alignment: nodes are chained to median neighbours in the layer before, and
    the chains, called blocks, never cross. */
module VerticalAlignment {
  import opened Graphs
  import opened Sums

  type Layering = seq<seq<Node>>

  /** rank and pos give the layer of every node and its place there; so no node occurs twice. */
  ghost predicate Placed(L: Layering, rank: map<Node, nat>, pos: map<Node, nat>) {
    && rank.Keys == pos.Keys
    && (forall v :: v in rank ==> rank[v] < |L| && pos[v] < |L[rank[v]]| && L[rank[v]][pos[v]] == v)
    && (forall i, a :: 0 <= i < |L| && 0 <= a < |L[i]| ==> L[i][a] in rank && rank[L[i][a]] == i && pos[L[i][a]] == a)
  }

  /** All neighbours lie in the layer just before. */
  ghost predicate OneLayerUp(rank: map<Node, nat>, nbrs: map<Node, set<Node>>) {
    && nbrs.Keys == rank.Keys
    && (forall v {:trigger AllAbove(rank, nbrs[v], v)} :: v in nbrs ==> AllAbove(rank, nbrs[v], v))
  }

  ghost predicate AllAbove(rank: map<Node, nat>, X: set<Node>, v: Node) {
    v in rank && forall w :: w in X ==> w in rank && rank[w] + 1 == rank[v]
  }

  // ----- what an alignment is -----

  /** up chains each aligned node to the one above it; root and align are read off these chains. */
  datatype Alignment = Alignment(rank: map<Node, nat>, pos: map<Node, nat>, up: map<Node, Node>, root: map<Node, Node>,
                                 align: map<Node, Node>) {

    ghost predicate Valid() {
      && rank.Keys == pos.Keys == root.Keys == align.Keys && up.Keys <= rank.Keys
      && (forall v {:trigger Linked(v)} :: v in up ==> Linked(v))
      && (forall v :: v in rank && v !in up ==> root[v] == v)
      && (forall w {:trigger HasChild(w)} :: w in rank && !HasChild(w) ==> align[w] == root[w])
      && Uncrossed()
    }

    /** Some node is aligned with w from the layer below. */
    ghost predicate HasChild(w: Node) {
      exists c :: c in up && up[c] == w
    }

    ghost predicate Linked(v: Node)
      requires rank.Keys == root.Keys == align.Keys && v in up && v in rank
    {
      var w := up[v];
      w in rank && rank[w] + 1 == rank[v] && root[v] == root[w] && align[w] == v
    }

    /** Aligned nodes of one layer keep the order of the nodes they are aligned with. */
    ghost predicate Uncrossed()
      requires rank.Keys == pos.Keys && up.Keys <= rank.Keys
    {
      forall v, v' :: v in up && v' in up && rank[v] == rank[v'] && pos[v] < pos[v'] ==>
        up[v] in pos && up[v'] in pos && pos[up[v]] < pos[up[v']]
    }

    // ----- consequences: one cycle per block, one node per layer -----

    lemma {:induction false} RootIsAbove(v: Node)
      requires Valid() && v in rank
      ensures root[v] in rank && root[v] !in up && root[root[v]] == root[v]
      ensures if v in up then rank[root[v]] < rank[v] else root[v] == v
      decreases rank[v]
    {
      if v in up {
        assert Linked(v);
        RootIsAbove(up[v]);
      }
    }

    /** A block has at most one node in any layer. */
    lemma {:induction false} OnePerLayer(v: Node, w: Node)
      requires Valid() && v in rank && w in rank
      requires root[v] == root[w] && rank[v] == rank[w]
      ensures v == w
      decreases rank[v]
    {
      RootIsAbove(v);
      RootIsAbove(w);
      if v in up && w in up {
        assert Linked(v) && Linked(w);
        OnePerLayer(up[v], up[w]);
      }
    }

    /** align maps distinct nodes to distinct nodes, and stays within a block. */
    lemma AlignIsInjective(v: Node, w: Node)
      requires Valid() && v in rank && w in rank && align[v] == align[w]
      ensures v == w
    {
      AlignStaysInBlock(v);
      AlignStaysInBlock(w);
      if !HasChild(v) && !HasChild(w) {
        if rank[v] < rank[w] {
          BottomIsLast(v, w);
        } else if rank[w] < rank[v] {
          BottomIsLast(w, v);
        } else {
          OnePerLayer(v, w);
        }
      }
    }

    /** The node after v around its block is the one below it, or the root when v is the lowest. */
    lemma AlignStaysInBlock(v: Node)
      requires Valid() && v in rank
      ensures align[v] in rank && root[align[v]] == root[v]
      ensures if HasChild(v) then align[v] in up && up[align[v]] == v else align[v] == root[v] && align[v] !in up
    {
      RootIsAbove(v);
      if HasChild(v) {
        var c :| c in up && up[c] == v;
        assert Linked(c);
      }
    }

    /** Below any node but the lowest of a block there is another, one layer down. */
    lemma {:induction false} BottomIsLast(v: Node, w: Node)
      requires Valid() && v in rank && w in rank && root[v] == root[w] && rank[v] < rank[w]
      ensures HasChild(v)
      decreases rank[w]
    {
      RootIsAbove(v);
      RootIsAbove(w);
      assert w in up;
      assert Linked(w);
      if rank[v] + 1 == rank[w] {
        OnePerLayer(v, up[w]);
      } else {
        BottomIsLast(v, up[w]);
      }
    }

    /** Every node is the align value of some node of its block. */
    lemma {:induction false} AlignReaches(v: Node, height: nat) returns (w: Node)
      requires Valid() && v in rank
      requires forall x :: x in rank ==> rank[x] < height
      ensures w in rank && align[w] == v
    {
      if v in up {
        assert Linked(v);
        w := up[v];
      } else {
        w := LowestBelow(v, height);
      }
    }

    lemma {:induction false} LowestBelow(v: Node, height: nat) returns (w: Node)
      requires Valid() && v in rank
      requires forall x :: x in rank ==> rank[x] < height
      ensures w in rank && !HasChild(w) && root[w] == root[v]
      decreases height - rank[v]
    {
      w := v;
      if HasChild(v) {
        var c :| c in up && up[c] == v;
        assert Linked(c);
        w := LowestBelow(c, height);
      }
    }
  }

  // ----- the algorithm -----

  function HasConflict(conflicts: set<Pair>, v: Node, w: Node): bool {
    Und(v, w) in conflicts
  }

  ghost predicate SortedByPos(pos: map<Node, nat>, X: set<Node>, ws: seq<Node>) {
    && (forall w :: w in ws <==> w in X)
    && (forall w :: w in X ==> w in pos)
    && (forall i, j :: 0 <= i < j < |ws| ==> pos[ws[i]] < pos[ws[j]])
  }

  method SortByPos(pos: map<Node, nat>, X: set<Node>) returns (ws: seq<Node>)
    requires X <= pos.Keys
    requires forall v, w :: v in X && w in X && pos[v] == pos[w] ==> v == w
    ensures SortedByPos(pos, X, ws)
  {
    ws := [];
    var todo := X;
    while todo != {}
      invariant todo <= X && SortedByPos(pos, X - todo, ws)
      invariant forall v, w :: v in ws && w in todo ==> pos[v] < pos[w]
      decreases todo
    {
      var least :| least in todo;
      var rest := todo - {least};
      while rest != {}
        invariant rest <= todo && least in todo
        invariant forall w :: w in todo - rest ==> pos[least] <= pos[w]
        decreases rest
      {
        var w :| w in rest;
        rest := rest - {w};
        if pos[w] < pos[least] { least := w; }
      }
      TakeOne(X, todo, least);
      todo := todo - {least};
      ws := ws + [least];
    }
    assert X - todo == X;
  }

  /** The lower and the upper median of X: the members with that many others before them. */
  ghost function Medians(pos: map<Node, nat>, X: set<Node>): set<Node>
    requires X <= pos.Keys
  {
    set w | w in X && (|Before(pos, X, w)| == (|X| - 1) / 2 || |Before(pos, X, w)| == |X| / 2)
  }

  ghost function Before(pos: map<Node, nat>, X: set<Node>, w: Node): set<Node>
    requires X <= pos.Keys && w in X
  {
    set x | x in X && pos[x] < pos[w]
  }

  lemma {:induction false} SortedSize(pos: map<Node, nat>, X: set<Node>, ws: seq<Node>)
    requires SortedByPos(pos, X, ws)
    ensures |X| == |ws|
    decreases |ws|
  {
    if ws == [] {
      assert X == {};
    } else {
      var last := ws[|ws| - 1];
      var rest := ws[..|ws| - 1];
      forall w | w in X - {last} ensures w in rest {
        var k :| 0 <= k < |ws| && ws[k] == w;
        assert rest[k] == w;
      }
      forall w | w in rest ensures w in X - {last} {
        var k :| 0 <= k < |rest| && rest[k] == w;
      }
      SortedSize(pos, X - {last}, rest);
    }
  }

  /** In sorted order the index of a member counts the members before it. */
  lemma IndexCountsBefore(pos: map<Node, nat>, X: set<Node>, ws: seq<Node>, i: nat)
    requires SortedByPos(pos, X, ws) && i < |ws|
    ensures |X| == |ws| && ws[i] in X && |Before(pos, X, ws[i])| == i
  {
    SortedSize(pos, X, ws);
    var before := Before(pos, X, ws[i]);
    forall w | w in before ensures w in ws[..i] {
      var k :| 0 <= k < |ws| && ws[k] == w;
      assert k < i;
    }
    forall w | w in ws[..i] ensures w in before {
      var k :| 0 <= k < i && ws[k] == w;
    }
    SortedSize(pos, before, ws[..i]);
  }

  /** v may not be aligned with w: the pair is in conflict, or an earlier node of v's layer is aligned
      with w or with a node after it. */
  ghost predicate Blocked(al: Alignment, conflicts: set<Pair>, v: Node, w: Node)
    requires al.Valid() && v in al.rank && w in al.rank
  {
    HasConflict(conflicts, v, w) || exists u {:trigger Obstructs(al, u, v, w)} :: u in al.up && Obstructs(al, u, v, w)
  }

  ghost predicate Obstructs(al: Alignment, u: Node, v: Node, w: Node)
    requires al.Valid() && u in al.up && v in al.rank && w in al.rank
  {
    assert al.Linked(u);
    al.rank[u] == al.rank[v] && al.pos[u] < al.pos[v] && al.pos[w] <= al.pos[al.up[u]]
  }

  /** Of the medians M of its neighbours, v is aligned with the first that is not blocked, if any. */
  ghost predicate Chosen(al: Alignment, M: set<Node>, conflicts: set<Pair>, v: Node)
    requires al.Valid() && AllAbove(al.rank, M, v)
  {
    && (v in al.up ==> al.up[v] in M && !Blocked(al, conflicts, v, al.up[v]))
    && (forall w {:trigger PassedOver(al, conflicts, v, w)} :: w in M ==> PassedOver(al, conflicts, v, w))
  }

  /** If w comes before the node v is aligned with, there is a reason not to align v with w. */
  ghost predicate PassedOver(al: Alignment, conflicts: set<Pair>, v: Node, w: Node)
    requires al.Valid() && v in al.rank && w in al.rank
  {
    (v in al.up ==> al.up[v] in al.pos && al.pos[w] < al.pos[al.up[v]]) ==> Blocked(al, conflicts, v, w)
  }

  /** The alignment after v has been chained to w. */
  ghost function Link(al: Alignment, v: Node, w: Node): Alignment
    requires v in al.root && w in al.root
  {
    Alignment(al.rank, al.pos, al.up[v := w], al.root[v := al.root[w]], al.align[w := v][v := al.root[w]])
  }

  ghost predicate MayLink(al: Alignment, v: Node, w: Node)
    requires al.Valid()
  {
    && v in al.rank && w in al.rank && al.rank[w] + 1 == al.rank[v]
    && v !in al.up && !al.HasChild(v) && !al.HasChild(w)
    && (forall u :: u in al.up && al.rank[u] == al.rank[v] ==> LeftOf(al, u, v, w))
  }

  ghost predicate LeftOf(al: Alignment, u: Node, v: Node, w: Node)
    requires al.Valid() && u in al.up && v in al.rank && w in al.rank
  {
    al.up[u] in al.pos && al.pos[u] < al.pos[v] && al.pos[al.up[u]] < al.pos[w]
  }

  lemma LinkChildren(al: Alignment, v: Node, w: Node, x: Node)
    requires v in al.root && w in al.root && v !in al.up
    ensures Link(al, v, w).HasChild(x) <==> al.HasChild(x) || x == w
  {
    var al' := Link(al, v, w);
    if c :| c in al.up && al.up[c] == x {
      assert c in al'.up && al'.up[c] == x;
    } else if x == w {
      assert v in al'.up && al'.up[v] == x;
    }
  }

  lemma LinkKeepsLinked(al: Alignment, v: Node, w: Node, x: Node)
    requires al.Valid() && MayLink(al, v, w) && x in al.up[v := w]
    ensures Link(al, v, w).Linked(x)
  {
    if x != v {
      assert al.Linked(x);
      assert al.HasChild(al.up[x]);
    }
  }

  lemma LinkKeepsUncrossed(al: Alignment, v: Node, w: Node)
    requires al.Valid() && MayLink(al, v, w)
    ensures Link(al, v, w).up.Keys <= al.rank.Keys && Link(al, v, w).Uncrossed()
  {
    var al' := Link(al, v, w);
    forall x, y | x in al'.up && y in al'.up && al.rank[x] == al.rank[y] && al.pos[x] < al.pos[y]
      ensures al'.up[x] in al.pos && al'.up[y] in al.pos && al.pos[al'.up[x]] < al.pos[al'.up[y]]
    {
      if y == v {
        assert LeftOf(al, x, v, w);
      } else {
        assert LeftOf(al, y, v, w) || x != v;
      }
    }
  }

  lemma LinkKeepsAligned(al: Alignment, v: Node, w: Node, x: Node)
    requires al.Valid() && MayLink(al, v, w) && x in al.rank && !al.HasChild(x) && x != w
    ensures Link(al, v, w).align[x] == Link(al, v, w).root[x]
  {
  }

  lemma LinkKeepsAllLinked(al: Alignment, v: Node, w: Node)
    requires al.Valid() && MayLink(al, v, w)
    ensures var al' := Link(al, v, w);
      al'.root.Keys == al'.align.Keys == al.rank.Keys && al'.up.Keys <= al.rank.Keys
        && forall x {:trigger al'.Linked(x)} :: x in al'.up ==> al'.Linked(x)
  {
    forall x | x in Link(al, v, w).up ensures Link(al, v, w).Linked(x) {
      LinkKeepsLinked(al, v, w, x);
    }
  }

  lemma LinkKeepsAllAligned(al: Alignment, v: Node, w: Node)
    requires al.Valid() && MayLink(al, v, w)
    ensures var al' := Link(al, v, w);
      forall x {:trigger al'.HasChild(x)} :: x in al.rank && !al'.HasChild(x) ==> al'.align[x] == al'.root[x]
  {
    forall x | x in al.rank && !Link(al, v, w).HasChild(x) ensures Link(al, v, w).align[x] == Link(al, v, w).root[x] {
      LinkChildren(al, v, w, x);
      LinkKeepsAligned(al, v, w, x);
    }
  }

  lemma LinkKeepsBlocks(al: Alignment, v: Node, w: Node)
    requires al.Valid() && MayLink(al, v, w)
    ensures Link(al, v, w).Valid()
  {
    LinkKeepsUncrossed(al, v, w);
    LinkKeepsAllLinked(al, v, w);
    LinkKeepsAllAligned(al, v, w);
  }

  // ----- one node -----

  ghost predicate IsChosen(al: Alignment, med: map<Node, set<Node>>, conflicts: set<Pair>, v: Node)
    requires al.Valid()
  {
    v in med && AllAbove(al.rank, med[v], v) && Chosen(al, med[v], conflicts, v)
  }

  ghost predicate Earlier(al: Alignment, v: Node, i: nat, a: nat)
    requires v in al.rank && v in al.pos
  {
    al.rank[v] < i || (al.rank[v] == i && al.pos[v] < a)
  }

  /** Exactly the nodes before place a of layer i have been treated. */
  ghost predicate AlignedUpTo(al: Alignment, med: map<Node, set<Node>>, conflicts: set<Pair>, i: nat, a: nat) {
    && al.Valid() && OneLayerUp(al.rank, med)
    && (forall v :: v in al.up ==> Earlier(al, v, i, a))
    && (forall v {:trigger IsChosen(al, med, conflicts, v)} :: v in al.rank && Earlier(al, v, i, a) ==>
        IsChosen(al, med, conflicts, v))
  }

  /** prevIdx is the place of the last node that layer i is aligned with so far, or -1. */
  ghost predicate PrevIs(al: Alignment, i: nat, prevIdx: int)
    requires al.Valid()
  {
    && prevIdx >= -1
    && (forall u :: u in al.up && al.rank[u] == i ==> al.up[u] in al.pos && al.pos[al.up[u]] <= prevIdx)
    && (prevIdx >= 0 ==> exists u :: u in al.up && al.rank[u] == i && al.up[u] in al.pos && al.pos[al.up[u]] == prevIdx)
  }

  lemma PrevDecides(al: Alignment, med: map<Node, set<Node>>, conflicts: set<Pair>, i: nat, a: nat, prevIdx: int,
                    v: Node, w: Node)
    requires AlignedUpTo(al, med, conflicts, i, a) && PrevIs(al, i, prevIdx)
    requires v in al.rank && al.rank[v] == i && al.pos[v] == a && w in al.rank
    ensures Blocked(al, conflicts, v, w) <==> !(prevIdx < al.pos[w] && !HasConflict(conflicts, v, w))
  {
    if prevIdx >= al.pos[w] {
      var u :| u in al.up && al.rank[u] == i && al.up[u] in al.pos && al.pos[al.up[u]] == prevIdx;
      assert Obstructs(al, u, v, w);
    }
  }

  lemma UntreatedIsFree(al: Alignment, med: map<Node, set<Node>>, conflicts: set<Pair>, i: nat, a: nat, v: Node)
    requires AlignedUpTo(al, med, conflicts, i, a) && v in al.rank && al.rank[v] == i && al.pos[v] == a
    ensures v !in al.up && !al.HasChild(v) && al.align[v] == v && al.root[v] == v
  {
    forall c | c in al.up ensures al.up[c] != v {
      assert al.Linked(c);
    }
    assert !al.HasChild(v);
  }

  lemma UnblockedMayLink(al: Alignment, med: map<Node, set<Node>>, conflicts: set<Pair>, i: nat, a: nat, prevIdx: int,
                         v: Node, w: Node)
    requires AlignedUpTo(al, med, conflicts, i, a) && PrevIs(al, i, prevIdx)
    requires v in med && AllAbove(al.rank, med[v], v) && al.rank[v] == i && al.pos[v] == a && w in med[v]
      && !Blocked(al, conflicts, v, w)
    ensures MayLink(al, v, w)
  {
    UntreatedIsFree(al, med, conflicts, i, a, v);
    PrevDecides(al, med, conflicts, i, a, prevIdx, v, w);
    forall u | u in al.up && al.rank[u] == al.rank[v] ensures LeftOf(al, u, v, w) {
      assert Earlier(al, u, i, a);
    }
    forall c | c in al.up ensures al.up[c] != w {
      assert al.Linked(c);
      assert al.rank[c] == al.rank[v] ==> LeftOf(al, c, v, w);
    }
  }

  /** Chaining v leaves what was decided for earlier nodes as it was. */
  lemma LinkKeepsBlocked(al: Alignment, conflicts: set<Pair>, v: Node, w: Node, x: Node, m: Node)
    requires al.Valid() && MayLink(al, v, w) && Link(al, v, w).Valid() && x in al.rank && m in al.rank
    requires al.rank[x] != al.rank[v] || al.pos[x] <= al.pos[v]
    ensures Blocked(Link(al, v, w), conflicts, x, m) <==> Blocked(al, conflicts, x, m)
  {
    var al' := Link(al, v, w);
    if u :| u in al.up && Obstructs(al, u, x, m) {
      assert u in al'.up && Obstructs(al', u, x, m);
    }
    if u :| u in al'.up && Obstructs(al', u, x, m) {
      assert u in al.up && Obstructs(al, u, x, m);
    }
  }

  lemma LinkKeepsPassed(al: Alignment, conflicts: set<Pair>, v: Node, w: Node, x: Node, m: Node)
    requires al.Valid() && MayLink(al, v, w) && Link(al, v, w).Valid()
    requires x in al.rank && x != v && (al.rank[x] != al.rank[v] || al.pos[x] <= al.pos[v])
    requires m in al.rank && PassedOver(al, conflicts, x, m)
    ensures PassedOver(Link(al, v, w), conflicts, x, m)
  {
    LinkKeepsBlocked(al, conflicts, v, w, x, m);
  }

  lemma LinkKeepsChosen(al: Alignment, M: set<Node>, conflicts: set<Pair>, v: Node, w: Node, x: Node)
    requires al.Valid() && MayLink(al, v, w) && Link(al, v, w).Valid() && AllAbove(al.rank, M, x)
    requires x != v && (al.rank[x] != al.rank[v] || al.pos[x] <= al.pos[v])
    requires Chosen(al, M, conflicts, x)
    ensures Chosen(Link(al, v, w), M, conflicts, x)
  {
    if x in al.up { LinkKeepsBlocked(al, conflicts, v, w, x, al.up[x]); }
    forall m | m in M ensures PassedOver(Link(al, v, w), conflicts, x, m) {
      assert PassedOver(al, conflicts, x, m);
      LinkKeepsPassed(al, conflicts, v, w, x, m);
    }
  }

  /** The medians of X are the one or two middle elements of its sorted sequence. */
  lemma MediansAreMiddle(pos: map<Node, nat>, X: set<Node>, ws: seq<Node>)
    requires SortedByPos(pos, X, ws)
    ensures Medians(pos, X) == if ws == [] then {} else {ws[(|ws| - 1) / 2], ws[|ws| / 2]}
  {
    SortedSize(pos, X, ws);
    forall w | w in Medians(pos, X) ensures ws != [] && (w == ws[(|ws| - 1) / 2] || w == ws[|ws| / 2]) {
      var k :| 0 <= k < |ws| && ws[k] == w;
      IndexCountsBefore(pos, X, ws, k);
    }
    if ws != [] {
      IndexCountsBefore(pos, X, ws, (|ws| - 1) / 2);
      IndexCountsBefore(pos, X, ws, |ws| / 2);
    }
  }

  /** What the loop over the medians of v has done after looking at those below index k: nothing, or
      chained v to the one at index hit. */
  ghost predicate Tried(al: Alignment, al': Alignment, conflicts: set<Pair>, v: Node, ws: seq<Node>, lo: nat, k: nat,
                        hit: int)
    requires al.Valid() && v in al.rank && (forall w :: w in ws ==> w in al.rank) && k <= |ws|
  {
    && (hit == -1 || lo <= hit < k)
    && (forall m :: lo <= m < (if hit == -1 then k else hit) ==> Blocked(al, conflicts, v, ws[m]))
    && (if hit == -1 then al' == al else !Blocked(al, conflicts, v, ws[hit]) && al' == Link(al, v, ws[hit]))
  }

  /** No median was free: v stays alone. */
  lemma TriedInVain(al: Alignment, M: set<Node>, conflicts: set<Pair>, v: Node)
    requires al.Valid() && AllAbove(al.rank, M, v) && v !in al.up
    requires forall w :: w in M ==> Blocked(al, conflicts, v, w)
    ensures Chosen(al, M, conflicts, v)
  {
  }

  /** v took the first free one of the medians. */
  lemma TriedAndFound(al: Alignment, M: set<Node>, conflicts: set<Pair>, v: Node, m: Node)
    requires al.Valid() && AllAbove(al.rank, M, v) && m in M && !Blocked(al, conflicts, v, m) && MayLink(al, v, m)
    requires forall w :: w in M && al.pos[w] < al.pos[m] ==> Blocked(al, conflicts, v, w)
    ensures Link(al, v, m).Valid() && Chosen(Link(al, v, m), M, conflicts, v)
  {
    LinkKeepsBlocks(al, v, m);
    LinkKeepsBlocked(al, conflicts, v, m, v, m);
    forall w | w in M ensures PassedOver(Link(al, v, m), conflicts, v, w) {
      LinkKeepsBlocked(al, conflicts, v, m, v, w);
    }
  }

  /** The state of the layer once node v is treated. */
  ghost predicate Treated(al: Alignment, al': Alignment, M: set<Node>, conflicts: set<Pair>, v: Node)
    requires al.Valid() && AllAbove(al.rank, M, v)
  {
    && al'.Valid() && al'.rank == al.rank && al'.pos == al.pos && Chosen(al', M, conflicts, v)
    && (al' == al || exists w :: LinkedFrom(al, al', v, w))
  }

  ghost predicate LinkedFrom(al: Alignment, al': Alignment, v: Node, w: Node)
    requires al.Valid()
  {
    MayLink(al, v, w) && al' == Link(al, v, w)
  }

  lemma TriedOneMore(al: Alignment, al': Alignment, conflicts: set<Pair>, v: Node, ws: seq<Node>, lo: nat, k: nat,
                     hit: int)
    requires al.Valid() && v in al.rank && (forall w :: w in ws ==> w in al.rank) && lo <= k < |ws|
    requires Tried(al, al', conflicts, v, ws, lo, k, hit)
    ensures hit != -1 || Blocked(al, conflicts, v, ws[k]) ==> Tried(al, al', conflicts, v, ws, lo, k + 1, hit)
    ensures hit == -1 && !Blocked(al, conflicts, v, ws[k]) ==>
      Tried(al, Link(al, v, ws[k]), conflicts, v, ws, lo, k + 1, k)
  {
  }

  lemma StaysChosen(al: Alignment, al': Alignment, med: map<Node, set<Node>>, conflicts: set<Pair>, v: Node, x: Node)
    requires al.Valid() && v in med && AllAbove(al.rank, med[v], v) && Treated(al, al', med[v], conflicts, v)
    requires x in al.rank && IsChosen(al, med, conflicts, x)
    requires x != v && (al.rank[x] != al.rank[v] || al.pos[x] <= al.pos[v])
    ensures IsChosen(al', med, conflicts, x)
  {
    if al' != al {
      var w :| LinkedFrom(al, al', v, w);
      LinkKeepsChosen(al, med[x], conflicts, v, w, x);
    }
  }

  lemma TreatedOneMore(al: Alignment, al': Alignment, med: map<Node, set<Node>>, conflicts: set<Pair>, i: nat, a: nat,
                       v: Node, a': nat)
    requires AlignedUpTo(al, med, conflicts, i, a) && a' == a + 1
    requires v in med && AllAbove(al.rank, med[v], v) && al.rank[v] == i && al.pos[v] == a
    requires forall x :: x in al.rank && al.rank[x] == i && al.pos[x] == a ==> x == v
    requires Treated(al, al', med[v], conflicts, v)
    ensures AlignedUpTo(al', med, conflicts, i, a')
  {
    forall x | x in al'.up ensures Earlier(al', x, i, a') {
      assert x in al.up ==> Earlier(al, x, i, a);
    }
    forall x | x in al.rank && Earlier(al', x, i, a') ensures IsChosen(al', med, conflicts, x) {
      if x != v {
        assert Earlier(al, x, i, a) && IsChosen(al, med, conflicts, x);
        StaysChosen(al, al', med, conflicts, v, x);
      }
    }
  }

  /** v, and what is known of its neighbours ws and their medians med[v], when its turn comes. */
  ghost predicate Turn(al: Alignment, med: map<Node, set<Node>>, i: nat, a: nat, v: Node, ws: seq<Node>) {
    && v in med && v in al.rank && al.rank[v] == i && v in al.pos && al.pos[v] == a
    && (forall x :: x in al.rank && x in al.pos && al.rank[x] == i && al.pos[x] == a ==> x == v)
    && (forall w :: w in ws ==> w in al.rank && w in al.pos && al.rank[w] + 1 == i)
    && (forall k, m :: 0 <= k < m < |ws| ==> al.pos[ws[k]] < al.pos[ws[m]])
    && med[v] == if ws == [] then {} else {ws[(|ws| - 1) / 2], ws[|ws| / 2]}
  }

  lemma FinishMiss(al: Alignment, med: map<Node, set<Node>>, conflicts: set<Pair>, i: nat, a: nat, v: Node,
                   ws: seq<Node>)
    requires AlignedUpTo(al, med, conflicts, i, a) && Turn(al, med, i, a, v, ws)
    requires ws != [] ==> Tried(al, al, conflicts, v, ws, (|ws| - 1) / 2, |ws| / 2 + 1, -1)
    ensures AlignedUpTo(al, med, conflicts, i, a + 1)
  {
    UntreatedIsFree(al, med, conflicts, i, a, v);
    TriedInVain(al, med[v], conflicts, v);
    TreatedOneMore(al, al, med, conflicts, i, a, v, a + 1);
  }

  lemma FirstHit(al: Alignment, conflicts: set<Pair>, v: Node, ws: seq<Node>, hit: nat, M: set<Node>)
    requires al.Valid() && v in al.rank && (forall w :: w in ws ==> w in al.rank) && hit < |ws|
    requires Tried(al, Link(al, v, ws[hit]), conflicts, v, ws, (|ws| - 1) / 2, |ws| / 2 + 1, hit)
    requires M == {ws[(|ws| - 1) / 2], ws[|ws| / 2]}
      && forall k, m :: 0 <= k < m < |ws| ==> al.pos[ws[k]] < al.pos[ws[m]]
    ensures ws[hit] in M && !Blocked(al, conflicts, v, ws[hit])
    ensures forall w :: w in M && al.pos[w] < al.pos[ws[hit]] ==> Blocked(al, conflicts, v, w)
  {
    var lo, hi := (|ws| - 1) / 2, |ws| / 2;
    assert hit == lo || hit == hi;
    assert Blocked(al, conflicts, v, ws[lo]) || hit == lo;
    assert hit == lo ==> al.pos[ws[lo]] <= al.pos[ws[hi]];
  }

  lemma FinishHit(al: Alignment, med: map<Node, set<Node>>, conflicts: set<Pair>, i: nat, a: nat, prevIdx: int, v: Node,
                  ws: seq<Node>, hit: nat)
    requires AlignedUpTo(al, med, conflicts, i, a) && PrevIs(al, i, prevIdx) && Turn(al, med, i, a, v, ws)
    requires hit < |ws| && Tried(al, Link(al, v, ws[hit]), conflicts, v, ws, (|ws| - 1) / 2, |ws| / 2 + 1, hit)
    ensures AlignedUpTo(Link(al, v, ws[hit]), med, conflicts, i, a + 1)
    ensures PrevIs(Link(al, v, ws[hit]), i, al.pos[ws[hit]])
  {
    var m, M := ws[hit], med[v];
    FirstHit(al, conflicts, v, ws, hit, M);
    UnblockedMayLink(al, med, conflicts, i, a, prevIdx, v, m);
    TriedAndFound(al, M, conflicts, v, m);
    LinkMovesPrev(al, i, prevIdx, v, m);
    assert LinkedFrom(al, Link(al, v, m), v, m);
    TreatedOneMore(al, Link(al, v, m), med, conflicts, i, a, v, a + 1);
  }

  ghost predicate NodeDone(al: Alignment, al': Alignment, med: map<Node, set<Node>>, conflicts: set<Pair>, i: nat,
                           a: nat, prevIdx: int) {
    && al'.rank == al.rank && al'.pos == al.pos
    && AlignedUpTo(al', med, conflicts, i, a) && PrevIs(al', i, prevIdx)
  }

  lemma FinishNode(al: Alignment, al': Alignment, med: map<Node, set<Node>>, conflicts: set<Pair>, i: nat, a: nat,
                   prevIdx: int, v: Node, ws: seq<Node>, hit: int, prevIdx': int)
    requires AlignedUpTo(al, med, conflicts, i, a) && PrevIs(al, i, prevIdx) && Turn(al, med, i, a, v, ws)
    requires if ws == [] then al' == al && hit == -1
      else Tried(al, al', conflicts, v, ws, (|ws| - 1) / 2, |ws| / 2 + 1, hit)
    requires prevIdx' == if hit == -1 then prevIdx else al.pos[ws[hit]]
    ensures NodeDone(al, al', med, conflicts, i, a + 1, prevIdx')
  {
    if hit == -1 {
      FinishMiss(al, med, conflicts, i, a, v, ws);
    } else {
      FinishHit(al, med, conflicts, i, a, prevIdx, v, ws, hit);
    }
  }

  /** The loop over the medians of v. */
  method TryMedians(conflicts: set<Pair>, pos: map<Node, nat>, v: Node, ws: seq<Node>, ghost al: Alignment,
                    ghost med: map<Node, set<Node>>, ghost i: nat,
                    root: map<Node, Node>, align: map<Node, Node>, prevIdx: int)
    returns (ghost al': Alignment, ghost hit: int, root': map<Node, Node>, align': map<Node, Node>, prevIdx': int)
    requires v in pos && AlignedUpTo(al, med, conflicts, i, pos[v]) && PrevIs(al, i, prevIdx) && ws != []
    requires al.pos == pos && al.root == root && al.align == align && v in al.rank && al.rank[v] == i
    requires forall w :: w in ws ==> w in al.rank && al.rank[w] + 1 == i
    ensures Tried(al, al', conflicts, v, ws, (|ws| - 1) / 2, |ws| / 2 + 1, hit)
    ensures al'.root == root' && al'.align == align' && prevIdx' == if hit == -1 then prevIdx else pos[ws[hit]]
  {
    al', hit, root', align', prevIdx' := al, -1, root, align, prevIdx;
    UntreatedIsFree(al, med, conflicts, i, pos[v], v);
    for k := (|ws| - 1) / 2 to |ws| / 2 + 1
      invariant Tried(al, al', conflicts, v, ws, (|ws| - 1) / 2, k, hit)
      invariant al'.root == root' && al'.align == align'
      invariant prevIdx' == if hit == -1 then prevIdx else pos[ws[hit]]
      invariant hit == -1 <==> align'[v] == v
    {
      var w := ws[k];
      PrevDecides(al, med, conflicts, i, pos[v], prevIdx, v, w);
      LinkedIsNotSelf(al, v, w);
      TriedOneMore(al, al', conflicts, v, ws, (|ws| - 1) / 2, k, hit);
      if align'[v] == v && prevIdx' < pos[w] && !HasConflict(conflicts, v, w) {
        align' := align'[w := v];
        root' := root'[v := root'[w]];
        align' := align'[v := root'[v]];
        prevIdx' := pos[w];
        hit := k;
        al' := Link(al, v, w);
      }
    }
  }

  method AlignWithMedian(conflicts: set<Pair>, pos: map<Node, nat>, v: Node, ws: seq<Node>, ghost al: Alignment,
                         ghost med: map<Node, set<Node>>, ghost i: nat, ghost a: nat,
                         root: map<Node, Node>, align: map<Node, Node>, prevIdx: int)
    returns (ghost al': Alignment, root': map<Node, Node>, align': map<Node, Node>, prevIdx': int)
    requires v in pos && pos[v] == a && AlignedUpTo(al, med, conflicts, i, a) && PrevIs(al, i, prevIdx) && ws != []
    requires al.pos == pos && al.root == root && al.align == align && Turn(al, med, i, a, v, ws)
    ensures NodeDone(al, al', med, conflicts, i, a + 1, prevIdx')
    ensures al'.root == root' && al'.align == align'
  {
    ghost var hit;
    al', hit, root', align', prevIdx' := TryMedians(conflicts, pos, v, ws, al, med, i, root, align, prevIdx);
    FinishNode(al, al', med, conflicts, i, a, prevIdx, v, ws, hit, prevIdx');
  }

  /** Two nodes of one layer have different places. */
  ghost predicate OnePerPlace(rank: map<Node, nat>, pos: map<Node, nat>)
    requires rank.Keys == pos.Keys
  {
    forall x, y {:trigger SamePlace(rank, pos, x, y)} :: SamePlace(rank, pos, x, y) ==> x == y
  }

  ghost predicate SamePlace(rank: map<Node, nat>, pos: map<Node, nat>, x: Node, y: Node)
    requires rank.Keys == pos.Keys
  {
    x in rank && y in rank && rank[x] == rank[y] && pos[x] == pos[y]
  }

  lemma NeighborsHaveOwnPlaces(rank: map<Node, nat>, pos: map<Node, nat>, X: set<Node>, v: Node)
    requires rank.Keys == pos.Keys && OnePerPlace(rank, pos) && AllAbove(rank, X, v)
    ensures X <= pos.Keys && forall x, y :: x in X && y in X && pos[x] == pos[y] ==> x == y
    ensures forall x :: x in rank && x in pos && rank[x] == rank[v] && pos[x] == pos[v] ==> x == v
  {
    forall x, y | x in X && y in X && pos[x] == pos[y] ensures x == y { assert SamePlace(rank, pos, x, y); }
    forall x | x in rank && x in pos && rank[x] == rank[v] && pos[x] == pos[v]
      ensures x == v { assert SamePlace(rank, pos, x, v); }
  }

  method AlignNode(nbrs: map<Node, set<Node>>, conflicts: set<Pair>, pos: map<Node, nat>, v: Node, ghost al: Alignment,
                   ghost med: map<Node, set<Node>>, ghost i: nat, a: nat,
                   root: map<Node, Node>, align: map<Node, Node>, prevIdx: int)
    returns (ghost al': Alignment, root': map<Node, Node>, align': map<Node, Node>, prevIdx': int)
    requires v in pos && pos[v] == a && AlignedUpTo(al, med, conflicts, i, a) && PrevIs(al, i, prevIdx)
    requires al.pos == pos && al.root == root && al.align == align && v in al.rank && al.rank[v] == i
    requires OnePerPlace(al.rank, pos) && v in nbrs && AllAbove(al.rank, nbrs[v], v) && v in med && nbrs[v] <= pos.Keys
      && med[v] == Medians(pos, nbrs[v])
    ensures NodeDone(al, al', med, conflicts, i, a + 1, prevIdx')
    ensures al'.root == root' && al'.align == align'
  {
    NeighborsHaveOwnPlaces(al.rank, pos, nbrs[v], v);
    var ws := SortByPos(pos, nbrs[v]);
    MediansAreMiddle(pos, nbrs[v], ws);
    assert Turn(al, med, i, a, v, ws);
    if |ws| > 0 {
      al', root', align', prevIdx' := AlignWithMedian(conflicts, pos, v, ws, al, med, i, a, root, align, prevIdx);
    } else {
      FinishMiss(al, med, conflicts, i, a, v, ws);
      al', root', align', prevIdx' := al, root, align, prevIdx;
    }
  }

  lemma LinkedIsNotSelf(al: Alignment, v: Node, w: Node)
    requires al.Valid() && v in al.rank && w in al.rank && al.rank[w] < al.rank[v]
    ensures v != w && al.root[w] != v && Link(al, v, w).align[v] == al.root[w]
  {
    al.RootIsAbove(w);
  }

  lemma LinkMovesPrev(al: Alignment, i: nat, prevIdx: int, v: Node, w: Node)
    requires al.Valid() && PrevIs(al, i, prevIdx) && MayLink(al, v, w) && Link(al, v, w).Valid() && al.rank[v] == i
    ensures PrevIs(Link(al, v, w), i, al.pos[w])
  {
    var al' := Link(al, v, w);
    forall u | u in al'.up && al.rank[u] == i ensures al'.up[u] in al.pos && al.pos[al'.up[u]] <= al.pos[w] {
      if u != v { assert LeftOf(al, u, v, w); }
    }
    assert v in al'.up && al'.up[v] == w;
  }

  // ----- all layers -----

  lemma PlacesAreOwn(L: Layering, rank: map<Node, nat>, pos: map<Node, nat>)
    requires Placed(L, rank, pos)
    ensures OnePerPlace(rank, pos)
  {
    forall x, y | SamePlace(rank, pos, x, y) ensures x == y {
      assert L[rank[x]][pos[x]] == x && L[rank[y]][pos[y]] == y;
    }
  }

  /** The nodes before place a of layer i have been entered as their own roots. */
  ghost predicate EnteredUpTo(rank: map<Node, nat>, pos: map<Node, nat>, own: map<Node, nat>, root: map<Node, Node>,
                              i: nat, a: nat)
    requires rank.Keys == pos.Keys
  {
    && root.Keys == own.Keys
    && (forall v :: v in rank && (rank[v] < i || (rank[v] == i && pos[v] < a)) <==> v in own)
    && (forall v :: v in own ==> own[v] == pos[v] && root[v] == v)
  }

  method EnterNodes(L: Layering, ghost rank: map<Node, nat>, ghost pos: map<Node, nat>)
    returns (root: map<Node, Node>, align: map<Node, Node>, own: map<Node, nat>)
    requires Placed(L, rank, pos)
    ensures own == pos && root.Keys == pos.Keys && align == root && forall v :: v in pos ==> root[v] == v
  {
    root, align, own := map[], map[], map[];
    for i := 0 to |L|
      invariant EnteredUpTo(rank, pos, own, root, i, 0) && align == root
    {
      for a := 0 to |L[i]|
        invariant EnteredUpTo(rank, pos, own, root, i, a) && align == root
      {
        var v := L[i][a];
        EnterOne(L, rank, pos, own, root, i, a);
        root := root[v := v];
        align := align[v := v];
        own := own[v := a];
      }
    }
    assert own.Keys == pos.Keys;
  }

  lemma EnterOne(L: Layering, rank: map<Node, nat>, pos: map<Node, nat>, own: map<Node, nat>, root: map<Node, Node>,
                 i: nat, a: nat)
    requires Placed(L, rank, pos) && i < |L| && a < |L[i]| && EnteredUpTo(rank, pos, own, root, i, a)
    ensures EnteredUpTo(rank, pos, own[L[i][a] := a], root[L[i][a] := L[i][a]], i, a + 1)
  {
    var v := L[i][a];
    assert rank[v] == i && pos[v] == a;
    forall x | x in rank && rank[x] == i && pos[x] == a ensures x == v {
      assert L[rank[x]][pos[x]] == x;
    }
  }

  lemma StartAligned(rank: map<Node, nat>, pos: map<Node, nat>, root: map<Node, Node>, med: map<Node, set<Node>>,
                     conflicts: set<Pair>)
    requires rank.Keys == pos.Keys == root.Keys && OneLayerUp(rank, med) && forall v :: v in rank ==> root[v] == v
    ensures AlignedUpTo(Alignment(rank, pos, map[], root, root), med, conflicts, 0, 0)
  {
  }

  lemma StartLayer(al: Alignment, med: map<Node, set<Node>>, conflicts: set<Pair>, i: nat)
    requires AlignedUpTo(al, med, conflicts, i, 0)
    ensures PrevIs(al, i, -1)
  {
    forall u | u in al.up ensures al.rank[u] != i {
      assert Earlier(al, u, i, 0);
    }
  }

  lemma EndLayer(L: Layering, al: Alignment, med: map<Node, set<Node>>, conflicts: set<Pair>, i: nat, a: nat, next: nat)
    requires Placed(L, al.rank, al.pos) && i < |L| && a == |L[i]| && next == i + 1
      && AlignedUpTo(al, med, conflicts, i, a)
    ensures AlignedUpTo(al, med, conflicts, next, 0)
  {
    forall v | v in al.up ensures Earlier(al, v, next, 0) {
      assert Earlier(al, v, i, a);
    }
    forall v | v in al.rank && Earlier(al, v, next, 0) ensures IsChosen(al, med, conflicts, v) {
      assert Earlier(al, v, i, a);
    }
  }

  lemma EndAligned(L: Layering, al: Alignment, med: map<Node, set<Node>>, conflicts: set<Pair>, i: nat)
    requires Placed(L, al.rank, al.pos) && i == |L| && AlignedUpTo(al, med, conflicts, i, 0)
    ensures forall v {:trigger IsChosen(al, med, conflicts, v)} :: v in al.rank ==> IsChosen(al, med, conflicts, v)
  {
    forall v | v in al.rank ensures IsChosen(al, med, conflicts, v) {
      assert Earlier(al, v, i, 0);
    }
  }

  lemma MediansOneLayerUp(rank: map<Node, nat>, pos: map<Node, nat>, nbrs: map<Node, set<Node>>)
    returns (med: map<Node, set<Node>>)
    requires rank.Keys == pos.Keys && OneLayerUp(rank, nbrs)
    ensures OneLayerUp(rank, med)
    ensures forall v :: v in rank ==>
      v in nbrs && AllAbove(rank, nbrs[v], v) && nbrs[v] <= pos.Keys && med[v] == Medians(pos, nbrs[v])
  {
    forall v | v in rank ensures v in nbrs && AllAbove(rank, nbrs[v], v) && nbrs[v] <= pos.Keys {
      assert AllAbove(rank, nbrs[v], v);
    }
    med := map v | v in rank :: Medians(pos, nbrs[v]);
    forall v | v in med ensures AllAbove(rank, med[v], v) {
      assert AllAbove(rank, nbrs[v], v);
    }
  }

  /** The blocks of the layering: every node is chained to the first of its median neighbours that is not
      blocked, and the chains do not cross. */
  method VerticalAlign(L: Layering, conflicts: set<Pair>, nbrs: map<Node, set<Node>>, ghost rank: map<Node, nat>,
                       ghost places: map<Node, nat>)
    returns (root: map<Node, Node>, align: map<Node, Node>, ghost al: Alignment, ghost med: map<Node, set<Node>>)
    requires Placed(L, rank, places) && OneLayerUp(rank, nbrs)
    ensures al.Valid() && al.rank == rank && al.pos == places && al.root == root && al.align == align
    ensures forall v :: v in rank ==>
      v in nbrs && nbrs[v] <= places.Keys && v in med && med[v] == Medians(places, nbrs[v])
    ensures forall v {:trigger IsChosen(al, med, conflicts, v)} :: v in rank ==> IsChosen(al, med, conflicts, v)
  {
    var pos;
    root, align, pos := EnterNodes(L, rank, places);
    med := MediansOneLayerUp(rank, pos, nbrs);
    PlacesAreOwn(L, rank, pos);
    al := Alignment(rank, pos, map[], root, align);
    StartAligned(rank, pos, root, med, conflicts);
    for i := 0 to |L|
      invariant AlignedUpTo(al, med, conflicts, i, 0)
      invariant al.rank == rank && al.pos == pos && al.root == root && al.align == align
    {
      root, align, al := AlignLayer(L, conflicts, nbrs, pos, i, root, align, al, med);
    }
    EndAligned(L, al, med, conflicts, |L|);
  }

  method AlignLayer(L: Layering, conflicts: set<Pair>, nbrs: map<Node, set<Node>>, pos: map<Node, nat>, i: nat,
                    root: map<Node, Node>, align: map<Node, Node>, ghost al: Alignment, ghost med: map<Node, set<Node>>)
    returns (root': map<Node, Node>, align': map<Node, Node>, ghost al': Alignment)
    requires i < |L| && AlignedUpTo(al, med, conflicts, i, 0) && Placed(L, al.rank, pos)
    requires al.pos == pos && al.root == root && al.align == align && OnePerPlace(al.rank, pos)
    requires forall v :: v in al.rank ==>
      v in nbrs && AllAbove(al.rank, nbrs[v], v) && nbrs[v] <= pos.Keys && v in med && med[v] == Medians(pos, nbrs[v])
    ensures AlignedUpTo(al', med, conflicts, i + 1, 0)
    ensures al'.rank == al.rank && al'.pos == pos && al'.root == root' && al'.align == align'
  {
    var prevIdx := -1;
    root', align', al' := root, align, al;
    StartLayer(al, med, conflicts, i);
    for a := 0 to |L[i]|
      invariant AlignedUpTo(al', med, conflicts, i, a) && PrevIs(al', i, prevIdx)
      invariant al'.rank == al.rank && al'.pos == pos && al'.root == root' && al'.align == align'
    {
      al', root', align', prevIdx := AlignNode(nbrs, conflicts, pos, L[i][a], al', med, i, a, root', align', prevIdx);
    }
    EndLayer(L, al', med, conflicts, i, |L[i]|, i + 1);
  }
}
