/** Depth-first labels of a spanning tree, and the traversals that rely on them. */
module TreeLabels {
  import opened Graphs
  import opened Sums

  // ----- rooted trees -----

  predicate IsDescendant(v: Label, root: Label) {
    root.low <= v.lim && v.lim <= root.lim
  }

  /** A spanning tree with the labels of a search from root. */
  datatype Rooting = Rooting(nodes: set<Node>, edges: set<Pair>, root: Node, labels: map<Node, Label>) {

    /** Every node but the root has a parent of larger lim, and the tree edges are exactly the edges
        to parents. */
    ghost predicate Valid() {
      && root in nodes && labels.Keys == nodes && labels[root].parent.None?
      && (forall x {:trigger HasParent(x)} :: x in nodes && x != root ==> HasParent(x))
      && (forall p :: p in edges ==> p.a in nodes && p.b in nodes)
      && (forall p :: p in edges ==> labels[p.a].parent == Some(p.b) || labels[p.b].parent == Some(p.a))
    }

    ghost predicate HasParent(x: Node)
      requires labels.Keys == nodes && root in nodes && x in nodes
    {
      && labels[x].parent.Some? && labels[x].parent.value in nodes
      && labels[x].lim < labels[labels[x].parent.value].lim <= labels[root].lim
      && Und(x, labels[x].parent.value) in edges
    }

    ghost predicate IsChild(d: Node, v: Node)
      requires Valid()
    {
      d in nodes && labels[d].parent == Some(v)
    }

    ghost function Parent(x: Node): (p: Node)
      requires Valid() && x in nodes && x != root
      ensures p in nodes && IsChild(x, p) && labels[x].lim < labels[p].lim <= labels[root].lim && Und(x, p) in edges
    {
      assert HasParent(x);
      labels[x].parent.value
    }

    /** x lies in the subtree of r. */
    ghost predicate Below(r: Node, x: Node)
      requires Valid() && x in nodes
      decreases labels[root].lim - labels[x].lim
    {
      x == r || (x != root && Below(r, Parent(x)))
    }

    ghost function Subtree(r: Node): set<Node>
      requires Valid()
    {
      set x | x in nodes && Below(r, x)
    }

    /** The interval test decides membership in a subtree. */
    ghost predicate IntervalsExact()
      requires Valid()
    {
      forall r, x :: r in nodes && x in nodes ==> (IsDescendant(labels[x], labels[r]) <==> Below(r, x))
    }

    lemma {:induction false} RootIsAbove(x: Node)
      requires Valid() && x in nodes
      ensures Below(root, x)
      decreases labels[root].lim - labels[x].lim
    {
      if x != root { RootIsAbove(Parent(x)); }
    }

    lemma {:induction false} BelowLim(r: Node, x: Node)
      requires Valid() && r in nodes && x in nodes && Below(r, x)
      ensures x == r || labels[x].lim < labels[r].lim
      decreases labels[root].lim - labels[x].lim
    {
      if x != r { BelowLim(r, Parent(x)); }
    }

    lemma {:induction false} BelowTransitive(r: Node, s: Node, x: Node)
      requires Valid() && s in nodes && x in nodes && Below(r, s) && Below(s, x)
      ensures Below(r, x)
      decreases labels[root].lim - labels[x].lim
    {
      if x != s { BelowTransitive(r, s, Parent(x)); }
    }

    /** Two nodes above the same node are comparable. */
    lemma {:induction false} AncestorsChain(r: Node, s: Node, x: Node)
      requires Valid() && r in nodes && s in nodes && x in nodes && Below(r, x) && Below(s, x)
      ensures Below(r, s) || Below(s, r)
      decreases labels[root].lim - labels[x].lim
    {
      if x != r && x != s { AncestorsChain(r, s, Parent(x)); }
    }

    /** A node strictly inside a subtree lies in the subtree of one of its children. */
    lemma {:induction false} ChildAbove(r: Node, x: Node) returns (d: Node)
      requires Valid() && r in nodes && x in nodes && Below(r, x) && x != r
      ensures d in nodes && d != root && IsChild(d, r) && Below(d, x)
      decreases labels[root].lim - labels[x].lim
    {
      if Parent(x) == r { d := x; } else { d := ChildAbove(r, Parent(x)); }
    }

    lemma SiblingsDisjoint(d: Node, e: Node, v: Node, x: Node)
      requires Valid() && d in nodes && e in nodes && d != root && e != root && x in nodes
      requires IsChild(d, v) && IsChild(e, v) && Below(d, x) && Below(e, x)
      ensures d == e
    {
      AncestorsChain(d, e, x);
      if d != e {
        assert Parent(d) == v && Parent(e) == v;
        if Below(d, e) { BelowLim(d, v); } else { BelowLim(e, v); }
      }
    }

    lemma NeighborIsParentOrChild(v: Node, w: Node)
      requires Valid() && v in nodes && w in NeighborsIn(edges, v)
      ensures w in nodes && (IsChild(w, v) || IsChild(v, w))
    {
    }

    /** The trees below those children of v that are in K. */
    ghost function KidTrees(v: Node, K: set<Node>): set<Node>
      requires Valid()
    {
      set x | x in nodes && exists d :: d in K && IsChild(d, v) && Below(d, x)
    }

    lemma SubtreeIsKidTrees(v: Node, K: set<Node>)
      requires Valid() && v in nodes && NeighborsIn(edges, v) <= K
      ensures Subtree(v) == {v} + KidTrees(v, K)
    {
      forall x | x in Subtree(v) && x != v ensures x in KidTrees(v, K) {
        var d := ChildAbove(v, x);
        assert Parent(d) == v && Und(d, v) in edges && d in NeighborsIn(edges, v);
      }
      forall x | x in KidTrees(v, K) ensures x in Subtree(v) {
        var d :| d in K && IsChild(d, v) && Below(d, x);
        assert d != root && Parent(d) == v;
        BelowTransitive(v, d, x);
      }
    }
  }

  // ----- initLowLimValues -----

  method InitLowLimValues(t: TreeGraph, root: Node)
    requires SpanningTree(t.nodes, t.edges) && root in t.nodes && t.labels.Keys <= t.nodes
    modifies t`labels
    ensures Rooting(t.nodes, t.edges, root, t.labels).Valid()
    ensures Rooting(t.nodes, t.edges, root, t.labels).IntervalsExact()
  {
    var visited, next := DfsAssignLowLim(t, {}, 1, root, None);
    assert visited - {} == visited;
    SearchIsRooting(Rooting(t.nodes, t.edges, root, t.labels), visited, 1, next);
  }

  lemma SearchIsRooting(rt: Rooting, N: set<Node>, lo: int, hi: int)
    requires SpanningTree(rt.nodes, rt.edges) && rt.labels.Keys <= rt.nodes && N <= rt.nodes
    requires Block(rt.labels, rt.edges, N, rt.root, lo, hi) && rt.labels[rt.root].parent == None
    requires Closed(rt.edges, N, N)
    ensures rt.Valid() && rt.IntervalsExact()
  {
    ClosedIsAll(rt.nodes, rt.edges, N);
    BlockIsRooted(rt, lo, hi);
  }

  lemma ClosedIsAll(V: set<Node>, T: set<Pair>, N: set<Node>)
    requires LinksAll(V, T) && N != {} && N <= V && Closed(T, N, N)
    ensures N == V
  {
    assert forall p :: p in T ==> p.b in NeighborsIn(T, p.a) && p.a in NeighborsIn(T, p.b);
  }

  ghost function ParentEdges(m: map<Node, Label>, X: set<Node>): set<Pair>
    requires forall x :: x in X ==> x in m && m[x].parent.Some?
  {
    set x | x in X :: Und(x, m[x].parent.value)
  }

  lemma {:induction false} ParentEdgesCount(m: map<Node, Label>, X: set<Node>)
    requires forall x :: x in X ==>
      x in m && m[x].parent.Some? && m[x].parent.value in m && m[x].lim < m[m[x].parent.value].lim
    ensures |ParentEdges(m, X)| == |X|
    decreases X
  {
    if X != {} {
      var x :| x in X;
      ParentEdgesCount(m, X - {x});
      assert ParentEdges(m, X) == ParentEdges(m, X - {x}) + {Und(x, m[x].parent.value)};
    } else {
      assert ParentEdges(m, X) == {};
    }
  }

  lemma BlockIsRooted(rt: Rooting, lo: int, hi: int)
    requires SpanningTree(rt.nodes, rt.edges) && rt.labels.Keys == rt.nodes
    requires Block(rt.labels, rt.edges, rt.nodes, rt.root, lo, hi) && rt.labels[rt.root].parent == None
    ensures rt.Valid() && rt.IntervalsExact()
  {
    var rest := rt.nodes - {rt.root};
    forall x | x in rest ensures rt.HasParent(x) {
      assert Hangs(rt.labels, rt.edges, rt.nodes, rt.root, x);
    }
    ParentEdgesCount(rt.labels, rest);
    SubsetOfSameSize(ParentEdges(rt.labels, rest), rt.edges);
    forall r, x | r in rt.nodes && x in rt.nodes
      ensures IsDescendant(rt.labels[x], rt.labels[r]) <==> rt.Below(r, x)
    {
      if IsDescendant(rt.labels[x], rt.labels[r]) { InsideIsBelow(rt, r, x, lo, hi); }
      if rt.Below(r, x) { BelowIsInside(rt, r, x, lo, hi); }
    }
  }

  lemma {:induction false} InsideIsBelow(rt: Rooting, r: Node, x: Node, lo: int, hi: int)
    requires rt.Valid() && Nested(rt.labels, rt.edges, rt.nodes, rt.root, lo, hi)
    requires r in rt.nodes && x in rt.nodes && IsDescendant(rt.labels[x], rt.labels[r])
    ensures rt.Below(r, x)
    decreases rt.labels[rt.root].lim - rt.labels[x].lim
  {
    assert Laminar(rt.labels, rt.nodes, r, x);
    if x != r && x != rt.root { InsideIsBelow(rt, r, rt.Parent(x), lo, hi); }
  }

  lemma {:induction false} BelowIsInside(rt: Rooting, r: Node, x: Node, lo: int, hi: int)
    requires rt.Valid() && Nested(rt.labels, rt.edges, rt.nodes, rt.root, lo, hi)
    requires r in rt.nodes && x in rt.nodes && rt.Below(r, x)
    ensures rt.labels[r].low <= rt.labels[x].low && rt.labels[x].lim <= rt.labels[r].lim
    decreases rt.labels[rt.root].lim - rt.labels[x].lim
  {
    if x != r {
      BelowIsInside(rt, r, rt.Parent(x), lo, hi);
      assert Hangs(rt.labels, rt.edges, rt.nodes, rt.root, x);
    }
  }

  // ----- dfsAssignLowLim -----

  /** N is a finished block of the depth-first search, entered at v. */
  ghost predicate Block(m: map<Node, Label>, T: set<Pair>, N: set<Node>, v: Node, lo: int, hi: int) {
    && Nested(m, T, N, v, lo, hi)
    && v in N && m[v].low == lo && m[v].lim == hi - 1
  }

  /** The labelled nodes N, all of them below v: intervals within [lo, hi), nested or disjoint. */
  ghost predicate Nested(m: map<Node, Label>, T: set<Pair>, N: set<Node>, v: Node, lo: int, hi: int) {
    && N <= m.Keys
    && (forall x :: x in N ==> lo <= m[x].low <= m[x].lim < hi)
    && (forall x :: x in N && x != v ==> Hangs(m, T, N, v, x))
    && (forall r, x :: r in N && x in N ==> Laminar(m, N, r, x))
  }

  ghost predicate Hangs(m: map<Node, Label>, T: set<Pair>, N: set<Node>, v: Node, x: Node)
    requires x in N && N <= m.Keys
  {
    && m[x].parent.Some? && m[x].parent.value in N + {v} && Und(x, m[x].parent.value) in T
    && (m[x].parent.value in N ==> m[m[x].parent.value].low <= m[x].low && m[x].lim < m[m[x].parent.value].lim)
  }

  /** If x lies in the interval of r then its whole interval does, and its parent too unless x is r. */
  ghost predicate Laminar(m: map<Node, Label>, N: set<Node>, r: Node, x: Node)
    requires r in N && x in N && N <= m.Keys
  {
    && (IsDescendant(m[x], m[r]) ==>
      && m[r].low <= m[x].low
      && (x != r ==>
          m[x].lim < m[r].lim && m[x].parent.Some? && m[x].parent.value in N && m[m[x].parent.value].lim <= m[r].lim))
  }

  /** Everything adjacent to X has been visited. */
  ghost predicate Closed(T: set<Pair>, X: set<Node>, visited: set<Node>) {
    forall x :: x in X ==> NeighborsIn(T, x) <= visited
  }

  method DfsAssignLowLim(t: TreeGraph, visited: set<Node>, nextLim: int, v: Node, parent: Option<Node>)
    returns (visited': set<Node>, next': int)
    requires v in t.nodes && v !in visited && visited <= t.nodes
    requires PairsOf(t.nodes, t.edges)
    modifies t`labels
    ensures visited + {v} <= visited' <= t.nodes
    ensures Block(t.labels, t.edges, visited' - visited, v, nextLim, next')
    ensures Closed(t.edges, visited' - visited, visited')
    ensures t.labels[v].parent == parent
    ensures t.labels.Keys == old(t.labels.Keys) + (visited' - visited)
    ensures forall x :: x in old(t.labels) && x !in visited' - visited ==> t.labels[x] == old(t.labels[x])
    decreases t.nodes - visited
  {
    var low := nextLim;
    visited', next' := visited + {v}, nextLim;
    var todo := t.Neighbors(v);
    while todo != {}
      invariant todo <= t.Neighbors(v)
      invariant visited + {v} <= visited' <= t.nodes
      invariant nextLim <= next'
      invariant Nested(t.labels, t.edges, visited' - visited - {v}, v, nextLim, next')
      invariant Closed(t.edges, visited' - visited - {v}, visited')
      invariant t.Neighbors(v) - todo <= visited'
      invariant t.labels.Keys == old(t.labels.Keys) + (visited' - visited - {v})
      invariant forall x :: x in old(t.labels) && x !in visited' - visited - {v} ==> t.labels[x] == old(t.labels[x])
      decreases todo
    {
      var w :| w in todo;
      todo := todo - {w};
      if w !in visited' {
        ghost var before, mid, seen := t.labels, next', visited';
        visited', next' := DfsAssignLowLim(t, visited', next', w, Some(v));
        JoinBlocks(before, t.labels, t.edges, seen - visited - {v}, visited' - seen, v, w, nextLim, mid, next');
        assert visited' - visited - {v} == (seen - visited - {v}) + (visited' - seen);
      }
    }
    ghost var before := t.labels;
    t.labels := t.labels[v := Label(low, next', parent)];
    CloseBlock(before, t.labels, t.edges, visited' - visited - {v}, v, nextLim, next');
    assert visited' - visited == (visited' - visited - {v}) + {v};
    next' := next' + 1;
  }

  lemma JoinBlocks(before: map<Node, Label>, m: map<Node, Label>, T: set<Pair>, N: set<Node>, B: set<Node>,
                   v: Node, w: Node, lo: int, mid: int, hi: int)
    requires Nested(before, T, N, v, lo, mid) && lo <= mid
    requires Block(m, T, B, w, mid, hi)
    requires N !! B && v !in N + B && N <= m.Keys
    requires forall x :: x in N ==> m[x] == before[x]
    requires m[w].parent == Some(v) && Und(w, v) in T
    ensures Nested(m, T, N + B, v, lo, hi)
  {
    forall x | x in N + B ensures lo <= m[x].low <= m[x].lim < hi && Hangs(m, T, N + B, v, x) {
      if x in N { assert Hangs(before, T, N, v, x); } else if x != w { assert Hangs(m, T, B, w, x); }
    }
    forall r, x | r in N + B && x in N + B ensures Laminar(m, N + B, r, x) {
      if r in N && x in N {
        assert Laminar(before, N, r, x);
      } else if r in B && x in B {
        assert Laminar(m, B, r, x);
      }
    }
  }

  lemma CloseBlock(before: map<Node, Label>, m: map<Node, Label>, T: set<Pair>, N: set<Node>, v: Node, lo: int, hi: int)
    requires Nested(before, T, N, v, lo, hi) && lo <= hi && v !in N
    requires v in m && m == before[v := m[v]] && m[v].low == lo && m[v].lim == hi
    ensures Block(m, T, N + {v}, v, lo, hi + 1)
  {
    forall x | x in N ensures Hangs(m, T, N + {v}, v, x) {
      assert Hangs(before, T, N, v, x);
    }
    forall r, x | r in N + {v} && x in N + {v} ensures Laminar(m, N + {v}, r, x) {
      if x in N { assert Hangs(before, T, N, v, x); }
      if r in N && x in N { assert Laminar(before, N, r, x); }
    }
  }
}
