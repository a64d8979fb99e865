/** The bottom-up computation of the cut values. */
module CutValueInit {
  import opened Graphs
  import opened Sums
  import opened TreeLabels
  import opened Traversal
  import opened CutValues
  import opened Pivot

  function TreeOf(t: TreeGraph, root: Node): Rooting
    reads t
  {
    Rooting(t.nodes, t.edges, root, t.labels)
  }

  /** Every tree edge carries the cut value of the split it makes. */
  ghost predicate CutsExact(rt: Rooting, E: set<Edge>, cut: map<Pair, int>)
    requires rt.Valid()
  {
    && cut.Keys == rt.edges
    && (forall c :: c in rt.nodes && c != rt.root ==> CutKnown(rt, E, cut, c))
  }

  ghost predicate CutKnown(rt: Rooting, E: set<Edge>, cut: map<Pair, int>, c: Node)
    requires rt.Valid() && c in rt.nodes && c != rt.root
  {
    Und(c, rt.Parent(c)) in cut && cut[Und(c, rt.Parent(c))] == CutValue(rt, E, c)
  }

  // ----- calcCutValue -----

  function OtherEnd(e: Edge, c: Node): Node {
    if e.v == c then e.w else e.v
  }

  /** The cut value accumulated at child after the edges F, the kids K among their ends. */
  ghost predicate Accumulated(rt: Rooting, E: set<Edge>, child: Node, top: Edge, F: set<Edge>, cutValue: int)
    requires rt.Valid() && child in rt.nodes && child != rt.root
  {
    cutValue == Sign(rt, E, child) * (Net({top} + F, {child}) + Net(E, rt.KidTrees(child, OtherEnds(F, child))))
  }

  ghost function OtherEnds(F: set<Edge>, c: Node): set<Node> {
    set e | e in F :: OtherEnd(e, c)
  }

  lemma StartAccumulation(rt: Rooting, E: set<Edge>, child: Node, top: Edge)
    requires rt.Valid() && child in rt.nodes && child != rt.root
    requires top in E && Und(top.v, top.w) == Und(child, rt.Parent(child)) && child != rt.Parent(child)
    requires HasEdge(E, child, rt.Parent(child)) <==> top.v == child
    ensures Accumulated(rt, E, child, top, {}, top.weight)
  {
    assert rt.KidTrees(child, {}) == {} && OtherEnds({}, child) == {};
    NetOfNone(E);
    NetPick({top}, {child}, top);
    NetOfNothing({top} - {top}, {child});
    assert {top} + {} == {top};
  }

  lemma NetOfNothing(E: set<Edge>, S: set<Node>)
    requires E == {}
    ensures Net(E, S) == 0
  {
  }

  /** The lemmas below take one edge e at child, not the one to its parent, to its far end. */
  ghost predicate NextEdge(rt: Rooting, E: set<Edge>, child: Node, top: Edge, F: set<Edge>, e: Edge)
    requires rt.Valid()
  {
    && Simple(rt.nodes, E) && child in rt.nodes && child != rt.root
    && top in E && Und(top.v, top.w) == Und(child, rt.Parent(child)) && F <= E
    && e in E && e !in F && (e.v == child || e.w == child)
    && (forall f :: f in F ==> f.v == child || f.w == child)
  }

  lemma OtherEndIsNew(rt: Rooting, E: set<Edge>, child: Node, top: Edge, F: set<Edge>, e: Edge)
    requires rt.Valid() && NextEdge(rt, E, child, top, F, e)
    ensures OtherEnds(F + {e}, child) == OtherEnds(F, child) + {OtherEnd(e, child)}
    ensures OtherEnd(e, child) !in OtherEnds(F, child)
    ensures OtherEnd(e, child) == rt.Parent(child) <==> e == top
  {
    forall f | f in F ensures OtherEnd(f, child) != OtherEnd(e, child) {
      assert OtherEnd(f, child) == OtherEnd(e, child) ==> Und(f.v, f.w) == Und(e.v, e.w);
    }
    assert Und(e.v, e.w) == Und(child, OtherEnd(e, child));
  }

  lemma KidTreesGrow(rt: Rooting, child: Node, K: set<Node>, d: Node)
    requires rt.Valid() && child in rt.nodes && d !in K && d in rt.nodes
    ensures !rt.IsChild(d, child) ==> rt.KidTrees(child, K + {d}) == rt.KidTrees(child, K)
    ensures rt.IsChild(d, child) ==> rt.KidTrees(child, K + {d}) == rt.KidTrees(child, K) + rt.Subtree(d)
    ensures rt.IsChild(d, child) ==> rt.KidTrees(child, K) !! rt.Subtree(d)
  {
    if rt.IsChild(d, child) {
      forall x | x in rt.KidTrees(child, K) ensures x !in rt.Subtree(d) {
        if x in rt.Subtree(d) { KidTreesApart(rt, child, K, d, x, x); }
      }
    }
  }

  /** What e adds to the accumulated net weight, in terms of the direction it points. */
  lemma NetOfNext(rt: Rooting, E: set<Edge>, child: Node, top: Edge, F: set<Edge>, e: Edge)
    requires rt.Valid() && NextEdge(rt, E, child, top, F, e) && e != top
    ensures Net({top} + (F + {e}), {child}) == Net({top} + F, {child}) + if e.v == child then e.weight else -e.weight
  {
    NetPick({top} + (F + {e}), {child}, e);
    assert {top} + (F + {e}) - {e} == {top} + F;
  }

  lemma AccumulateTop(rt: Rooting, E: set<Edge>, child: Node, top: Edge, F: set<Edge>, cutValue: int)
    requires rt.Valid() && NextEdge(rt, E, child, top, F, top) && Accumulated(rt, E, child, top, F, cutValue)
    ensures Accumulated(rt, E, child, top, F + {top}, cutValue)
  {
    OtherEndIsNew(rt, E, child, top, F, top);
    assert {top} + (F + {top}) == {top} + F;
    var p := rt.Parent(child);
    assert p != rt.root ==> rt.HasParent(p);
    assert !rt.IsChild(p, child);
    KidTreesGrow(rt, child, OtherEnds(F, child), p);
  }

  lemma AccumulateNonTree(rt: Rooting, E: set<Edge>, child: Node, top: Edge, F: set<Edge>, cutValue: int, e: Edge)
    requires rt.Valid() && NextEdge(rt, E, child, top, F, e) && Accumulated(rt, E, child, top, F, cutValue)
    requires e != top && !rt.IsChild(OtherEnd(e, child), child)
    ensures Accumulated(rt, E, child, top, F + {e},
      cutValue + if (e.v == child) == (Sign(rt, E, child) == 1) then e.weight else -e.weight)
  {
    OtherEndIsNew(rt, E, child, top, F, e);
    KidTreesGrow(rt, child, OtherEnds(F, child), OtherEnd(e, child));
    NetOfNext(rt, E, child, top, F, e);
  }

  lemma AccumulateKid(rt: Rooting, E: set<Edge>, child: Node, top: Edge, F: set<Edge>, cutValue: int, e: Edge)
    requires rt.Valid() && NextEdge(rt, E, child, top, F, e) && Accumulated(rt, E, child, top, F, cutValue)
    requires e != top && rt.IsChild(OtherEnd(e, child), child) && OtherEnd(e, child) != rt.root
    ensures var otherCut := CutValue(rt, E, OtherEnd(e, child));
      Accumulated(rt, E, child, top, F + {e},
        cutValue + if (e.v == child) == (Sign(rt, E, child) == 1) then e.weight - otherCut else -e.weight + otherCut)
  {
    var d, K := OtherEnd(e, child), OtherEnds(F, child);
    OtherEndIsNew(rt, E, child, top, F, e);
    KidTreesGrow(rt, child, K, d);
    NetOfNext(rt, E, child, top, F, e);
    NetUnion(E, rt.KidTrees(child, K), rt.Subtree(d));
    CutValueIsNet(rt, E, d);
    SignOfKid(rt, E, child, d, e);
  }

  lemma SignOfKid(rt: Rooting, E: set<Edge>, child: Node, d: Node, e: Edge)
    requires rt.Valid() && Simple(rt.nodes, E) && d in rt.nodes && d != rt.root && rt.Parent(d) == child
    requires e in E && Und(e.v, e.w) == Und(child, d)
    ensures Sign(rt, E, d) == if e.v == child then -1 else 1
  {
    if HasEdge(E, d, child) {
      var f :| f in E && f.v == d && f.w == child;
      assert Und(f.v, f.w) == Und(e.v, e.w);
      assert f == e;
    } else {
      assert e.v == child;
    }
  }

  lemma EndAccumulation(rt: Rooting, E: set<Edge>, child: Node, top: Edge, F: set<Edge>, cutValue: int)
    requires rt.Valid() && Simple(rt.nodes, E) && TreeInGraph(E, rt.edges) && child in rt.nodes && child != rt.root
    requires Accumulated(rt, E, child, top, F, cutValue) && top in F
    requires forall e :: e in F <==> e in E && (e.v == child || e.w == child)
    ensures cutValue == CutValue(rt, E, child)
  {
    var K := OtherEnds(F, child);
    NeighborsAreEnds(rt.edges, E, child, F);
    rt.SubtreeIsKidTrees(child, K);
    assert child !in rt.KidTrees(child, K) by { SelfNotBelowKid(rt, child, K); }
    NetUnion(E, {child}, rt.KidTrees(child, K));
    assert {top} + F == F;
    NetOfOne(E, F, child);
    CutValueIsNet(rt, E, child);
  }

  lemma NeighborsAreEnds(T: set<Pair>, E: set<Edge>, child: Node, F: set<Edge>)
    requires TreeInGraph(E, T) && forall e :: e in E && (e.v == child || e.w == child) ==> e in F
    ensures NeighborsIn(T, child) <= OtherEnds(F, child)
  {
    forall w | w in NeighborsIn(T, child) ensures w in OtherEnds(F, child) {
      var p :| p in T && (p == Pair(w, child) || p == Pair(child, w));
      var e :| e in E && Und(e.v, e.w) == p;
      assert e in F && OtherEnd(e, child) == w;
    }
  }

  lemma SelfNotBelowKid(rt: Rooting, v: Node, K: set<Node>)
    requires rt.Valid() && v in rt.nodes
    ensures v !in rt.KidTrees(v, K)
  {
    forall d | d in K && rt.IsChild(d, v) && rt.Below(d, v) ensures false {
      assert rt.Parent(d) == v;
      rt.BelowLim(d, v);
    }
  }

  method CalcCutValue(t: TreeGraph, g: LayoutGraph, child: Node, ghost rt: Rooting) returns (cutValue: int)
    requires rt.Valid() && rt == TreeOf(t, rt.root) && rt.nodes == g.nodes
    requires Simple(g.nodes, g.edges) && TreeInGraph(g.edges, t.edges)
    requires child in rt.nodes && child != rt.root
    requires KidCutsKnown(rt, g.edges, t.cutvalue, child)
    ensures cutValue == CutValue(rt, g.edges, child)
  {
    ghost var parentNode := rt.Parent(child);
    var parent := t.labels[child].parent.value;
    var childIsTail := true;
    var graphEdge: Edge;
    EdgeToParent(rt, g.edges, child);
    if HasEdge(g.edges, child, parent) {
      graphEdge :| graphEdge in g.edges && graphEdge.v == child && graphEdge.w == parent;
    } else {
      childIsTail := false;
      graphEdge :| graphEdge in g.edges && graphEdge.v == parent && graphEdge.w == child;
    }
    cutValue := graphEdge.weight;
    StartAccumulation(rt, g.edges, child, graphEdge);
    cutValue := AddEdges(t, g, child, parent, childIsTail, cutValue, rt, graphEdge);
  }

  /** The loop of calcCutValue over the edges at child. */
  method AddEdges(t: TreeGraph, g: LayoutGraph, child: Node, parent: Node, childIsTail: bool, start: int,
                  ghost rt: Rooting, ghost top: Edge) returns (cutValue: int)
    requires rt.Valid() && rt == TreeOf(t, rt.root) && TreeInGraph(g.edges, t.edges)
    requires NextEdge(rt, g.edges, child, top, {}, top)
    requires parent == rt.Parent(child) && childIsTail == (Sign(rt, g.edges, child) == 1)
    requires KidCutsKnown(rt, g.edges, t.cutvalue, child)
    requires Accumulated(rt, g.edges, child, top, {}, start)
    ensures cutValue == CutValue(rt, g.edges, child)
  {
    cutValue := start;
    var todo := g.NodeEdges(child);
    ghost var done: set<Edge> := {};
    while todo != {}
      invariant done !! todo
      invariant forall e :: e in done + todo <==> e in g.edges && (e.v == child || e.w == child)
      invariant Accumulated(rt, g.edges, child, top, done, cutValue)
      decreases todo
    {
      var e :| e in todo;
      todo := todo - {e};
      cutValue := AddEdge(t, g, child, parent, childIsTail, e, cutValue, rt, top, done);
      done := done + {e};
    }
    EndAccumulation(rt, g.edges, child, top, done, cutValue);
  }

  ghost predicate KidCutsKnown(rt: Rooting, E: set<Edge>, cut: map<Pair, int>, v: Node)
    requires rt.Valid()
  {
    forall d :: d in rt.nodes && d != rt.root && rt.Parent(d) == v ==> CutKnown(rt, E, cut, d)
  }

  lemma EdgeToParent(rt: Rooting, E: set<Edge>, child: Node)
    requires rt.Valid() && TreeInGraph(E, rt.edges) && child in rt.nodes && child != rt.root
    ensures HasEdge(E, child, rt.Parent(child)) || HasEdge(E, rt.Parent(child), child)
  {
    var p := Und(child, rt.Parent(child));
    assert p in rt.edges;
    var e :| e in E && Und(e.v, e.w) == p;
  }

  lemma ChildIsTreeEdge(rt: Rooting, d: Node, v: Node)
    requires rt.Valid() && d in rt.nodes && v in rt.nodes
    ensures rt.IsChild(d, v) ==> d != rt.root && Und(v, d) in rt.edges
  {
    assert d != rt.root ==> rt.HasParent(d);
  }

  /** One round of the loop of calcCutValue. */
  method AddEdge(t: TreeGraph, g: LayoutGraph, child: Node, parent: Node, childIsTail: bool, e: Edge, before: int,
                 ghost rt: Rooting, ghost top: Edge, ghost F: set<Edge>) returns (cutValue: int)
    requires rt.Valid() && rt == TreeOf(t, rt.root)
    requires NextEdge(rt, g.edges, child, top, F, e)
    requires parent == rt.Parent(child) && childIsTail == (Sign(rt, g.edges, child) == 1)
    requires KidCutsKnown(rt, g.edges, t.cutvalue, child)
    requires Accumulated(rt, g.edges, child, top, F, before)
    ensures Accumulated(rt, g.edges, child, top, F + {e}, cutValue)
  {
    cutValue := before;
    var isOutEdge := e.v == child;
    var other := if isOutEdge then e.w else e.v;
    OtherEndIsNew(rt, g.edges, child, top, F, e);
    ChildIsTreeEdge(rt, other, child);
    if other != parent {
      var pointsToHead := isOutEdge == childIsTail;
      cutValue := cutValue + if pointsToHead then e.weight else -e.weight;
      if Und(child, other) in t.edges {
        assert rt.IsChild(other, child) && other != rt.root && rt.Parent(other) == child;
        assert CutKnown(rt, g.edges, t.cutvalue, other);
        var otherCutValue := t.cutvalue[Und(child, other)];
        cutValue := cutValue + if pointsToHead then -otherCutValue else otherCutValue;
        AccumulateKid(rt, g.edges, child, top, F, before, e);
      } else {
        AccumulateNonTree(rt, g.edges, child, top, F, before, e);
      }
    } else {
      AccumulateTop(rt, g.edges, child, top, F, before);
    }
  }

  // ----- initCutValues -----

  /** The cut values of the first i nodes of the postorder are known. */
  ghost predicate KnownUpTo(rt: Rooting, E: set<Edge>, cut: map<Pair, int>, vs: seq<Node>, i: nat)
    requires rt.Valid() && i < |vs| && Listing(rt, vs, rt.nodes, true) && vs[|vs| - 1] == rt.root
  {
    && cut.Keys <= rt.edges
    && (forall j :: 0 <= j < i ==> InTree(rt, vs, j) && CutKnown(rt, E, cut, vs[j]))
  }

  ghost predicate InTree(rt: Rooting, vs: seq<Node>, j: nat) {
    j < |vs| && vs[j] in rt.nodes && vs[j] != rt.root
  }

  lemma KidsComeFirst(rt: Rooting, E: set<Edge>, cut: map<Pair, int>, vs: seq<Node>, i: nat)
    requires rt.Valid() && i + 1 < |vs| && Listing(rt, vs, rt.nodes, true) && vs[|vs| - 1] == rt.root
    requires KnownUpTo(rt, E, cut, vs, i)
    ensures InTree(rt, vs, i) && KidCutsKnown(rt, E, cut, vs[i])
  {
    assert vs[i] in vs;
    forall d | d in rt.nodes && d != rt.root && rt.Parent(d) == vs[i] ensures CutKnown(rt, E, cut, d) {
      assert d in vs;
      var k :| 0 <= k < |vs| && vs[k] == d;
      assert rt.IsChild(vs[k], vs[i]);
      assert k < i;
      assert InTree(rt, vs, k) && CutKnown(rt, E, cut, vs[k]);
    }
  }

  lemma KnowOneMore(rt: Rooting, E: set<Edge>, cut: map<Pair, int>, vs: seq<Node>, i: nat, value: int)
    requires rt.Valid() && i + 1 < |vs| && Listing(rt, vs, rt.nodes, true) && vs[|vs| - 1] == rt.root
    requires KnownUpTo(rt, E, cut, vs, i) && InTree(rt, vs, i) && value == CutValue(rt, E, vs[i])
    ensures KnownUpTo(rt, E, cut[Und(vs[i], rt.Parent(vs[i])) := value], vs, i + 1)
  {
    var cut' := cut[Und(vs[i], rt.Parent(vs[i])) := value];
    forall j | 0 <= j < i + 1 ensures InTree(rt, vs, j) && CutKnown(rt, E, cut', vs[j]) {
      if j < i {
        assert InTree(rt, vs, j) && CutKnown(rt, E, cut, vs[j]);
        if Und(vs[i], rt.Parent(vs[i])) == Und(vs[j], rt.Parent(vs[j])) { EdgeAboveIsUnique(rt, vs[i], vs[j]); }
      }
    }
  }

  lemma AllKnown(rt: Rooting, E: set<Edge>, cut: map<Pair, int>, vs: seq<Node>)
    requires rt.Valid() && PairsOf(rt.nodes, rt.edges) && vs != []
    requires Listing(rt, vs, rt.nodes, true) && vs[|vs| - 1] == rt.root && KnownUpTo(rt, E, cut, vs, |vs| - 1)
    ensures CutsExact(rt, E, cut)
  {
    forall c | c in rt.nodes && c != rt.root ensures CutKnown(rt, E, cut, c) {
      assert c in vs;
      var k :| 0 <= k < |vs| && vs[k] == c;
      assert InTree(rt, vs, k) && CutKnown(rt, E, cut, vs[k]);
    }
    forall p | p in rt.edges ensures p in cut {
      var c := ChildEnd(rt, p);
      assert CutKnown(rt, E, cut, c);
    }
  }

  /** Run in postorder, the recurrence gives every tree edge its cut value. */
  method InitCutValues(t: TreeGraph, g: LayoutGraph, order: seq<Node>, ghost rt: Rooting)
    requires rt.Valid() && rt == TreeOf(t, rt.root) && rt.nodes == g.nodes && PairsOf(t.nodes, t.edges)
    requires Simple(g.nodes, g.edges) && TreeInGraph(g.edges, t.edges)
    requires order != [] && order[0] == rt.root && forall v :: v in order ==> v in t.nodes
    requires t.cutvalue.Keys <= t.edges
    modifies t`cutvalue
    ensures CutsExact(rt, g.edges, t.cutvalue)
  {
    var vs := Dfs(t, order, true, rt);
    for i := 0 to |vs| - 1
      invariant KnownUpTo(rt, g.edges, t.cutvalue, vs, i)
    {
      ghost var before := t.cutvalue;
      KidsComeFirst(rt, g.edges, before, vs, i);
      AssignCutValue(t, g, vs[i], rt);
      KnowOneMore(rt, g.edges, before, vs, i, CutValue(rt, g.edges, vs[i]));
    }
    AllKnown(rt, g.edges, t.cutvalue, vs);
  }

  method AssignCutValue(t: TreeGraph, g: LayoutGraph, child: Node, ghost rt: Rooting)
    requires rt.Valid() && rt == TreeOf(t, rt.root) && rt.nodes == g.nodes
    requires Simple(g.nodes, g.edges) && TreeInGraph(g.edges, t.edges)
    requires child in rt.nodes && child != rt.root
    requires KidCutsKnown(rt, g.edges, t.cutvalue, child)
    modifies t`cutvalue
    ensures t.cutvalue == old(t.cutvalue)[Und(child, rt.Parent(child)) := CutValue(rt, g.edges, child)]
  {
    ghost var p := rt.Parent(child);
    var parent := t.labels[child].parent.value;
    var value := CalcCutValue(t, g, child, rt);
    t.cutvalue := t.cutvalue[Und(child, parent) := value];
  }
}
