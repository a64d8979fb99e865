/** Long edges are replaced by chains of dummy nodes, one to a rank, and put back after the layout. */
module Normalize {
  import opened Graphs
  import opened Sums
  import opened Acyclic

  datatype Box = Box(width: real, height: real)

  datatype Point = Point(x: real, y: real)

  datatype Kind = EdgeDummy | LabelDummy

  /** Labels are objects that nodes and edges refer to by number. */
  type Ref = nat

  datatype NodeLabel =
    | Plain(rank: int)
    | Dummy(rank: int, box: Option<Box>, kind: Kind, labelpos: Option<int>, edgeLabel: Ref, edgeObj: Key)

  datatype Attrs = Attrs(weight: int, box: Option<Box>, labelRank: Option<int>, labelpos: Option<int>,
                         points: Option<seq<Point>>, at: Option<Point>)

  function OnlyWeight(weight: int): Attrs {
    Attrs(weight, None, None, None, None, None)
  }

  /** The graph before the edges were split. */
  datatype Original = Original(nodes: map<Node, NodeLabel>, edges: map<Key, Ref>, labels: map<Ref, Attrs>)

  /** Every edge leads to a later rank, between nodes that are no dummies, and has a label of its own. */
  ghost predicate Proper(o: Original) {
    && (forall e :: e in o.edges ==> Forward(o, e) && o.edges[e] in o.labels)
    && (forall e, f :: e in o.edges && f in o.edges && o.edges[e] == o.edges[f] ==> e == f)
  }

  ghost predicate Forward(o: Original, e: Key) {
    && e.v in o.nodes && e.w in o.nodes && o.nodes[e.v].Plain? && o.nodes[e.w].Plain?
    && o.nodes[e.v].rank < o.nodes[e.w].rank
  }

  /** The number of ranks strictly between the ends of an edge. */
  ghost function Gap(o: Original, e: Key): int
    requires Proper(o) && e in o.edges
  {
    o.nodes[e.w].rank - o.nodes[e.v].rank - 1
  }

  // ----- chains -----

  /** The chain c of an edge: its nodes before place from have been taken away, its links from place upto
      on have not been made yet. */
  datatype Part = Part(c: seq<Node>, from: nat, upto: nat)

  type Parts = map<Key, Part>

  function Path(e: Key, c: seq<Node>): seq<Node> {
    [e.v] + c + [e.w]
  }

  /** Where the chain c of e has come to. */
  function EndOf(e: Key, c: seq<Node>): Node {
    if c == [] then e.v else c[|c| - 1]
  }

  function Link(e: Key, c: seq<Node>, i: int): Key
    requires 0 <= i <= |c|
  {
    Key(Path(e, c)[i], Path(e, c)[i + 1], e.name)
  }

  predicate HasLink(p: Part, i: int) {
    (if p.from == 0 then 0 else p.from + 1) <= i < p.upto && i <= |p.c|
  }

  ghost predicate WellFormed(o: Original, parts: Parts) {
    forall e {:trigger parts[e]} :: e in parts ==> e in o.edges && PartOk(parts[e])
  }

  ghost predicate PartOk(p: Part) {
    p.from <= |p.c| && p.upto <= |p.c| + 1 && (p.c == [] ==> p.upto == 0)
  }

  ghost predicate At(parts: Parts, e: Key, i: int, x: Node) {
    e in parts && parts[e].from <= i < |parts[e].c| && parts[e].c[i] == x
  }

  ghost predicate Distinct(parts: Parts) {
    forall e, i, f, j, x {:trigger At(parts, e, i, x), At(parts, f, j, x)} ::
      At(parts, e, i, x) && At(parts, f, j, x) ==> e == f && i == j
  }

  ghost predicate IsDummy(parts: Parts, x: Node) {
    exists e, i :: At(parts, e, i, x)
  }

  ghost predicate LinkAt(parts: Parts, e: Key, i: int, k: Key) {
    e in parts && HasLink(parts[e], i) && Link(e, parts[e].c, i) == k
  }

  ghost predicate IsLink(parts: Parts, k: Key) {
    exists e, i :: LinkAt(parts, e, i, k)
  }

  function DummyLabel(rank: int, r: Ref, e: Key, lab: Attrs): NodeLabel {
    if lab.labelRank == Some(rank) then Dummy(rank, lab.box, LabelDummy, lab.labelpos, r, e)
    else Dummy(rank, Some(Box(0.0, 0.0)), EdgeDummy, None, r, e)
  }

  /** The dummy at place i of e's chain is as it should be. */
  ghost predicate DummyIn(o: Original, N: map<Node, NodeLabel>, e: Key, i: int, x: Node)
    requires Proper(o)
  {
    && e in o.edges && x in N && x !in o.nodes
    && N[x] == DummyLabel(o.nodes[e.v].rank + 1 + i, o.edges[e], e, o.labels[o.edges[e]])
  }

  ghost predicate LinkIn(o: Original, E: map<Key, Ref>, S: map<Ref, Attrs>, e: Key, k: Key)
    requires Proper(o)
  {
    e in o.edges && k in E && E[k] !in o.labels && E[k] in S && S[E[k]] == OnlyWeight(o.labels[o.edges[e]].weight)
  }

  // ----- the graph with some chains in it -----

  ghost predicate NodesAre(o: Original, parts: Parts, N: map<Node, NodeLabel>)
    requires Proper(o)
  {
    && (forall x :: x in o.nodes ==> x in N && N[x] == o.nodes[x])
    && (forall e, i, x {:trigger At(parts, e, i, x)} :: At(parts, e, i, x) ==> DummyIn(o, N, e, i, x))
    && (forall x {:trigger IsDummy(parts, x)} :: x in N ==> x in o.nodes || IsDummy(parts, x))
  }

  /** The edges are those in whole, which are original, and the links of the chains. */
  ghost predicate EdgesAre(o: Original, parts: Parts, whole: set<Key>, E: map<Key, Ref>, S: map<Ref, Attrs>)
    requires Proper(o)
  {
    && (forall e :: e in whole ==> e in o.edges && e in E && E[e] == o.edges[e])
    && (forall e, i, k {:trigger LinkAt(parts, e, i, k)} :: LinkAt(parts, e, i, k) ==> LinkIn(o, E, S, e, k))
    && (forall k {:trigger IsLink(parts, k)} :: k in E ==> k in whole || IsLink(parts, k))
  }

  /** The label of every original edge, in use or kept by its dummies. */
  ghost predicate LabelsAre(o: Original, lab: map<Key, Attrs>, S: map<Ref, Attrs>) {
    forall e :: e in o.edges ==> e in lab && o.edges[e] in S && S[o.edges[e]] == lab[e]
  }

  ghost predicate State(o: Original, parts: Parts, whole: set<Key>, lab: map<Key, Attrs>, N: map<Node, NodeLabel>,
                        E: map<Key, Ref>, S: map<Ref, Attrs>) {
    && Proper(o) && WellFormed(o, parts) && Distinct(parts)
    && NodesAre(o, parts, N) && EdgesAre(o, parts, whole, E, S) && LabelsAre(o, lab, S)
  }

  /** One end of a link is a dummy of its chain, at place j. */
  lemma LinkHasDummy(parts: Parts, e: Key, i: int, k: Key) returns (j: int)
    requires LinkAt(parts, e, i, k) && PartOk(parts[e])
    ensures At(parts, e, j, k.v) || At(parts, e, j, k.w)
    ensures j == (if i == 0 then 0 else i - 1)
    ensures if i == 0 then k.v == e.v && At(parts, e, j, k.w) else At(parts, e, j, k.v)
    ensures k.w == if i == |parts[e].c| then e.w else parts[e].c[i]
  {
    j := if i == 0 then 0 else i - 1;
  }

  /** A link is no original edge. */
  lemma LinkIsNew(o: Original, parts: Parts, N: map<Node, NodeLabel>, k: Key)
    requires Proper(o) && WellFormed(o, parts) && NodesAre(o, parts, N) && IsLink(parts, k)
    ensures k !in o.edges
  {
    var e, i :| LinkAt(parts, e, i, k);
    var j := LinkHasDummy(parts, e, i, k);
    if At(parts, e, j, k.v) { assert DummyIn(o, N, e, j, k.v); } else { assert DummyIn(o, N, e, j, k.w); }
  }

  // ----- splitting an edge -----

  lemma OpenChain(o: Original, parts: Parts, whole: set<Key>, lab: map<Key, Attrs>, N: map<Node, NodeLabel>,
                  E: map<Key, Ref>, S: map<Ref, Attrs>,
                  e: Key, parts': Parts, whole': set<Key>, E': map<Key, Ref>)
    requires State(o, parts, whole, lab, N, E, S) && e in whole && e !in parts
    requires parts' == parts[e := Part([], 0, 0)] && whole' == whole - {e} && E' == E - {e}
    ensures State(o, parts', whole', lab, N, E', S)
  {
    forall f, i, x ensures At(parts', f, i, x) <==> At(parts, f, i, x) {}
    forall f, i, k ensures LinkAt(parts', f, i, k) <==> LinkAt(parts, f, i, k) {}
    forall x | x in N && x !in o.nodes ensures IsDummy(parts', x) {
      assert IsDummy(parts, x);
      var f, i :| At(parts, f, i, x);
      assert At(parts', f, i, x);
    }
    forall f, i, k | LinkAt(parts', f, i, k) ensures LinkIn(o, E', S, f, k) {
      assert LinkAt(parts, f, i, k) && IsLink(parts, k);
      LinkIsNew(o, parts, N, k);
    }
    forall k | k in E' && k !in whole' ensures IsLink(parts', k) {
      assert IsLink(parts, k);
      var f, i :| LinkAt(parts, f, i, k);
      assert LinkAt(parts', f, i, k);
    }
  }

  /** What changes when the chain of e gets one more dummy, linked to what is before it. */
  lemma GrowPart(parts: Parts, e: Key, c: seq<Node>, d: Node, parts': Parts, k: Key)
    requires e in parts && parts[e] == Part(c, 0, |c|) && parts' == parts[e := Part(c + [d], 0, |c| + 1)]
    requires k == Link(e, c + [d], |c|)
    ensures forall f, i, x :: At(parts', f, i, x) <==> At(parts, f, i, x) || (f == e && i == |c| && x == d)
    ensures forall f, i, l :: LinkAt(parts', f, i, l) <==> LinkAt(parts, f, i, l) || (f == e && i == |c| && l == k)
  {
    forall f, i, x ensures At(parts', f, i, x) <==> At(parts, f, i, x) || (f == e && i == |c| && x == d) {}
    forall f, i, l ensures LinkAt(parts', f, i, l) <==> LinkAt(parts, f, i, l) || (f == e && i == |c| && l == k) {
      if f == e && 0 <= i < |c| { assert Link(e, c + [d], i) == Link(e, c, i); }
    }
  }

  lemma AddedNodes(o: Original, parts: Parts, N: map<Node, NodeLabel>, e: Key, c: seq<Node>, d: Node, parts': Parts,
                   N': map<Node, NodeLabel>, n: NodeLabel)
    requires Proper(o) && WellFormed(o, parts) && Distinct(parts) && NodesAre(o, parts, N)
    requires e in parts && parts[e] == Part(c, 0, |c|) && d !in N && parts' == parts[e := Part(c + [d], 0, |c| + 1)]
    requires N' == N[d := n] && e in o.edges
      && n == DummyLabel(o.nodes[e.v].rank + 1 + |c|, o.edges[e], e, o.labels[o.edges[e]])
    ensures Distinct(parts') && NodesAre(o, parts', N')
  {
    GrowPart(parts, e, c, d, parts', Link(e, c + [d], |c|));
    forall f, i, x | At(parts, f, i, x) ensures x != d && At(parts', f, i, x) { assert DummyIn(o, N, f, i, x); }
    forall f, i, g, j, x | At(parts', f, i, x) && At(parts', g, j, x) ensures f == g && i == j {
      assert At(parts, f, i, x) || x == d;
      assert At(parts, g, j, x) || x == d;
    }
    forall f, i, x | At(parts', f, i, x) ensures DummyIn(o, N', f, i, x) {
      if At(parts, f, i, x) { assert DummyIn(o, N, f, i, x); }
    }
    forall x | x in N' && x !in o.nodes ensures IsDummy(parts', x) {
      if x == d {
        assert At(parts', e, |c|, d);
      } else {
        assert IsDummy(parts, x);
        var f, i :| At(parts, f, i, x);
        assert At(parts', f, i, x);
      }
    }
  }

  /** One more link k is made, for part e. */
  lemma AddedLink(o: Original, parts: Parts, whole: set<Key>, E: map<Key, Ref>, S: map<Ref, Attrs>, e: Key,
                  parts': Parts, k: Key, i0: int, E': map<Key, Ref>, r: Ref, S': map<Ref, Attrs>)
    requires Proper(o) && WellFormed(o, parts) && EdgesAre(o, parts, whole, E, S) && e in o.edges && k !in o.edges
      && !IsLink(parts, k)
    requires forall f, i, l :: LinkAt(parts', f, i, l) <==> LinkAt(parts, f, i, l) || (f == e && i == i0 && l == k)
    requires E' == E[k := r] && r !in o.labels && r !in S && r in S' && S'[r] == OnlyWeight(o.labels[o.edges[e]].weight)
    requires forall q :: q in S && q !in o.labels ==> q in S' && S'[q] == S[q]
    ensures EdgesAre(o, parts', whole, E', S')
  {
    forall f, i, l | LinkAt(parts', f, i, l) ensures LinkIn(o, E', S', f, l) {
      if l != k { assert LinkIn(o, E, S, f, l); }
    }
    forall l | l in E' && l !in whole ensures IsLink(parts', l) {
      if l == k {
        assert LinkAt(parts', e, i0, k);
      } else {
        assert IsLink(parts, l);
        var f, i :| LinkAt(parts, f, i, l);
        assert LinkAt(parts', f, i, l);
      }
    }
  }

  lemma LinkEndIsThere(o: Original, parts: Parts, N: map<Node, NodeLabel>, f: Key, i: int, k: Key)
    requires Proper(o) && WellFormed(o, parts) && NodesAre(o, parts, N) && LinkAt(parts, f, i, k)
    ensures k.w in N
  {
    var j := LinkHasDummy(parts, f, i, k);
    if i < |parts[f].c| { assert At(parts, f, i, k.w); }
  }

  /** No link ends in a node that is not there yet. */
  lemma NoLinkTo(o: Original, parts: Parts, N: map<Node, NodeLabel>, k: Key)
    requires Proper(o) && WellFormed(o, parts) && NodesAre(o, parts, N) && k.w !in N
    ensures !IsLink(parts, k)
  {
    if f, i :| LinkAt(parts, f, i, k) {
      LinkEndIsThere(o, parts, N, f, i, k);
    }
  }

  /** The link out of the last dummy of an open chain is not there yet. */
  lemma NoLinkFrom(o: Original, parts: Parts, N: map<Node, NodeLabel>, e: Key, c: seq<Node>, k: Key)
    requires Proper(o) && WellFormed(o, parts) && Distinct(parts) && NodesAre(o, parts, N)
    requires e in parts && parts[e] == Part(c, 0, |c|) && c != [] && k.v == c[|c| - 1]
    ensures !IsLink(parts, k) && k !in o.edges
  {
    assert At(parts, e, |c| - 1, k.v) && DummyIn(o, N, e, |c| - 1, k.v);
    if f, i :| LinkAt(parts, f, i, k) {
      var j := LinkHasDummy(parts, f, i, k);
    }
  }

  /** Nodes are as before when the chains have the same dummies. */
  lemma SameDummies(o: Original, parts: Parts, N: map<Node, NodeLabel>, parts': Parts)
    requires Proper(o) && Distinct(parts) && NodesAre(o, parts, N)
    requires forall f, i, x :: At(parts', f, i, x) <==> At(parts, f, i, x)
    ensures Distinct(parts') && NodesAre(o, parts', N)
  {
    forall x | x in N && x !in o.nodes ensures IsDummy(parts', x) {
      assert IsDummy(parts, x);
      var f, i :| At(parts, f, i, x);
      assert At(parts', f, i, x);
    }
  }

  /** The next dummy of e's chain. */
  lemma AddDummy(o: Original, parts: Parts, whole: set<Key>, lab: map<Key, Attrs>, N: map<Node, NodeLabel>,
                 E: map<Key, Ref>, S: map<Ref, Attrs>,
                 e: Key, c: seq<Node>, d: Node, n: NodeLabel, k: Key, r: Ref, c': seq<Node>,
                 parts': Parts, lab': map<Key, Attrs>, N': map<Node, NodeLabel>, E': map<Key, Ref>, S': map<Ref, Attrs>)
    requires State(o, parts, whole, lab, N, E, S) && e in parts && parts[e] == Part(c, 0, |c|) && d !in N && r !in S
      && r !in o.labels
    requires c' == c + [d] && k == Link(e, c', |c|) && parts' == parts[e := Part(c', 0, |c'|)]
    requires n == DummyLabel(o.nodes[e.v].rank + 1 + |c|, o.edges[e], e, o.labels[o.edges[e]]) && N' == N[d := n]
      && E' == E[k := r]
    requires lab' == lab[e := lab[e].(points := Some([]))]
    requires S' == S[o.edges[e] := S[o.edges[e]].(points := Some([]))][r := OnlyWeight(o.labels[o.edges[e]].weight)]
    ensures State(o, parts', whole, lab', N', E', S')
  {
    AddedNodes(o, parts, N, e, c, d, parts', N', n);
    GrowPart(parts, e, c, d, parts', k);
    assert k.w == d;
    NoLinkTo(o, parts, N, k);
    AddedLink(o, parts, whole, E, S, e, parts', k, |c|, E', r, S');
    LabelChanged(o, lab, S, e, lab[e].(points := Some([])), lab', r, OnlyWeight(o.labels[o.edges[e]].weight), S');
    assert PartOk(Part(c', 0, |c'|));
  }

  /** One label is changed, and one new one is made. */
  lemma LabelChanged(o: Original, lab: map<Key, Attrs>, S: map<Ref, Attrs>, e: Key, a: Attrs, lab': map<Key, Attrs>,
                     r: Ref, made: Attrs, S': map<Ref, Attrs>)
    requires Proper(o) && LabelsAre(o, lab, S) && e in o.edges && r !in o.labels
    requires lab' == lab[e := a] && S' == S[o.edges[e] := a][r := made]
    ensures LabelsAre(o, lab', S')
  {
  }

  /** The last link, to the far end. */
  lemma CloseChain(o: Original, parts: Parts, whole: set<Key>, lab: map<Key, Attrs>, N: map<Node, NodeLabel>,
                   E: map<Key, Ref>, S: map<Ref, Attrs>,
                   e: Key, c: seq<Node>, k: Key, r: Ref, parts': Parts, E': map<Key, Ref>, S': map<Ref, Attrs>)
    requires State(o, parts, whole, lab, N, E, S) && e in parts && parts[e] == Part(c, 0, |c|) && c != [] && r !in S
      && r !in o.labels
    requires k == Link(e, c, |c|) && parts' == parts[e := Part(c, 0, |c| + 1)] && E' == E[k := r]
    requires S' == S[r := OnlyWeight(o.labels[o.edges[e]].weight)]
    ensures State(o, parts', whole, lab, N, E', S')
  {
    forall f, i, x ensures At(parts', f, i, x) <==> At(parts, f, i, x) {}
    SameDummies(o, parts, N, parts');
    NoLinkFrom(o, parts, N, e, c, k);
    forall f, i, l ensures LinkAt(parts', f, i, l) <==> LinkAt(parts, f, i, l) || (f == e && i == |c| && l == k) {}
    AddedLink(o, parts, whole, E, S, e, parts', k, |c|, E', r, S');
  }

  // ----- the mutable graph -----

  /** The state, kept out of sight of proofs that only hand it on. */
  ghost predicate Sealed(o: Original, parts: Parts, whole: set<Key>, lab: map<Key, Attrs>, N: map<Node, NodeLabel>,
                         E: map<Key, Ref>, S: map<Ref, Attrs>) {
    && Proper(o) && o.edges.Keys <= lab.Keys && parts.Keys <= o.edges.Keys
    && forall k {:trigger Look(k)} :: Look(k) ==> State(o, parts, whole, lab, N, E, S)
  }

  lemma EdgeIsThere(o: Original, parts: Parts, whole: set<Key>, lab: map<Key, Attrs>, N: map<Node, NodeLabel>,
                    E: map<Key, Ref>, S: map<Ref, Attrs>, e: Key)
    requires Sealed(o, parts, whole, lab, N, E, S) && e in whole
    ensures e in o.edges && e in E && E[e] == o.edges[e] && e.v in N && e.w in N && N[e.v] == o.nodes[e.v]
      && N[e.w] == o.nodes[e.w]
    ensures E[e] in S && S[E[e]] == lab[e]
  {
    assert Look(0);
  }

  class LayoutState {
    var nodes: map<Node, NodeLabel>
    var edges: map<Key, Ref>
    var labels: map<Ref, Attrs>
    var dummyChains: seq<Node>
    var position: map<Node, Point>
    var nextId: nat
    var nextRef: nat

    constructor (o: Original, nextId: nat, nextRef: nat)
      ensures nodes == o.nodes && edges == o.edges && labels == o.labels && dummyChains == [] && position == map[]
      ensures this.nextId == nextId && this.nextRef == nextRef
    {
      nodes, edges, labels, dummyChains, position := o.nodes, o.edges, o.labels, [], map[];
      this.nextId, this.nextRef := nextId, nextRef;
    }

    ghost predicate Holds(o: Original, parts: Parts, whole: set<Key>, lab: map<Key, Attrs>)
      reads this
    {
      Sealed(o, parts, whole, lab, nodes, edges, labels) && o.labels.Keys <= labels.Keys
        && forall r :: r in labels ==> r < nextRef
    }

    /** Counts on until a name is free. */
    method AddDummyNode(n: NodeLabel) returns (v: Node)
      modifies this`nodes, this`nextId
      ensures v !in old(nodes) && nodes == old(nodes)[v := n]
    {
      while Node(nextId) in nodes
        invariant nodes == old(nodes)
        decreases |set x | x in nodes && x.id >= nextId|
      {
        ghost var above, above' := set x | x in nodes && x.id >= nextId, set x | x in nodes && x.id >= nextId + 1;
        SizeMonotone(above', above - {Node(nextId)});
        nextId := nextId + 1;
      }
      v := Node(nextId);
      nodes := nodes[v := n];
    }

    method SetLink(k: Key, weight: int)
      modifies this`edges, this`labels, this`nextRef
      ensures edges == old(edges)[k := old(nextRef)] && labels == old(labels)[old(nextRef) := OnlyWeight(weight)]
        && nextRef == old(nextRef) + 1
    {
      labels := labels[nextRef := OnlyWeight(weight)];
      edges := edges[k := nextRef];
      nextRef := nextRef + 1;
    }

    /** One more dummy at the end of e's chain c. */
    method AppendDummy(e: Key, r: Ref, rank: int, v: Node, ghost o: Original, ghost parts: Parts, ghost whole: set<Key>,
                       ghost lab: map<Key, Attrs>, ghost c: seq<Node>)
      returns (d: Node, ghost parts': Parts, ghost lab': map<Key, Attrs>)
      requires Holds(o, parts, whole, lab) && e in parts && parts[e] == Part(c, 0, |c|) && r == o.edges[e]
        && lab[e].(points := None) == o.labels[r].(points := None)
      requires rank == o.nodes[e.v].rank + 1 + |c| && v == EndOf(e, c)
      modifies this`nodes, this`edges, this`labels, this`nextId, this`nextRef
      ensures Holds(o, parts', whole, lab') && parts' == parts[e := Part(c + [d], 0, |c| + 1)]
        && lab' == lab[e := lab[e].(points := Some([]))]
    {
      assert Look(0);
      ghost var N, E, S := nodes, edges, labels;
      var attrs := labels[r];
      labels := labels[r := attrs.(points := Some([]))];
      d := AddDummyNode(DummyLabel(rank, r, e, attrs));
      ghost var k, c' := Link(e, c + [d], |c|), c + [d];
      ghost var q := nextRef;
      SetLink(Key(v, d, e.name), attrs.weight);
      assert Key(v, d, e.name) == k;
      parts', lab' := parts[e := Part(c', 0, |c'|)], lab[e := lab[e].(points := Some([]))];
      AddDummy(o, parts, whole, lab, N, E, S, e, c, d, DummyLabel(rank, r, e, attrs), k, q, c', parts', lab', nodes,
               edges, labels);
    }

    method OpenEdge(e: Key, ghost o: Original, ghost parts: Parts, ghost whole: set<Key>, ghost lab: map<Key, Attrs>)
      returns (ghost parts': Parts, ghost whole': set<Key>)
      requires Holds(o, parts, whole, lab) && e in whole && e !in parts
      modifies this`edges
      ensures Holds(o, parts', whole', lab) && whole' == whole - {e} && parts' == parts[e := Part([], 0, 0)]
    {
      assert Look(0);
      ghost var E := edges;
      edges := edges - {e};
      whole', parts' := whole - {e}, parts[e := Part([], 0, 0)];
      OpenChain(o, parts, whole, lab, nodes, E, labels, e, parts', whole', edges);
    }

    method CloseEdge(e: Key, r: Ref, v: Node, ghost o: Original, ghost parts: Parts, ghost whole: set<Key>,
                     ghost lab: map<Key, Attrs>, ghost c: seq<Node>)
      returns (ghost parts': Parts)
      requires Holds(o, parts, whole, lab) && e in parts && parts[e] == Part(c, 0, |c|) && c != [] && v == EndOf(e, c)
      requires r == o.edges[e] && lab[e].weight == o.labels[r].weight
      modifies this`edges, this`labels, this`nextRef
      ensures Holds(o, parts', whole, lab) && parts' == parts[e := Part(c, 0, |c| + 1)]
    {
      assert Look(0);
      ghost var E, S, q, k := edges, labels, nextRef, Link(e, c, |c|);
      SetLink(Key(v, e.w, e.name), labels[r].weight);
      parts' := parts[e := Part(c, 0, |c| + 1)];
      CloseChain(o, parts, whole, lab, nodes, E, S, e, c, k, q, parts', edges, labels);
    }

    /** The dummies of e, from the rank after its tail to the rank before its head. */
    method AppendDummies(e: Key, r: Ref, from: int, wRank: int, ghost o: Original, ghost parts: Parts,
                         ghost whole: set<Key>, ghost lab: map<Key, Attrs>)
      returns (v: Node, ghost parts': Parts, ghost lab': map<Key, Attrs>, ghost c: seq<Node>)
      requires Holds(o, parts, whole, lab) && e in parts && parts[e] == Part([], 0, 0) && r == o.edges[e]
        && lab[e] == o.labels[r]
      requires from == o.nodes[e.v].rank + 1 < wRank
      modifies this`nodes, this`edges, this`labels, this`nextId, this`nextRef, this`dummyChains
      ensures Holds(o, parts', whole, lab') && c != [] && parts' == parts[e := Part(c, 0, |c|)] && |c| == wRank - from
      ensures lab' == lab[e := lab[e].(points := Some([]))] && v == c[|c| - 1]
        && dummyChains == old(dummyChains) + [c[0]]
    {
      c, parts', lab', v := [], parts, lab, e.v;
      ghost var pointed := lab[e].(points := Some([]));
      var vRank, i := from, 0;
      while vRank < wRank
        invariant Holds(o, parts', whole, lab') && parts' == parts[e := Part(c, 0, |c|)] && i == |c|
        invariant vRank == from + |c| && vRank <= wRank && v == EndOf(e, c)
        invariant lab' == if c == [] then lab else lab[e := pointed]
        invariant dummyChains == if c == [] then old(dummyChains) else old(dummyChains) + [c[0]]
        decreases wRank - vRank
      {
        var d;
        ghost var p, p' := Part(c, 0, |c|), Part(c, 0, |c|);
        d, parts', lab' := AppendDummy(e, r, vRank, v, o, parts', whole, lab', c);
        c := c + [d];
        p' := Part(c, 0, |c|);
        UpdateTwice(parts, e, p, p');
        UpdateTwice(lab, e, pointed, pointed);
        if i == 0 { dummyChains := dummyChains + [d]; }
        v := d;
        i, vRank := i + 1, vRank + 1;
      }
    }

    /** Splits one edge if it spans more than one rank. */
    method NormalizeEdge(e: Key, ghost o: Original, ghost parts: Parts, ghost whole: set<Key>,
                         ghost lab: map<Key, Attrs>)
      returns (ghost parts': Parts, ghost whole': set<Key>, ghost lab': map<Key, Attrs>)
      requires Holds(o, parts, whole, lab) && e in whole && e in o.edges && e !in parts
        && lab[e] == o.labels[o.edges[e]]
      modifies this`nodes, this`edges, this`labels, this`nextId, this`nextRef, this`dummyChains
      ensures Holds(o, parts', whole', lab')
      ensures Gap(o, e) == 0 ==> parts' == parts && whole' == whole && lab' == lab && dummyChains == old(dummyChains)
      ensures Gap(o, e) > 0 ==>
        whole' == whole - {e} && lab' == lab[e := lab[e].(points := Some([]))] && parts'.Keys == parts.Keys + {e}
      ensures Gap(o, e) > 0 ==> Complete(o, e, parts'[e]) && dummyChains == old(dummyChains) + [parts'[e].c[0]]
      ensures forall f :: f in parts ==> f in parts' && parts'[f] == parts[f]
    {
      EdgeIsThere(o, parts, whole, lab, nodes, edges, labels, e);
      var r := edges[e];
      var vRank, wRank := nodes[e.v].rank, nodes[e.w].rank;
      parts', whole', lab' := parts, whole, lab;
      if wRank == vRank + 1 { return; }
      parts', whole' := OpenEdge(e, o, parts, whole, lab);
      ghost var parts1, parts2, c := parts', parts', [];
      var v;
      v, parts2, lab', c := AppendDummies(e, r, vRank + 1, wRank, o, parts1, whole', lab);
      parts' := CloseEdge(e, r, v, o, parts2, whole', lab', c);
      SameSet(parts'.Keys, parts.Keys + {e});
    }
  }

  /** The chain of e has a dummy for every rank between its ends. */
  ghost predicate Complete(o: Original, e: Key, p: Part)
    requires Proper(o) && e in o.edges
  {
    p.from == 0 && |p.c| == Gap(o, e) && p.c != [] && p.upto == |p.c| + 1
  }

  // ----- run -----

  /** All edges but those in todo have been looked at. */
  ghost predicate SplitBut(o: Original, parts: Parts, whole: set<Key>, lab: map<Key, Attrs>, todo: set<Key>)
    requires Proper(o)
  {
    && parts.Keys <= o.edges.Keys && whole <= o.edges.Keys
    && (forall e {:trigger Treated(o, parts, whole, lab, todo, e)} :: e in o.edges ==>
        Treated(o, parts, whole, lab, todo, e))
  }

  ghost predicate Treated(o: Original, parts: Parts, whole: set<Key>, lab: map<Key, Attrs>, todo: set<Key>, e: Key)
    requires Proper(o) && e in o.edges
  {
    && (e in parts <==> e !in todo && Gap(o, e) > 0) && (e in whole <==> e !in parts)
    && (e in parts ==> Complete(o, e, parts[e]))
    && e in lab && lab[e] == if e in parts then o.labels[o.edges[e]].(points := Some([])) else o.labels[o.edges[e]]
  }

  /** chains lists the first dummies of all chains, keys the edges they belong to. */
  ghost predicate Starts(parts: Parts, keys: seq<Key>, chains: seq<Node>) {
    && |keys| == |chains| && (forall e :: e in parts <==> e in keys)
    && (forall i :: 0 <= i < |keys| ==> keys[i] in parts && parts[keys[i]].c != [] && chains[i] == parts[keys[i]].c[0])
    && (forall i, j :: 0 <= i < j < |keys| ==> keys[i] != keys[j])
  }

  lemma TreatOne(o: Original, parts: Parts, whole: set<Key>, lab: map<Key, Attrs>, todo: set<Key>, e: Key,
                 parts': Parts, whole': set<Key>, lab': map<Key, Attrs>, todo': set<Key>)
    requires Proper(o) && SplitBut(o, parts, whole, lab, todo) && e in todo && e in o.edges && e in lab
      && todo' == todo - {e}
    requires Gap(o, e) == 0 ==> parts' == parts && whole' == whole && lab' == lab
    requires Gap(o, e) > 0 ==>
      whole' == whole - {e} && lab' == lab[e := lab[e].(points := Some([]))] && parts'.Keys == parts.Keys + {e}
    requires Gap(o, e) > 0 ==> Complete(o, e, parts'[e])
    requires forall f :: f in parts ==> f in parts' && parts'[f] == parts[f]
    ensures SplitBut(o, parts', whole', lab', todo')
  {
    assert Treated(o, parts, whole, lab, todo, e);
    forall f | f in o.edges ensures Treated(o, parts', whole', lab', todo', f) {
      assert Treated(o, parts, whole, lab, todo, f);
    }
  }

  lemma StartOne(parts: Parts, keys: seq<Key>, chains: seq<Node>, e: Key, parts': Parts, keys': seq<Key>,
                 chains': seq<Node>)
    requires Starts(parts, keys, chains) && e !in parts && parts'.Keys == parts.Keys + {e} && parts'[e].c != []
    requires forall f :: f in parts ==> f in parts' && parts'[f] == parts[f]
    requires keys' == keys + [e] && chains' == chains + [parts'[e].c[0]]
    ensures Starts(parts', keys', chains')
  {
    assert forall f :: f in keys' <==> f in keys || f == e;
    assert forall i :: 0 <= i < |keys| ==> keys[i] in keys;
  }

  lemma NothingSplit(o: Original, whole: set<Key>, lab: map<Key, Attrs>)
    requires Proper(o) && whole == o.edges.Keys && lab == map e | e in o.edges :: o.labels[o.edges[e]]
    ensures State(o, map[], whole, lab, o.nodes, o.edges, o.labels) && SplitBut(o, map[], whole, lab, o.edges.Keys)
  {
  }

  /** Splits every long edge. */
  method Run(g: LayoutState, ghost o: Original)
    returns (ghost parts: Parts, ghost whole: set<Key>, ghost lab: map<Key, Attrs>, ghost keys: seq<Key>)
    requires Proper(o) && g.nodes == o.nodes && g.edges == o.edges && g.labels == o.labels
      && forall r :: r in g.labels ==> r < g.nextRef
    modifies g
    ensures g.Holds(o, parts, whole, lab) && SplitBut(o, parts, whole, lab, {}) && Starts(parts, keys, g.dummyChains)
    ensures g.position == old(g.position)
    ensures forall k :: k in g.edges ==> SpansOneRank(g.nodes, k)
  {
    g.dummyChains := [];
    parts, whole, lab, keys := map[], o.edges.Keys, map e | e in o.edges :: o.labels[o.edges[e]], [];
    NothingSplit(o, whole, lab);
    var todo := g.edges.Keys;
    while todo != {}
      invariant todo <= o.edges.Keys && g.Holds(o, parts, whole, lab) && SplitBut(o, parts, whole, lab, todo)
      invariant Starts(parts, keys, g.dummyChains) && g.position == old(g.position)
      decreases todo
    {
      var e :| e in todo;
      assert Treated(o, parts, whole, lab, todo, e);
      ghost var parts0, whole0, lab0, todo0, chains0, keys0 := parts, whole, lab, todo, g.dummyChains, keys;
      todo := todo - {e};
      parts, whole, lab := g.NormalizeEdge(e, o, parts, whole, lab);
      TreatOne(o, parts0, whole0, lab0, todo0, e, parts, whole, lab, todo);
      if Gap(o, e) > 0 {
        keys := keys + [e];
        StartOne(parts0, keys0, chains0, e, parts, keys, g.dummyChains);
      }
    }
    EdgesSpanOneRank(o, parts, whole, lab, g.nodes, g.edges, g.labels, todo);
  }

  ghost predicate SpansOneRank(N: map<Node, NodeLabel>, k: Key) {
    k.v in N && k.w in N && N[k.w].rank == N[k.v].rank + 1
  }

  /** Afterwards every edge leads from its rank to the next. */
  lemma EdgesSpanOneRank(o: Original, parts: Parts, whole: set<Key>, lab: map<Key, Attrs>, N: map<Node, NodeLabel>,
                         E: map<Key, Ref>, S: map<Ref, Attrs>, none: set<Key>)
    requires Sealed(o, parts, whole, lab, N, E, S) && SplitBut(o, parts, whole, lab, none) && none == {}
    ensures forall k :: k in E ==> SpansOneRank(N, k)
  {
    assert Look(0);
    forall k | k in E ensures SpansOneRank(N, k) {
      if k in whole {
        assert Treated(o, parts, whole, lab, none, k);
      } else {
        assert IsLink(parts, k);
        var e, i :| LinkAt(parts, e, i, k);
        assert Treated(o, parts, whole, lab, none, e);
        var j := LinkHasDummy(parts, e, i, k);
        if i < |parts[e].c| { assert At(parts, e, i, k.w); }
      }
    }
  }

  // ----- undo -----

  /** The edge itself comes back, while its chain is still there. */
  lemma PutBack(o: Original, parts: Parts, whole: set<Key>, lab: map<Key, Attrs>, N: map<Node, NodeLabel>,
                E: map<Key, Ref>, S: map<Ref, Attrs>,
                e: Key, whole': set<Key>, E': map<Key, Ref>)
    requires State(o, parts, whole, lab, N, E, S) && e in o.edges && whole' == whole + {e} && E' == E[e := o.edges[e]]
    ensures State(o, parts, whole', lab, N, E', S)
  {
    forall f, i, k | LinkAt(parts, f, i, k) ensures LinkIn(o, E', S, f, k) {
      assert LinkIn(o, E, S, f, k) && IsLink(parts, k);
      LinkIsNew(o, parts, N, k);
    }
  }

  /** What changes when the first dummy that is left of e's chain is taken away. */
  lemma ShrinkPart(o: Original, parts: Parts, N: map<Node, NodeLabel>, e: Key, c: seq<Node>, n: nat, parts': Parts)
    requires Proper(o) && WellFormed(o, parts) && Distinct(parts) && NodesAre(o, parts, N)
    requires e in parts && n < |c| && parts[e] == Part(c, n, |c| + 1) && parts' == parts[e := Part(c, n + 1, |c| + 1)]
    ensures forall f, i, x :: At(parts', f, i, x) <==> At(parts, f, i, x) && x != c[n]
    ensures forall f, i, k :: LinkAt(parts', f, i, k) <==> LinkAt(parts, f, i, k) && k.v != c[n] && k.w != c[n]
  {
    assert At(parts, e, n, c[n]) && DummyIn(o, N, e, n, c[n]);
    forall f, i, x ensures At(parts', f, i, x) <==> At(parts, f, i, x) && x != c[n] {}
    forall f, i, k ensures LinkAt(parts', f, i, k) <==> LinkAt(parts, f, i, k) && k.v != c[n] && k.w != c[n] {
      if LinkAt(parts, f, i, k) {
        var j := LinkHasDummy(parts, f, i, k);
        assert k.v == c[n] ==> At(parts, f, j, c[n]);
        assert i < |parts[f].c| ==> At(parts, f, i, k.w);
      }
    }
  }

  lemma RemovedEdges(o: Original, parts: Parts, whole: set<Key>, N: map<Node, NodeLabel>, E: map<Key, Ref>,
                     S: map<Ref, Attrs>, x: Node, parts': Parts, E': map<Key, Ref>, S': map<Ref, Attrs>)
    requires Proper(o) && EdgesAre(o, parts, whole, E, S) && x !in o.nodes
    requires forall f, i, k :: LinkAt(parts', f, i, k) <==> LinkAt(parts, f, i, k) && k.v != x && k.w != x
    requires E' == map k | k in E && k.v != x && k.w != x :: E[k]
    requires forall q :: q in S && q !in o.labels ==> q in S' && S'[q] == S[q]
    ensures EdgesAre(o, parts', whole, E', S')
  {
    forall e | e in whole ensures e in E' {
      assert Forward(o, e);
    }
    forall f, i, k | LinkAt(parts', f, i, k) ensures LinkIn(o, E', S', f, k) {
      assert LinkAt(parts, f, i, k) && LinkIn(o, E, S, f, k);
    }
    forall k | k in E' && k !in whole ensures IsLink(parts', k) {
      assert IsLink(parts, k);
      var f, i :| LinkAt(parts, f, i, k);
      assert LinkAt(parts', f, i, k);
    }
  }

  lemma RemovedNode(o: Original, parts: Parts, N: map<Node, NodeLabel>, x: Node, parts': Parts,
                    N': map<Node, NodeLabel>)
    requires Proper(o) && Distinct(parts) && NodesAre(o, parts, N) && x !in o.nodes && N' == N - {x}
    requires forall f, i, y :: At(parts', f, i, y) <==> At(parts, f, i, y) && y != x
    ensures Distinct(parts') && NodesAre(o, parts', N')
  {
    forall f, i, y | At(parts', f, i, y) ensures DummyIn(o, N', f, i, y) {
      assert DummyIn(o, N, f, i, y);
    }
    forall y | y in N' && y !in o.nodes ensures IsDummy(parts', y) {
      assert IsDummy(parts, y);
      var f, i :| At(parts, f, i, y);
      assert At(parts', f, i, y);
    }
  }

  /** The next dummy of the chain is taken away with its links, and its place is noted in the edge's label. */
  lemma DropDummy(o: Original, parts: Parts, whole: set<Key>, lab: map<Key, Attrs>, N: map<Node, NodeLabel>,
                  E: map<Key, Ref>, S: map<Ref, Attrs>,
                  e: Key, c: seq<Node>, n: nat, x: Node, a: Attrs, parts': Parts, lab': map<Key, Attrs>,
                  N': map<Node, NodeLabel>, E': map<Key, Ref>, S': map<Ref, Attrs>)
    requires State(o, parts, whole, lab, N, E, S) && e in parts && n < |c| && parts[e] == Part(c, n, |c| + 1)
      && x == c[n]
    requires parts' == parts[e := Part(c, n + 1, |c| + 1)] && N' == N - {x} && E' == map k | k in E && k.v != x
      && k.w != x :: E[k]
    requires lab' == lab[e := a] && S' == S[o.edges[e] := a]
    ensures State(o, parts', whole, lab', N', E', S')
  {
    assert At(parts, e, n, x) && DummyIn(o, N, e, n, x);
    ShrinkPart(o, parts, N, e, c, n, parts');
    RemovedNode(o, parts, N, x, parts', N');
    RemovedEdges(o, parts, whole, N, E, S, x, parts', E', S');
  }

  /** A dummy has one edge out, to what follows it in its chain. */
  lemma OneSuccessor(o: Original, parts: Parts, whole: set<Key>, lab: map<Key, Attrs>, N: map<Node, NodeLabel>,
                     E: map<Key, Ref>, S: map<Ref, Attrs>, e: Key, c: seq<Node>, n: nat, w: Node)
    requires State(o, parts, whole, lab, N, E, S) && e in parts && n < |c| && parts[e] == Part(c, n, |c| + 1)
    requires w == if n + 1 < |c| then c[n + 1] else e.w
    ensures exists k :: k in E && k.v == c[n] && k.w == w
    ensures forall k :: k in E && k.v == c[n] ==> k.w == w
    ensures w in N && (N[w].Dummy? <==> n + 1 < |c|)
  {
    assert At(parts, e, n, c[n]) && DummyIn(o, N, e, n, c[n]);
    assert LinkAt(parts, e, n + 1, Link(e, c, n + 1));
    assert Link(e, c, n + 1).v == c[n] && Link(e, c, n + 1).w == w;
    forall k | k in E && k.v == c[n] ensures k.w == w {
      assert k in whole ==> Forward(o, k);
      assert IsLink(parts, k);
      var f, i :| LinkAt(parts, f, i, k);
      var j := LinkHasDummy(parts, f, i, k);
      assert i > 0 ==> At(parts, f, i - 1, c[n]);
      assert i == 0 ==> Forward(o, f);
    }
    if n + 1 < |c| { assert At(parts, e, n + 1, w); } else { assert Forward(o, e); }
  }

  ghost predicate Placed(c: seq<Node>, position: map<Node, Point>) {
    forall i :: 0 <= i < |c| ==> c[i] in position
  }

  function WithPoint(a: Attrs, node: NodeLabel, p: Point): Attrs {
    var b := a.(points := Some((if a.points.Some? then a.points.value else []) + [p]));
    if node.Dummy? && node.kind == LabelDummy then b.(at := Some(p), box := node.box) else b
  }

  /** e's label once the first n dummies of its chain have been taken back. */
  ghost function Walked(o: Original, e: Key, c: seq<Node>, position: map<Node, Point>, n: nat): Attrs
    requires Proper(o) && e in o.edges && n <= |c| && Placed(c, position)
  {
    var a := o.labels[o.edges[e]];
    if n == 0 then a.(points := Some([]))
    else WithPoint(Walked(o, e, c, position, n - 1), DummyLabel(o.nodes[e.v].rank + n, o.edges[e], e, a),
                   position[c[n - 1]])
  }

  /** The places of the first n nodes of c. */
  ghost function PointsAlong(c: seq<Node>, position: map<Node, Point>, n: nat): seq<Point>
    requires n <= |c| && Placed(c, position)
  {
    seq(n, i requires 0 <= i < n => position[c[i]])
  }

  /** The edge gets one point for each rank it passes, in the order of ranks, and its label's place if it
      has one on the way; nothing else of its label has changed. */
  lemma {:induction false} WalkedIsExact(o: Original, e: Key, c: seq<Node>, position: map<Node, Point>, n: nat)
    requires Proper(o) && e in o.edges && n <= |c| && Placed(c, position)
    ensures var a, b := o.labels[o.edges[e]], Walked(o, e, c, position, n);
      && b.points == Some(PointsAlong(c, position, n))
      && b == a.(points := b.points, at := b.at)
      && var k := if a.labelRank.Some? then a.labelRank.value - o.nodes[e.v].rank - 1 else -1;
         b.at == if 0 <= k < n then Some(position[c[k]]) else a.at
  {
    if n > 0 {
      WalkedIsExact(o, e, c, position, n - 1);
      assert PointsAlong(c, position, n) == PointsAlong(c, position, n - 1) + [position[c[n - 1]]];
    }
  }

  /** Takes back the dummy v at place n of e's chain; w is what follows it. */
  method TakeBack(g: LayoutState, v: Node, r: Ref, ghost o: Original, ghost parts: Parts, ghost whole: set<Key>,
                  ghost lab: map<Key, Attrs>, ghost e: Key, ghost c: seq<Node>, ghost n: nat)
    returns (w: Node, ghost parts': Parts, ghost lab': map<Key, Attrs>)
    requires g.Holds(o, parts, whole, lab) && e in parts && n < |c| && parts[e] == Part(c, n, |c| + 1) && v == c[n]
      && r == o.edges[e]
    requires v in g.position
    modifies g`nodes, g`edges, g`labels
    ensures g.Holds(o, parts', whole, lab') && parts' == parts[e := Part(c, n + 1, |c| + 1)]
    ensures lab' == lab[e := WithPoint(lab[e], DummyLabel(o.nodes[e.v].rank + n + 1, r, e, o.labels[r]), g.position[v])]
    ensures if n + 1 < |c| then w == c[n + 1] && w in g.nodes && g.nodes[w].Dummy?
      else w in g.nodes && !g.nodes[w].Dummy?
  {
    assert Look(0);
    ghost var N, E, S := g.nodes, g.edges, g.labels;
    OneSuccessor(o, parts, whole, lab, N, E, S, e, c, n, if n + 1 < |c| then c[n + 1] else e.w);
    assert At(parts, e, n, v) && DummyIn(o, N, e, n, v);
    var node := g.nodes[v];
    var k :| k in g.edges && k.v == v;
    w := k.w;
    g.nodes := g.nodes - {v};
    g.edges := map k | k in g.edges && k.v != v && k.w != v :: g.edges[k];
    ghost var a := WithPoint(lab[e], node, g.position[v]);
    g.labels := g.labels[r := WithPoint(g.labels[r], node, g.position[v])];
    parts', lab' := parts[e := Part(c, n + 1, |c| + 1)], lab[e := a];
    DropDummy(o, parts, whole, lab, N, E, S, e, c, n, v, a, parts', lab', g.nodes, g.edges, g.labels);
    if n + 1 < |c| { assert At(parts', e, n + 1, w); } else { assert Forward(o, e); }
  }

  lemma FirstDummy(o: Original, parts: Parts, whole: set<Key>, lab: map<Key, Attrs>, N: map<Node, NodeLabel>,
                   E: map<Key, Ref>, S: map<Ref, Attrs>, e: Key, c: seq<Node>)
    requires Sealed(o, parts, whole, lab, N, E, S) && e in parts && c != [] && parts[e] == Part(c, 0, |c| + 1)
    ensures c[0] in N && N[c[0]].Dummy? && N[c[0]].edgeObj == e && N[c[0]].edgeLabel == o.edges[e]
  {
    assert Look(0);
    assert At(parts, e, 0, c[0]) && DummyIn(o, N, e, 0, c[0]);
  }

  method PutEdgeBack(g: LayoutState, e: Key, r: Ref, ghost o: Original, ghost parts: Parts, ghost whole: set<Key>,
                     ghost lab: map<Key, Attrs>) returns (ghost whole': set<Key>)
    requires g.Holds(o, parts, whole, lab) && e in o.edges && r == o.edges[e]
    modifies g`edges
    ensures g.Holds(o, parts, whole', lab) && whole' == whole + {e}
  {
    assert Look(0);
    ghost var E := g.edges;
    g.edges := g.edges[e := r];
    whole' := whole + {e};
    PutBack(o, parts, whole, lab, g.nodes, E, g.labels, e, whole', g.edges);
  }

  /** Takes back the chain that begins with v. */
  method UndoChain(g: LayoutState, start: Node, ghost o: Original, ghost parts: Parts, ghost whole: set<Key>,
                   ghost lab: map<Key, Attrs>, ghost e: Key, ghost c: seq<Node>)
    returns (ghost parts': Parts, ghost whole': set<Key>, ghost lab': map<Key, Attrs>)
    requires g.Holds(o, parts, whole, lab) && e in parts && c != [] && start == c[0] && parts[e] == Part(c, 0, |c| + 1)
    requires Placed(c, g.position) && lab[e] == Walked(o, e, c, g.position, 0)
    modifies g`nodes, g`edges, g`labels
    ensures g.Holds(o, parts', whole', lab') && parts' == parts[e := Part(c, |c|, |c| + 1)] && whole' == whole + {e}
    ensures lab' == lab[e := Walked(o, e, c, g.position, |c|)]
  {
    FirstDummy(o, parts, whole, lab, g.nodes, g.edges, g.labels, e, c);
    var v := start;
    var r := g.nodes[v].edgeLabel;
    whole' := PutEdgeBack(g, g.nodes[v].edgeObj, r, o, parts, whole, lab);
    parts', lab' := UnwindChain(g, v, r, o, parts, whole', lab, e, c);
  }

  method UnwindChain(g: LayoutState, start: Node, r: Ref, ghost o: Original, ghost parts: Parts, ghost whole: set<Key>,
                     ghost lab: map<Key, Attrs>, ghost e: Key, ghost c: seq<Node>)
    returns (ghost parts': Parts, ghost lab': map<Key, Attrs>)
    requires g.Holds(o, parts, whole, lab) && e in parts && c != [] && start == c[0] && parts[e] == Part(c, 0, |c| + 1)
      && r == o.edges[e]
    requires Placed(c, g.position) && lab[e] == Walked(o, e, c, g.position, 0) && start in g.nodes
      && g.nodes[start].Dummy?
    modifies g`nodes, g`edges, g`labels
    ensures g.Holds(o, parts', whole, lab') && parts' == parts[e := Part(c, |c|, |c| + 1)]
    ensures lab' == lab[e := Walked(o, e, c, g.position, |c|)]
  {
    var v := start;
    parts', lab' := parts, lab;
    ghost var n: nat := 0;
    while g.nodes[v].Dummy?
      invariant g.Holds(o, parts', whole, lab') && n <= |c| && v in g.nodes && (g.nodes[v].Dummy? <==> n < |c|)
        && (n < |c| ==> v == c[n])
      invariant parts' == parts[e := Part(c, n, |c| + 1)] && lab' == lab[e := Walked(o, e, c, g.position, n)]
      decreases |c| - n
    {
      ghost var a := Walked(o, e, c, g.position, n);
      ghost var a' := Walked(o, e, c, g.position, n + 1);
      v, parts', lab' := TakeBack(g, v, r, o, parts', whole, lab', e, c, n);
      UpdateTwice(parts, e, Part(c, n, |c| + 1), Part(c, n + 1, |c| + 1));
      UpdateTwice(lab, e, a, a');
      n := n + 1;
    }
  }

  /** The first i chains have been taken back; P and L are the chains and labels before. */
  ghost predicate Undone(o: Original, P: Parts, L: map<Key, Attrs>, position: map<Node, Point>, keys: seq<Key>, i: nat,
                         parts: Parts, whole: set<Key>, lab: map<Key, Attrs>)
    requires Proper(o) && i <= |keys|
  {
    && parts.Keys == P.Keys && P.Keys <= o.edges.Keys
    && (forall e {:trigger BackOrNot(o, P, L, position, keys[..i], parts, whole, lab, e)} :: e in o.edges ==>
        BackOrNot(o, P, L, position, keys[..i], parts, whole, lab, e))
  }

  ghost predicate BackOrNot(o: Original, P: Parts, L: map<Key, Attrs>, position: map<Node, Point>, back: seq<Key>,
                            parts: Parts, whole: set<Key>, lab: map<Key, Attrs>, e: Key)
    requires Proper(o) && e in o.edges
  {
    && e in L && e in lab && (e in parts <==> e in P) && (e in whole <==> e !in P || e in back)
    && if e in P && e in back then
        Placed(P[e].c, position) && parts[e] == Part(P[e].c, |P[e].c|, |P[e].c| + 1)
          && lab[e] == Walked(o, e, P[e].c, position, |P[e].c|)
      else (e in P ==> parts[e] == P[e]) && lab[e] == L[e]
  }

  lemma BackOneMore(o: Original, P: Parts, L: map<Key, Attrs>, position: map<Node, Point>, keys: seq<Key>, i: nat,
                    i': nat, parts: Parts, whole: set<Key>, lab: map<Key, Attrs>,
                    e: Key, c: seq<Node>, parts': Parts, whole': set<Key>, lab': map<Key, Attrs>)
    requires Proper(o) && i < |keys| && i' == i + 1 && Undone(o, P, L, position, keys, i, parts, whole, lab)
    requires e == keys[i] && e in P && e in o.edges && c == P[e].c && Placed(c, position)
    requires parts' == parts[e := Part(c, |c|, |c| + 1)] && whole' == whole + {e}
      && lab' == lab[e := Walked(o, e, c, position, |c|)]
    ensures Undone(o, P, L, position, keys, i', parts', whole', lab')
  {
    assert keys[..i'] == keys[..i] + [e];
    forall f | f in o.edges ensures BackOrNot(o, P, L, position, keys[..i'], parts', whole', lab', f) {
      assert BackOrNot(o, P, L, position, keys[..i], parts, whole, lab, f);
    }
    SameSet(parts'.Keys, P.Keys);
  }

  /** Once all chains are back the graph is the original one. */
  lemma AllBack(o: Original, P: Parts, L: map<Key, Attrs>, position: map<Node, Point>, keys: seq<Key>, parts: Parts,
                whole: set<Key>, lab: map<Key, Attrs>, N: map<Node, NodeLabel>, E: map<Key, Ref>, S: map<Ref, Attrs>)
    requires Sealed(o, parts, whole, lab, N, E, S) && Undone(o, P, L, position, keys, |keys|, parts, whole, lab)
      && forall e :: e in P ==> e in keys
    ensures N == o.nodes && E == o.edges && forall e :: e in o.edges ==> o.edges[e] in S && S[o.edges[e]] == lab[e]
  {
    assert Look(0);
    assert keys[..|keys|] == keys;
    forall e | e in o.edges
      ensures e in whole && (e in parts ==> parts[e].from == |parts[e].c| && parts[e].upto == |parts[e].c| + 1)
    {
      assert BackOrNot(o, P, L, position, keys, parts, whole, lab, e);
    }
    forall x | x in N ensures x in o.nodes { assert !IsDummy(parts, x); }
    forall k | k in E ensures k in o.edges && E[k] == o.edges[k] { assert !IsLink(parts, k); }
    assert N.Keys == o.nodes.Keys && E.Keys == o.edges.Keys;
  }

  /** The label of an edge after run, a placing of all nodes, and undo. */
  ghost predicate Restored(o: Original, parts: Parts, position: map<Node, Point>, e: Key, a: Attrs)
    requires Proper(o) && e in o.edges
  {
    if Gap(o, e) > 0 then e in parts && Placed(parts[e].c, position) && |parts[e].c| == Gap(o, e)
      && a == Walked(o, e, parts[e].c, position, Gap(o, e))
    else a == o.labels[o.edges[e]]
  }

  /** Takes back all chains; every node has a place by now. */
  method Undo(g: LayoutState, ghost o: Original, ghost P: Parts, ghost whole0: set<Key>, ghost L: map<Key, Attrs>,
              ghost keys: seq<Key>)
    requires g.Holds(o, P, whole0, L) && SplitBut(o, P, whole0, L, {}) && Starts(P, keys, g.dummyChains)
    requires forall e :: e in P ==> Placed(P[e].c, g.position)
    modifies g`nodes, g`edges, g`labels
    ensures g.nodes == o.nodes && g.edges == o.edges
    ensures forall e :: e in o.edges ==> o.edges[e] in g.labels && Restored(o, P, g.position, e, g.labels[o.edges[e]])
  {
    ghost var parts, whole, lab := P, whole0, L;
    forall e | e in o.edges
      ensures BackOrNot(o, P, L, g.position, [], parts, whole, lab, e) { assert Treated(o, P, whole0, L, {}, e); }
    assert keys[..0] == [];
    for i := 0 to |g.dummyChains|
      invariant g.Holds(o, parts, whole, lab) && Undone(o, P, L, g.position, keys, i, parts, whole, lab)
    {
      ghost var e := keys[i];
      ghost var c, parts0, whole1, lab0 := P[e].c, parts, whole, lab;
      assert Treated(o, P, whole0, L, {}, e) && BackOrNot(o, P, L, g.position, keys[..i], parts, whole, lab, e);
      assert e !in keys[..i];
      parts, whole, lab := UndoChain(g, g.dummyChains[i], o, parts, whole, lab, e, c);
      BackOneMore(o, P, L, g.position, keys, i, i + 1, parts0, whole1, lab0, e, c, parts, whole, lab);
    }
    AllBack(o, P, L, g.position, keys, parts, whole, lab, g.nodes, g.edges, g.labels);
    assert keys[..|keys|] == keys;
    forall e | e in o.edges ensures Restored(o, P, g.position, e, g.labels[o.edges[e]]) {
      assert Treated(o, P, whole0, L, {}, e) && BackOrNot(o, P, L, g.position, keys, parts, whole, lab, e);
    }
  }
}
