/** Cycle removal by reversing edges, and its undoing. */
module Acyclic {
  import opened Graphs
  import opened Sums
  import opened Reachability

  /** Edge names; run invents the names "rev1", "rev2" and so on. */
  datatype Name = Unnamed | Named(id: nat) | Rev(number: nat)

  datatype Key = Key(v: Node, w: Node, name: Name)

  /** An edge label: what the layout needs to know, and the marks of a reversed edge. */
  datatype EdgeLabel = EdgeLabel(weight: int, data: int, reversed: bool, forwardName: Option<Name>)

  type Edges = map<Key, EdgeLabel>

  class MultiGraph {
    var nodes: set<Node>
    var edges: Edges

    constructor (nodes: set<Node>, edges: Edges)
      ensures this.nodes == nodes && this.edges == edges
    {
      this.nodes, this.edges := nodes, edges;
    }

    method SetEdge(v: Node, w: Node, lab: EdgeLabel, name: Name)
      modifies this
      ensures nodes == old(nodes) + {v, w} && edges == old(edges)[Key(v, w, name) := lab]
    {
      nodes := nodes + {v, w};
      edges := edges[Key(v, w, name) := lab];
    }

    method RemoveEdge(e: Key)
      modifies this
      ensures nodes == old(nodes) && edges == old(edges) - {e}
    {
      edges := edges - {e};
    }
  }

  /** Endpoints are nodes, and no edge is a loop. */
  ghost predicate LoopFree(nodes: set<Node>, K: set<Key>) {
    forall e :: e in K ==> e.v in nodes && e.w in nodes && e.v != e.w
  }

  // ----- cycles -----

  ghost predicate Cycle(K: set<Key>, p: seq<Key>) {
    && p != [] && (forall i :: 0 <= i < |p| ==> p[i] in K)
    && (forall i :: 0 <= i < |p| - 1 ==> p[i].w == p[i + 1].v) && p[|p| - 1].w == p[0].v
  }

  ghost predicate HasNoCycle(K: set<Key>) {
    forall p :: !Cycle(K, p)
  }

  /** Every edge leads to a greater place. */
  ghost predicate AllForward(K: set<Key>, place: map<Node, int>) {
    forall e :: e in K ==> e.v in place && e.w in place && place[e.v] < place[e.w]
  }

  lemma {:induction false} ClimbsAlong(K: set<Key>, place: map<Node, int>, p: seq<Key>, i: nat)
    requires AllForward(K, place) && Cycle(K, p) && i < |p|
    ensures place[p[0].v] < place[p[i].w]
    decreases i
  {
    if i > 0 { ClimbsAlong(K, place, p, i - 1); }
  }

  lemma ForwardHasNoCycle(K: set<Key>, place: map<Node, int>)
    requires AllForward(K, place)
    ensures HasNoCycle(K)
  {
    forall p ensures !Cycle(K, p) {
      if Cycle(K, p) { ClimbsAlong(K, place, p, |p| - 1); }
    }
  }

  /** fas holds exactly the edges that lead backward in place. */
  ghost predicate Splits(K: set<Key>, fas: seq<Key>, place: map<Node, int>) {
    forall e :: e in K ==>
      e.v in place && e.w in place && if e in fas then place[e.w] < place[e.v] else place[e.v] < place[e.w]
  }

  /** fas lists edges of K, none twice. */
  ghost predicate IsList(K: set<Key>, fas: seq<Key>) {
    && (forall i :: 0 <= i < |fas| ==> fas[i] in K)
    && (forall i, j :: 0 <= i < j < |fas| ==> fas[i] != fas[j])
  }

  ghost predicate IsFas(K: set<Key>, fas: seq<Key>) {
    IsList(K, fas) && exists place :: Splits(K, fas, place)
  }

  // ----- the depth-first feedback set -----

  /** The graph of the edges K. */
  ghost function SuccOf(nodes: set<Node>, K: set<Key>): Succ {
    map x | x in nodes :: set e | e in K && e.v == x :: e.w
  }

  /** The finished nodes have finishing times; an edge out of a finished node is in fas exactly when it
      led into the stack, and leads to an earlier finish otherwise. */
  ghost predicate Finished(K: set<Key>, fas: seq<Key>, stack: set<Node>, visited: set<Node>, fin: map<Node, int>,
                           clock: int) {
    && stack <= visited && fin.Keys == visited - stack && (forall x :: x in fin ==> fin[x] < clock)
    && (forall e :: e in K && e.v in fin ==>
        if e in fas then e.w in stack || (e.w in fin && fin[e.w] > fin[e.v]) else e.w in fin && fin[e.w] < fin[e.v])
  }

  /** What has been collected: edges of visited nodes, each once, and each closing a cycle. */
  ghost predicate Collected(nodes: set<Node>, K: set<Key>, fas: seq<Key>, visited: set<Node>) {
    && (forall i :: 0 <= i < |fas| ==>
        fas[i] in K && fas[i].v in visited && Reach(SuccOf(nodes, K), fas[i].w, fas[i].v))
    && (forall i, j :: 0 <= i < j < |fas| ==> fas[i] != fas[j])
  }

  /** While the edges of v are treated, those in P being done; stack0 is the stack below v. */
  ghost predicate Treating(nodes: set<Node>, K: set<Key>, fas: seq<Key>, stack0: set<Node>, stack: set<Node>,
                           visited: set<Node>, fin: map<Node, int>, clock: int, v: Node, P: set<Key>) {
    && LoopFree(nodes, K) && v in nodes && v !in stack0 && stack == stack0 + {v} && visited <= nodes
    && Finished(K, fas, stack, visited, fin, clock) && Collected(nodes, K, fas, visited)
    && (forall x :: x in stack ==> Reach(SuccOf(nodes, K), x, v))
    && (forall e :: e in K && e.v == v && e in P ==> if e in fas then e.w in stack0 else e.w in fin)
    && (forall e :: e in fas && e.v == v ==> e in P)
  }

  /** The later search keeps all that the earlier one found out. */
  ghost predicate Grew(fas: seq<Key>, visited: set<Node>, fin: map<Node, int>, fas': seq<Key>, visited': set<Node>,
                       fin': map<Node, int>) {
    && visited <= visited' && fas <= fas'
    && (forall e :: e in fas' && e.v in visited ==> e in fas)
    && (forall x :: x in fin ==> x in fin' && fin'[x] == fin[x])
  }

  /** v may be searched. */
  ghost predicate Ready(nodes: set<Node>, K: set<Key>, fas: seq<Key>, stack: set<Node>, visited: set<Node>,
                        fin: map<Node, int>, clock: int, v: Node) {
    && LoopFree(nodes, K) && visited <= nodes && Finished(K, fas, stack, visited, fin, clock)
      && Collected(nodes, K, fas, visited)
    && v in nodes && v !in stack && forall x :: x in stack ==> Reach(SuccOf(nodes, K), x, v)
  }

  lemma Enter(nodes: set<Node>, K: set<Key>, fas: seq<Key>, stack0: set<Node>, visited0: set<Node>, fin: map<Node, int>,
              clock: int, v: Node, stack: set<Node>, visited: set<Node>, none: set<Key>)
    requires Ready(nodes, K, fas, stack0, visited0, fin, clock, v) && v !in visited0
    requires stack == stack0 + {v} && visited == visited0 + {v} && none == {}
    ensures Treating(nodes, K, fas, stack0, stack, visited, fin, clock, v, none)
    ensures Grew(fas, visited0, fin, fas, visited, fin)
  {
    SameSet(fin.Keys, visited - stack);
  }

  /** An edge into the stack is collected. */
  lemma TreatBackEdge(nodes: set<Node>, K: set<Key>, fas: seq<Key>, stack0: set<Node>, stack: set<Node>,
                      visited: set<Node>, fin: map<Node, int>, clock: int, v: Node, P: set<Key>, e: Key, P': set<Key>,
                      fas': seq<Key>)
    requires Treating(nodes, K, fas, stack0, stack, visited, fin, clock, v, P) && e in K && e.v == v && e !in P
    requires e.w in stack && P' == P + {e} && fas' == fas + [e]
    ensures Treating(nodes, K, fas', stack0, stack, visited, fin, clock, v, P')
    ensures forall visited0 :: v !in visited0 && visited0 <= visited ==> Grew(fas, visited0, fin, fas', visited, fin)
  {
    assert forall f :: f in fas' <==> f in fas || f == e;
  }

  lemma FollowEdge(nodes: set<Node>, K: set<Key>, fas: seq<Key>, stack0: set<Node>, stack: set<Node>,
                   visited: set<Node>, fin: map<Node, int>, clock: int, v: Node, P: set<Key>, e: Key)
    requires Treating(nodes, K, fas, stack0, stack, visited, fin, clock, v, P) && e in K && e.v == v && e.w !in stack
    ensures Ready(nodes, K, fas, stack, visited, fin, clock, e.w)
  {
    var g := SuccOf(nodes, K);
    ReachStep(g, v, e.w);
    forall x | x in stack ensures Reach(g, x, e.w) {
      ReachTransitive(g, x, v, e.w);
    }
  }

  lemma TreatForwardEdge(nodes: set<Node>, K: set<Key>, fas: seq<Key>, stack0: set<Node>, stack: set<Node>,
                         visited: set<Node>, fin: map<Node, int>, clock: int, v: Node, P: set<Key>, e: Key,
                         P': set<Key>,
                         fas': seq<Key>, visited': set<Node>, fin': map<Node, int>, clock': int)
    requires Treating(nodes, K, fas, stack0, stack, visited, fin, clock, v, P) && e in K && e.v == v && e !in P
    requires P' == P + {e} && Grew(fas, visited, fin, fas', visited', fin') && e.w in fin' && visited' <= nodes
    requires Finished(K, fas', stack, visited', fin', clock') && Collected(nodes, K, fas', visited')
    ensures Treating(nodes, K, fas', stack0, stack, visited', fin', clock', v, P')
  {
    assert v in visited;
  }

  lemma Leave(nodes: set<Node>, K: set<Key>, fas: seq<Key>, stack0: set<Node>, stack: set<Node>, visited: set<Node>,
              fin: map<Node, int>, clock: int, v: Node, P: set<Key>, fin': map<Node, int>, clock': int)
    requires Treating(nodes, K, fas, stack0, stack, visited, fin, clock, v, P) && P == (set e | e in K && e.v == v)
    requires fin' == fin[v := clock] && clock' == clock + 1 && v !in fin
    ensures Finished(K, fas, stack0, visited, fin', clock') && forall x :: x in fin ==> x in fin' && fin'[x] == fin[x]
  {
    SameSet(fin'.Keys, visited - stack0);
  }

  class DfsFas {
    const nodes: set<Node>
    const K: set<Key>
    var fas: seq<Key>
    var stack: set<Node>
    var visited: set<Node>
    ghost var fin: map<Node, int>
    ghost var clock: int

    constructor (nodes: set<Node>, K: set<Key>)
      ensures this.nodes == nodes && this.K == K && fas == [] && stack == {} && visited == {} && fin == map[]
        && clock == 0
    {
      this.nodes, this.K, fas, stack, visited, fin, clock := nodes, K, [], {}, {}, map[], 0;
    }

    method Dfs(v: Node)
      requires Ready(nodes, K, fas, stack, visited, fin, clock, v)
      modifies this
      ensures Finished(K, fas, stack, visited, fin, clock) && Collected(nodes, K, fas, visited)
      ensures stack == old(stack) && v in fin && visited <= nodes
      ensures Grew(old(fas), old(visited), old(fin), fas, visited, fin)
      decreases nodes - visited, 0
    {
      if v in visited { return; }
      ghost var stack0, visited0 := stack, visited;
      ghost var P: set<Key> := {};
      visited := visited + {v};
      stack := stack + {v};
      Enter(nodes, K, fas, stack0, visited0, fin, clock, v, stack, visited, P);
      var todo := set e | e in K && e.v == v;
      ghost var all := todo;
      while todo != {}
        invariant todo <= all && P == all - todo && v in visited && visited <= nodes
        invariant Treating(nodes, K, fas, stack0, stack, visited, fin, clock, v, P)
        invariant Grew(old(fas), visited0, old(fin), fas, visited, fin)
        decreases todo
      {
        var e :| e in todo;
        TakeOne(all, todo, e);
        todo := todo - {e};
        ghost var P' := P + {e};
        TreatEdge(v, e, stack0, visited0, P, P');
        P := P';
      }
      SameSet(P, all);
      ghost var fin0, clock0 := fin, clock;
      ghost var stack1 := stack;
      stack := stack - {v};
      SameSet(stack, stack0);
      fin := fin[v := clock];
      clock := clock + 1;
      Leave(nodes, K, fas, stack0, stack1, visited, fin0, clock0, v, P, fin, clock);
    }

    method TreatEdge(v: Node, e: Key, ghost stack0: set<Node>, ghost visited0: set<Node>, ghost P: set<Key>,
                     ghost P': set<Key>)
      requires Treating(nodes, K, fas, stack0, stack, visited, fin, clock, v, P)
      requires e in K && e.v == v && e !in P && P' == P + {e} && v !in visited0 && visited0 <= visited
      modifies this
      ensures Treating(nodes, K, fas, stack0, stack, visited, fin, clock, v, P') && visited <= nodes
      ensures old(visited) <= visited && Grew(old(fas), visited0, old(fin), fas, visited, fin)
      decreases nodes - visited, 1
    {
      ghost var fas1, stack1, visited1, fin1, clock1 := fas, stack, visited, fin, clock;
      if e.w in stack {
        fas := fas + [e];
        TreatBackEdge(nodes, K, fas1, stack0, stack, visited, fin, clock, v, P, e, P', fas);
      } else {
        FollowEdge(nodes, K, fas, stack0, stack, visited, fin, clock, v, P, e);
        Dfs(e.w);
        TreatForwardEdge(nodes, K, fas1, stack0, stack1, visited1, fin1, clock1, v, P, e, P', fas, visited, fin, clock);
      }
    }
  }

  /** Searches all nodes: fas is a feedback set in which every edge closes a cycle. */
  method DfsFasOf(g: MultiGraph) returns (fas: seq<Key>)
    requires LoopFree(g.nodes, g.edges.Keys)
    ensures IsFas(g.edges.Keys, fas)
    ensures forall e :: e in fas ==> Reach(SuccOf(g.nodes, g.edges.Keys), e.w, e.v)
  {
    var d := new DfsFas(g.nodes, g.edges.Keys);
    var todo := g.nodes;
    while todo != {}
      invariant todo <= g.nodes && fresh(d) && d.nodes == g.nodes && d.K == g.edges.Keys && g.nodes <= d.visited + todo
      invariant d.stack == {} && d.visited <= g.nodes && Finished(d.K, d.fas, d.stack, d.visited, d.fin, d.clock)
      invariant Collected(d.nodes, d.K, d.fas, d.visited)
      decreases todo
    {
      var v :| v in todo;
      todo := todo - {v};
      d.Dfs(v);
    }
    fas := d.fas;
    SearchedAll(g.nodes, g.edges.Keys, fas, d.stack, d.visited, d.fin, d.clock);
  }

  lemma SearchedAll(nodes: set<Node>, K: set<Key>, fas: seq<Key>, none: set<Node>, visited: set<Node>,
                    fin: map<Node, int>, clock: int)
    requires LoopFree(nodes, K) && none == {} && nodes <= visited && visited <= nodes
    requires Finished(K, fas, none, visited, fin, clock) && Collected(nodes, K, fas, visited)
    ensures IsFas(K, fas)
    ensures forall e :: e in fas ==> Reach(SuccOf(nodes, K), e.w, e.v)
  {
    var place := map x | x in fin :: -fin[x];
    assert Splits(K, fas, place);
  }

  // ----- reversing -----

  function Reversal(e: Key, number: nat): Key {
    Key(e.w, e.v, Rev(number))
  }

  function Marked(lab: EdgeLabel, name: Name): EdgeLabel {
    lab.(reversed := true, forwardName := Some(name))
  }

  /** No name that is still to be invented is in use. */
  ghost predicate FreshFrom(E: Edges, number: nat) {
    forall e :: e in E && e.name.Rev? ==> e.name.number < number
  }

  /** The edges of fas are reversed under new names and keep their old ones; the rest is as before. */
  ghost predicate IsReversed(E: Edges, fas: seq<Key>, number: nat, E': Edges) {
    && (forall e {:trigger KeptIn(E, e, E')} :: e in E && e !in fas ==> KeptIn(E, e, E'))
    && (forall i {:trigger fas[i]} :: 0 <= i < |fas| ==> ReversedIn(E, fas[i], number + i, E'))
    && (forall k {:trigger Reverses(fas, number, k)} :: k in E' ==> (k in E && k !in fas) || Reverses(fas, number, k))
  }

  ghost predicate KeptIn(E: Edges, e: Key, E': Edges) {
    e in E && e in E' && E'[e] == E[e]
  }

  ghost predicate ReversedIn(E: Edges, e: Key, number: nat, E': Edges) {
    e in E && Reversal(e, number) in E' && E'[Reversal(e, number)] == Marked(E[e], e.name)
  }

  ghost predicate Reverses(fas: seq<Key>, number: nat, k: Key) {
    exists i {:trigger fas[i]} :: 0 <= i < |fas| && k == Reversal(fas[i], number + i)
  }

  lemma ReverseOne(E: Edges, fas: seq<Key>, number: nat, i: nat, done: seq<Key>, E': Edges, done': seq<Key>, E'': Edges)
    requires IsList(E.Keys, fas) && FreshFrom(E, number) && i < |fas| && done == fas[..i] && done' == fas[..i + 1]
    requires IsReversed(E, done, number, E')
    requires E'' == (E' - {fas[i]})[Reversal(fas[i], number + i) := Marked(E[fas[i]], fas[i].name)]
    ensures fas[i] in E' && E'[fas[i]] == E[fas[i]]
    ensures IsReversed(E, done', number, E'')
  {
    assert fas[i] !in done;
    assert done' == done + [fas[i]];
    assert KeptIn(E, fas[i], E');
    forall e | e in E && e !in done' ensures KeptIn(E, e, E'') {
      assert e !in done && e != fas[i] && KeptIn(E, e, E');
    }
    forall j | 0 <= j < |done'| ensures ReversedIn(E, done'[j], number + j, E'') {
      if j < i { assert done'[j] == done[j] && ReversedIn(E, done[j], number + j, E'); }
    }
    forall k | k in E'' ensures (k in E && k !in done') || Reverses(done', number, k) {
      ReverseOneKey(E, fas, number, i, done, E', done', k);
    }
  }

  lemma ReverseOneKey(E: Edges, fas: seq<Key>, number: nat, i: nat, done: seq<Key>, E': Edges, done': seq<Key>, k: Key)
    requires i < |fas| && done == fas[..i] && done' == done + [fas[i]] && IsReversed(E, done, number, E')
    requires (k in E' && k != fas[i]) || k == Reversal(fas[i], number + i)
    ensures (k in E && k !in done') || Reverses(done', number, k)
  {
    if k == Reversal(fas[i], number + i) {
      assert done'[i] == fas[i];
    } else if Reverses(done, number, k) {
      var j :| 0 <= j < |done| && k == Reversal(done[j], number + j);
      assert done'[j] == done[j];
    }
  }

  /** After the reversal all edges lead forward. */
  lemma ReversedIsAcyclic(E: Edges, fas: seq<Key>, number: nat, E': Edges)
    requires IsFas(E.Keys, fas) && IsReversed(E, fas, number, E')
    ensures HasNoCycle(E'.Keys)
  {
    var place :| Splits(E.Keys, fas, place);
    forall k | k in E'.Keys ensures k.v in place && k.w in place && place[k.v] < place[k.w] {
      if Reverses(fas, number, k) {
        var i :| 0 <= i < |fas| && k == Reversal(fas[i], number + i);
        assert fas[i] in fas;
      }
    }
    ForwardHasNoCycle(E'.Keys, place);
  }

  method ReverseAll(g: MultiGraph, fas: seq<Key>, number: nat)
    requires LoopFree(g.nodes, g.edges.Keys) && IsList(g.edges.Keys, fas) && FreshFrom(g.edges, number)
    modifies g
    ensures g.nodes == old(g.nodes) && IsReversed(old(g.edges), fas, number, g.edges)
  {
    ghost var E := g.edges;
    for i := 0 to |fas|
      invariant g.nodes == old(g.nodes) && IsReversed(E, fas[..i], number, g.edges)
    {
      ghost var E1 := g.edges;
      var e := fas[i];
      ghost var E2 := (E1 - {e})[Reversal(e, number + i) := Marked(E[e], e.name)];
      ReverseOne(E, fas, number, i, fas[..i], E1, fas[..i + 1], E2);
      var lab := g.edges[e];
      g.RemoveEdge(e);
      g.SetEdge(e.w, e.v, Marked(lab, e.name), Rev(number + i));
    }
    assert fas[..|fas|] == fas;
  }

  // ----- undoing -----

  /** The edge that e stands for. */
  function Original(e: Key, lab: EdgeLabel): Key {
    if lab.reversed then Key(e.w, e.v, if lab.forwardName.Some? then lab.forwardName.value else Unnamed) else e
  }

  function Unmarked(lab: EdgeLabel): EdgeLabel {
    if lab.reversed then lab.(reversed := false, forwardName := None) else lab
  }

  /** Each edge can be put back without meeting another. */
  ghost predicate Restorable(E: Edges) {
    && (forall e, f :: e in E && f in E && Original(e, E[e]) == Original(f, E[f]) ==> e == f)
    && (forall e :: e in E && E[e].reversed ==> Original(e, E[e]) !in E)
  }

  /** The edges not in todo have been put back. */
  ghost predicate IsRestored(E: Edges, todo: set<Key>, E': Edges) {
    && (forall e :: e in E && e in todo ==> e in E' && E'[e] == E[e])
    && (forall e :: e in E && e !in todo ==> Original(e, E[e]) in E' && E'[Original(e, E[e])] == Unmarked(E[e]))
    && (forall k :: k in E' ==> (k in E && k in todo) || StandsFor(E, todo, k))
  }

  ghost predicate StandsFor(E: Edges, todo: set<Key>, k: Key) {
    exists e :: e in E && e !in todo && Original(e, E[e]) == k
  }

  lemma RestoreOne(E: Edges, todo: set<Key>, E': Edges, e: Key, todo': set<Key>, E'': Edges)
    requires Restorable(E) && IsRestored(E, todo, E') && e in E && e in todo && todo' == todo - {e}
    requires E'' == if E[e].reversed then (E' - {e})[Original(e, E[e]) := Unmarked(E[e])] else E'
    ensures IsRestored(E, todo', E'')
  {
    forall k | k in E'' ensures (k in E && k in todo') || StandsFor(E, todo', k) {
      if StandsFor(E, todo, k) {
        var f :| f in E && f !in todo && Original(f, E[f]) == k;
        assert f !in todo';
      } else if k == Original(e, E[e]) {
        assert e !in todo';
      }
    }
  }

  method Undo(g: MultiGraph)
    requires LoopFree(g.nodes, g.edges.Keys) && Restorable(g.edges)
    modifies g
    ensures g.nodes == old(g.nodes) && IsRestored(old(g.edges), {}, g.edges)
  {
    ghost var E := g.edges;
    var todo := g.edges.Keys;
    while todo != {}
      invariant todo <= E.Keys && g.nodes == old(g.nodes) && IsRestored(E, todo, g.edges)
      decreases todo
    {
      ghost var left, E1 := todo, g.edges;
      var e :| e in todo;
      todo := todo - {e};
      var lab := g.edges[e];
      if lab.reversed {
        g.RemoveEdge(e);
        g.SetEdge(e.w, e.v, Unmarked(lab), if lab.forwardName.Some? then lab.forwardName.value else Unnamed);
      }
      RestoreOne(E, left, E1, e, todo, g.edges);
    }
  }

  /** What an edge of the reversed graph stands for. */
  lemma StandsForOriginal(E: Edges, fas: seq<Key>, number: nat, E': Edges, k: Key) returns (i: int)
    requires IsList(E.Keys, fas) && FreshFrom(E, number) && IsReversed(E, fas, number, E') && k in E'
    requires AllPlain(E)
    ensures -1 <= i < |fas|
    ensures i == -1 ==> k in E && k !in fas && !E'[k].reversed && E'[k] == E[k]
    ensures i >= 0 ==>
      k == Reversal(fas[i], number + i) && fas[i] in E && k !in E && E'[k].reversed && Original(k, E'[k]) == fas[i]
        && Unmarked(E'[k]) == E[fas[i]]
  {
    if Reverses(fas, number, k) {
      i :| 0 <= i < |fas| && k == Reversal(fas[i], number + i);
      assert ReversedIn(E, fas[i], number + i, E');
    } else {
      i := -1;
      assert KeptIn(E, k, E');
    }
  }

  ghost predicate AllPlain(E: Edges) {
    forall e :: e in E ==> !E[e].reversed && E[e].forwardName.None?
  }

  lemma SameOriginal(E: Edges, fas: seq<Key>, number: nat, E': Edges, e: Key, f: Key)
    requires IsList(E.Keys, fas) && FreshFrom(E, number) && IsReversed(E, fas, number, E') && AllPlain(E)
    requires e in E' && f in E' && Original(e, E'[e]) == Original(f, E'[f])
    ensures e == f
  {
    var i := StandsForOriginal(E, fas, number, E', e);
    var j := StandsForOriginal(E, fas, number, E', f);
    assert i >= 0 ==> fas[i] in fas;
    assert j >= 0 ==> fas[j] in fas;
  }

  lemma ReversedIsRestorable(E: Edges, fas: seq<Key>, number: nat, E': Edges)
    requires IsList(E.Keys, fas) && FreshFrom(E, number) && IsReversed(E, fas, number, E') && AllPlain(E)
    ensures Restorable(E')
  {
    forall e, f | e in E' && f in E' && Original(e, E'[e]) == Original(f, E'[f]) ensures e == f {
      SameOriginal(E, fas, number, E', e, f);
    }
    forall e | e in E' && E'[e].reversed ensures Original(e, E'[e]) !in E' {
      var i := StandsForOriginal(E, fas, number, E', e);
      var o := Original(e, E'[e]);
      assert fas[i] in fas;
      if o in E' {
        var j := StandsForOriginal(E, fas, number, E', o);
      }
    }
  }

  /** Undoing what run did gives back every edge with its name and its label. */
  lemma UndoRestores(E: Edges, fas: seq<Key>, number: nat, E': Edges, E'': Edges)
    requires IsList(E.Keys, fas) && FreshFrom(E, number) && IsReversed(E, fas, number, E') && AllPlain(E)
    requires IsRestored(E', {}, E'')
    ensures E'' == E
  {
    forall e | e in E ensures e in E'' && E''[e] == E[e] {
      if e in fas {
        var i :| 0 <= i < |fas| && fas[i] == e;
        assert ReversedIn(E, e, number + i, E');
        assert Original(Reversal(e, number + i), E'[Reversal(e, number + i)]) == e;
      } else {
        assert KeptIn(E, e, E');
        assert Original(e, E'[e]) == e;
      }
    }
    forall k | k in E'' ensures k in E {
      assert StandsFor(E', {}, k);
      var e :| e in E' && Original(e, E'[e]) == k;
      var i := StandsForOriginal(E, fas, number, E', e);
    }
  }

  lemma ReversedIsLoopFree(nodes: set<Node>, E: Edges, fas: seq<Key>, number: nat, E': Edges)
    requires LoopFree(nodes, E.Keys) && IsList(E.Keys, fas) && IsReversed(E, fas, number, E')
    ensures LoopFree(nodes, E'.Keys)
  {
    forall k | k in E' ensures k.v in nodes && k.w in nodes && k.v != k.w {
      if Reverses(fas, number, k) {
        var i :| 0 <= i < |fas| && k == Reversal(fas[i], number + i);
        assert fas[i] in E;
      }
    }
  }
}
