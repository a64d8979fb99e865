/** Shortest distances from one node over non-negative weights. */
module Dijkstra {
  import opened Graphs
  import opened Sums
  import opened Walks
  import opened PriorityQueues

  /** A negative edge that can be reached from x. */
  ghost predicate NegativeReachable(g: Arcs, x: Node) {
    exists z, a, p {:trigger Leads(g, x, p, z), a in g[z]} :: Leads(g, x, p, z) && z in g && a in g[z] && a.weight < 0.0
  }

  // ----- the state -----

  datatype Result = Result(distance: Dist, predecessor: Option<Node>)

  type Results = map<Node, Result>

  /** All finite distances are lengths of walks, and every node but the source was entered from its
      predecessor. */
  ghost predicate Sound(g: Arcs, source: Node, res: Results, done: set<Node>) {
    && res.Keys == g.Keys
    && (forall x {:trigger Grounded(g, source, res, done, x)} :: x in g ==> Grounded(g, source, res, done, x))
  }

  ghost predicate Grounded(g: Arcs, source: Node, res: Results, done: set<Node>, x: Node)
    requires x in res
  {
    && (res[x].distance.Finite? ==> res[x].distance.r >= 0.0 && WalkOf(g, source, x, res[x].distance.r))
    && (if x == source then res[x] == Result(Finite(0.0), None)
        else if res[x].distance.Infinite? then res[x].predecessor.None?
        else res[x].predecessor.Some? && EnteredFrom(g, res, done, x, res[x].predecessor.value))
  }

  ghost predicate EnteredFrom(g: Arcs, res: Results, done: set<Node>, x: Node, u: Node)
    requires x in res
  {
    u in done && LastStep(g, res, x, u)
  }

  /** An edge from u leads to x at exactly x's distance. */
  ghost predicate LastStep(g: Arcs, res: Results, x: Node, u: Node)
    requires x in res
  {
    u in res && u in g
      && exists a :: a in g[u] && Other(a, u) == x && res[x].distance == Plus(res[u].distance, a.weight)
  }

  /** The edge a out of u is not negative and offers nothing better. */
  ghost predicate Relaxed(res: Results, u: Node, a: Arc) {
    u in res && Other(a, u) in res && a.weight >= 0.0
      && !Less(Plus(res[u].distance, a.weight), res[Other(a, u)].distance)
  }

  /** The nodes of done are final: finite, no farther than any other, and all their edges are relaxed. */
  ghost predicate Final(g: Arcs, res: Results, done: set<Node>) {
    && (forall u :: u in done ==> u in g && u in res && res[u].distance.Finite?)
    && (forall u, y :: u in done && y in res && y !in done ==> !Less(res[y].distance, res[u].distance))
    && (forall u, a {:trigger Relaxed(res, u, a)} :: u in done && a in g[u] ==> Relaxed(res, u, a))
  }

  /** The queue holds the unfinished nodes with their distances. */
  ghost predicate Queued(held: map<Node, Dist>, res: Results, done: set<Node>) {
    && (forall x :: x in held <==> x in res && x !in done)
    && (forall x :: x in held ==> held[x] == res[x].distance)
  }

  /** While the edges of v are followed; those not in todo are relaxed already. */
  ghost predicate Following(g: Arcs, source: Node, res: Results, done: set<Node>, v: Node, done': set<Node>,
                            todo: set<Arc>, held: map<Node, Dist>) {
    && IsGraph(g) && v in g && v in res && v !in done && done' == done + {v} && res[v].distance.Finite?
    && Sound(g, source, res, done') && Final(g, res, done) && Queued(held, res, done')
    && (forall y :: y in res && y !in done ==> !Less(res[y].distance, res[v].distance))
    && (forall u :: u in done ==> u in res && !Less(res[v].distance, res[u].distance))
    && todo <= g[v] && (forall a :: a in g[v] && a !in todo ==> Relaxed(res, v, a))
  }

  /** An edge that offers nothing better is relaxed. */
  lemma PassOver(g: Arcs, source: Node, res: Results, done: set<Node>, v: Node, done': set<Node>, todo: set<Arc>,
                 held: map<Node, Dist>, a: Arc, todo': set<Arc>)
    requires Following(g, source, res, done, v, done', todo, held) && a in todo && todo' == todo - {a}
    requires a.weight >= 0.0 && !Less(Plus(res[v].distance, a.weight), res[Other(a, v)].distance)
    ensures Following(g, source, res, done, v, done', todo', held)
  {
  }

  lemma StaysRelaxed(res: Results, res': Results, w: Node, r: Result, u: Node, a: Arc)
    requires w in res && res' == res[w := r] && Less(r.distance, res[w].distance) && Relaxed(res, u, a) && u != w
    ensures Relaxed(res', u, a)
  {
  }

  lemma StaysGrounded(g: Arcs, source: Node, res: Results, res': Results, done: set<Node>, w: Node, r: Result, x: Node)
    requires w in res && res' == res[w := r] && w !in done && x in res && x != w && Grounded(g, source, res, done, x)
    ensures Grounded(g, source, res', done, x)
  {
  }

  lemma ImprovedIsGrounded(g: Arcs, source: Node, res: Results, res': Results, done: set<Node>, v: Node, a: Arc,
                           w: Node, d: Dist)
    requires Sound(g, source, res, done) && v in g && v in done && a in g[v] && Other(a, v) == w && w in res && w != v
      && res[v].distance.Finite?
    requires a.weight >= 0.0 && d == Plus(res[v].distance, a.weight) && res' == res[w := Result(d, Some(v))]
      && w != source
    ensures Grounded(g, source, res', done, w)
  {
    assert Grounded(g, source, res, done, v);
    var p :| Leads(g, source, p, v) && Length(p) == res[v].distance.r;
    assert Steps(g, v, a, w);
    Extend(g, source, p, v, a, w);
    assert EnteredFrom(g, res', done, w, v);
  }

  lemma ImprovedStaysSound(g: Arcs, source: Node, res: Results, res': Results, done: set<Node>, v: Node, a: Arc,
                           w: Node, d: Dist)
    requires Sound(g, source, res, done) && v in g && v in done && a in g[v] && Other(a, v) == w && w in res
      && w !in done && res[v].distance.Finite?
    requires a.weight >= 0.0 && d == Plus(res[v].distance, a.weight) && Less(d, res[w].distance)
      && res' == res[w := Result(d, Some(v))]
    ensures Sound(g, source, res', done)
  {
    assert Grounded(g, source, res, done, w) && Grounded(g, source, res, done, v);
    ImprovedIsGrounded(g, source, res, res', done, v, a, w, d);
    forall x | x in g ensures Grounded(g, source, res', done, x) {
      assert Grounded(g, source, res, done, x);
      if x != w { StaysGrounded(g, source, res, res', done, w, Result(d, Some(v)), x); }
    }
  }

  lemma ImprovedStaysFinal(g: Arcs, res: Results, res': Results, done: set<Node>, w: Node, r: Result, v: Node)
    requires Final(g, res, done) && w in res && w !in done && res' == res[w := r] && Less(r.distance, res[w].distance)
    requires v in res && !Less(r.distance, res[v].distance)
      && forall u :: u in done ==> !Less(res[v].distance, res[u].distance)
    ensures Final(g, res', done)
  {
    forall u, b | u in done && b in g[u] ensures Relaxed(res', u, b) {
      assert Relaxed(res, u, b);
      StaysRelaxed(res, res', w, r, u, b);
    }
  }

  /** The far end of an edge that offers something better is still unfinished. */
  lemma BetterIsUnfinished(g: Arcs, source: Node, res: Results, done: set<Node>, v: Node, done': set<Node>,
                           todo: set<Arc>, held: map<Node, Dist>, a: Arc, w: Node, d: Dist)
    requires Following(g, source, res, done, v, done', todo, held) && a in todo
    requires w == Other(a, v) && a.weight >= 0.0 && d == Plus(res[v].distance, a.weight) && Less(d, res[w].distance)
    ensures w !in done' && w in held && held[w] == res[w].distance
  {
    assert w in done ==> !Less(res[v].distance, res[w].distance);
  }

  /** A better distance is recorded, and nothing finished is touched. */
  lemma Improve(g: Arcs, source: Node, res: Results, done: set<Node>, v: Node, done': set<Node>, todo: set<Arc>,
                held: map<Node, Dist>, a: Arc, todo': set<Arc>, w: Node, d: Dist, res': Results, held': map<Node, Dist>)
    requires Following(g, source, res, done, v, done', todo, held) && a in todo && todo' == todo - {a}
    requires w == Other(a, v) && a.weight >= 0.0 && d == Plus(res[v].distance, a.weight) && Less(d, res[w].distance)
    requires res' == res[w := Result(d, Some(v))] && held' == held[w := d]
    ensures Following(g, source, res', done, v, done', todo', held')
  {
    BetterIsUnfinished(g, source, res, done, v, done', todo, held, a, w, d);
    ImprovedStaysSound(g, source, res, res', done', v, a, w, d);
    ImprovedStaysFinal(g, res, res', done, w, Result(d, Some(v)), v);
    forall b | b in g[v] && b !in todo' ensures Relaxed(res', v, b) {
      if b !in todo { StaysRelaxed(res, res', w, Result(d, Some(v)), v, b); }
    }
  }

  // ----- finishing nodes -----

  /** Between two rounds. */
  ghost predicate Settled(g: Arcs, source: Node, res: Results, done: set<Node>, held: map<Node, Dist>) {
    IsGraph(g) && Sound(g, source, res, done) && Final(g, res, done) && Queued(held, res, done)
  }

  lemma Begin(g: Arcs, source: Node, res: Results, done: set<Node>, held: map<Node, Dist>, v: Node, done': set<Node>,
              held': map<Node, Dist>, todo: set<Arc>)
    requires Settled(g, source, res, done, held) && IsLeast(held, v) && done' == done + {v} && held' == held - {v}
    requires v in g && v in res && res[v].distance.Finite? && todo == g[v]
    ensures Following(g, source, res, done, v, done', todo, held')
  {
    forall x | x in g ensures Grounded(g, source, res, done', x) {
      assert Grounded(g, source, res, done, x);
    }
  }

  lemma Finish(g: Arcs, source: Node, res: Results, done: set<Node>, v: Node, done': set<Node>, none: set<Arc>,
               held: map<Node, Dist>)
    requires Following(g, source, res, done, v, done', none, held) && none == {}
    ensures Settled(g, source, res, done', held)
  {
  }

  /** Once all that is left is infinitely far, every walk ends in a finished node, no nearer than recorded. */
  lemma {:induction false} WalksAreNoShorter(g: Arcs, source: Node, res: Results, done: set<Node>,
                                             held: map<Node, Dist>, p: seq<Arc>, y: Node)
    requires Settled(g, source, res, done, held) && Leads(g, source, p, y)
    requires forall x :: x in held ==> held[x].Infinite?
    ensures y in done && y in res && y in g && res[y].distance.Finite? && res[y].distance.r <= Length(p)
    decreases |p|
  {
    if p == [] {
      assert Grounded(g, source, res, done, source);
      assert y in done || y in held;
    } else {
      var a := p[|p| - 1];
      var z :| Steps(g, z, a, y) && Leads(g, source, p[..|p| - 1], z);
      WalksAreNoShorter(g, source, res, done, held, p[..|p| - 1], z);
      assert Relaxed(res, z, a);
      assert y in done || y in held;
    }
  }

  /** The whole answer: distances, and a last step of a shortest walk for every reached node but the source. */
  ghost predicate Shortest(g: Arcs, source: Node, res: Results) {
    && res.Keys == g.Keys
    && (forall y {:trigger IsDistance(g, source, y, res[y].distance)} :: y in g ==>
        IsDistance(g, source, y, res[y].distance))
    && (forall y :: y in g ==> (res[y].predecessor.Some? <==> y != source && res[y].distance.Finite?))
    && (forall y :: y in g && res[y].predecessor.Some? ==> LastStep(g, res, y, res[y].predecessor.value))
  }

  lemma Exact(g: Arcs, source: Node, res: Results, done: set<Node>, held: map<Node, Dist>)
    requires Settled(g, source, res, done, held)
    requires forall x :: x in held ==> held[x].Infinite?
    ensures Shortest(g, source, res) && !NegativeReachable(g, source)
  {
    forall y | y in g ensures IsDistance(g, source, y, res[y].distance) && Grounded(g, source, res, done, y) {
      assert Grounded(g, source, res, done, y);
      forall p | Leads(g, source, p, y) ensures res[y].distance.Finite? && res[y].distance.r <= Length(p) {
        WalksAreNoShorter(g, source, res, done, held, p, y);
      }
    }
    forall z, a, p | Leads(g, source, p, z) && z in g && a in g[z] ensures a.weight >= 0.0 {
      WalksAreNoShorter(g, source, res, done, held, p, z);
      assert Relaxed(res, z, a);
    }
  }

  lemma NegativeFound(g: Arcs, source: Node, res: Results, done: set<Node>, v: Node, a: Arc)
    requires Sound(g, source, res, done) && v in g && v in res && res[v].distance.Finite? && a in g[v] && a.weight < 0.0
    ensures NegativeReachable(g, source)
  {
    assert Grounded(g, source, res, done, v);
    var p :| Leads(g, source, p, v) && Length(p) == res[v].distance.r;
  }

  // ----- the program -----

  method UpdateNeighbor(pq: PriorityQueue, res: Results, v: Node, a: Arc,
                        ghost g: Arcs, ghost source: Node, ghost done: set<Node>, ghost done': set<Node>,
                        ghost todo: set<Arc>, ghost todo': set<Arc>)
    returns (ok: bool, res': Results)
    requires pq.Valid() && Following(g, source, res, done, v, done', todo, pq.Contents())
    requires a in todo && todo' == todo - {a}
    modifies pq
    ensures pq.Valid()
    ensures if ok then Following(g, source, res', done, v, done', todo', pq.Contents())
      else NegativeReachable(g, source)
  {
    ghost var held := pq.Contents();
    var w := Other(a, v);
    var distance := Plus(res[v].distance, a.weight);
    res' := res;
    if a.weight < 0.0 {
      NegativeFound(g, source, res, done', v, a);
      return false, res';
    }
    if Less(distance, res[w].distance) {
      res' := res[w := Result(distance, Some(v))];
      BetterIsUnfinished(g, source, res, done, v, done', todo, held, a, w, distance);
      Improve(g, source, res, done, v, done', todo, held, a, todo', w, distance, res', held[w := distance]);
      var o := pq.Decrease(w, distance);
      assert o.Done?;
    } else {
      PassOver(g, source, res, done, v, done', todo, held, a, todo');
    }
    ok := true;
  }

  method Initialize(g: Arcs, source: Node, pq: PriorityQueue) returns (res: Results)
    requires pq.Valid() && pq.Contents() == map[]
    modifies pq
    ensures pq.Valid() && res == Start(g, source) && Queued(pq.Contents(), res, {})
  {
    res := map[];
    var todo := g.Keys;
    while todo != {}
      invariant pq.Valid() && todo <= g.Keys && res.Keys == g.Keys - todo && Queued(pq.Contents(), res, {})
      invariant forall x :: x in res ==> res[x] == AtStart(source, x)
      decreases todo
    {
      var v :| v in todo;
      TakeOne(g.Keys, todo, v);
      todo := todo - {v};
      res := res[v := AtStart(source, v)];
      var added := pq.Add(v, res[v].distance);
    }
  }

  function AtStart(source: Node, x: Node): Result {
    Result(if x == source then Finite(0.0) else Infinite, None)
  }

  function Start(g: Arcs, source: Node): Results {
    map x | x in g :: AtStart(source, x)
  }

  lemma StartIsSettled(g: Arcs, source: Node, res: Results, none: set<Node>, held: map<Node, Dist>)
    requires IsGraph(g) && res == Start(g, source) && none == {} && Queued(held, res, none)
    ensures Settled(g, source, res, none, held)
  {
    forall x | x in g ensures Grounded(g, source, res, none, x) {
      if x == source { assert Leads(g, source, [], x) && Length([]) == 0.0; }
    }
  }

  /** Follows the edges of v, whose distance is final. */
  method FollowEdges(pq: PriorityQueue, res: Results, v: Node, g: Arcs, ghost source: Node, ghost done: set<Node>,
                     ghost done': set<Node>)
    returns (ok: bool, res': Results)
    requires v in g && pq.Valid() && Following(g, source, res, done, v, done', g[v], pq.Contents())
    modifies pq
    ensures pq.Valid()
    ensures if ok then Settled(g, source, res', done', pq.Contents()) else NegativeReachable(g, source)
  {
    var todo := g[v];
    res' := res;
    while todo != {}
      invariant pq.Valid() && Following(g, source, res', done, v, done', todo, pq.Contents())
      decreases todo
    {
      var a :| a in todo;
      ghost var left := todo;
      todo := todo - {a};
      ok, res' := UpdateNeighbor(pq, res', v, a, g, source, done, done', left, todo);
      if !ok { return; }
    }
    Finish(g, source, res', done, v, done', todo, pq.Contents());
    ok := true;
  }

  lemma LeastIsNode(g: Arcs, source: Node, res: Results, done: set<Node>, held: map<Node, Dist>, v: Node)
    requires Settled(g, source, res, done, held) && IsLeast(held, v)
    ensures v in g && v in res && v !in done
    ensures res[v].distance.Infinite? ==> forall x :: x in held ==> held[x].Infinite?
  {
  }

  /** None is the error for a negative weight. It comes exactly when a negative edge can be reached. */
  method RunDijkstra(g: Arcs, source: Node) returns (r: Option<Results>)
    requires IsGraph(g)
    ensures r.None? <==> NegativeReachable(g, source)
    ensures r.Some? ==> Shortest(g, source, r.value)
  {
    var pq := new PriorityQueue();
    var res := Initialize(g, source, pq);
    ghost var done: set<Node> := {};
    StartIsSettled(g, source, res, done, pq.Contents());
    var size := pq.Size();
    while size > 0
      invariant pq.Valid() && fresh(pq) && size == |pq.Contents()| && Settled(g, source, res, done, pq.Contents())
      decreases g.Keys - done
    {
      ghost var held := pq.Contents();
      var v := pq.RemoveMin();
      LeastIsNode(g, source, res, done, held, v);
      if res[v].distance.Infinite? {
        Exact(g, source, res, done, held);
        return Some(res);
      }
      ghost var done', todo := done + {v}, g[v];
      Begin(g, source, res, done, held, v, done', pq.Contents(), todo);
      var ok;
      ok, res := FollowEdges(pq, res, v, g, source, done, done');
      if !ok { return None; }
      done := done';
      size := pq.Size();
    }
    Exact(g, source, res, done, pq.Contents());
    r := Some(res);
  }
}
