/** Merging parallel edges before ranking, and what the ranks mean for the original multigraph. */
module Simplify {
  import opened Graphs
  import opened Sums
  import opened Ranking
  import opened CutValues
  import NetworkSimplex
  import PivotRuns

  /** An edge of the multigraph; parallel edges differ in their name. */
  datatype MultiEdge = MultiEdge(v: Node, w: Node, name: nat, weight: int, minlen: int)

  ghost predicate MultiFeasible(V: set<Node>, M: set<MultiEdge>, rank: map<Node, int>) {
    && rank.Keys == V
    && (forall m :: m in M ==> m.v in V && m.w in V && rank[m.w] - rank[m.v] >= m.minlen)
  }

  /** No edge is flat or points backward. */
  ghost predicate Separated(M: set<MultiEdge>, rank: map<Node, int>) {
    forall m :: m in M ==> m.v in rank && m.w in rank && rank[m.w] - rank[m.v] >= 1
  }

  ghost function MultiCost(M: set<MultiEdge>, rank: map<Node, int>): int {
    Sum(M, (m: MultiEdge) => m.weight * (RankOf(rank, m.w) - RankOf(rank, m.v)))
  }

  predicate Same(e: Edge, m: MultiEdge) {
    e.v == m.v && e.w == m.w
  }

  /** E has one edge for every pair of nodes that M joins; its minimum length is the largest of the
      parallel ones, but at least 1. */
  ghost predicate Merges(E: set<Edge>, M: set<MultiEdge>) {
    && (forall e, f :: e in E && f in E && e.v == f.v && e.w == f.w ==> e == f)
    && (forall m {:trigger HasEdge(E, m.v, m.w)} :: m in M ==> HasEdge(E, m.v, m.w))
    && (forall e {:trigger Stems(M, e)} :: e in E ==> Stems(M, e))
    && (forall e, m :: e in E && m in M && Same(e, m) ==> e.minlen >= m.minlen)
    && (forall e {:trigger LeastOf(M, e)} :: e in E ==> LeastOf(M, e))
  }

  ghost predicate Stems(M: set<MultiEdge>, e: Edge) {
    exists m :: m in M && Same(e, m)
  }

  ghost predicate LeastOf(M: set<MultiEdge>, e: Edge) {
    e.minlen >= 1 && (e.minlen == 1 || exists m :: m in M && Same(e, m) && m.minlen == e.minlen)
  }

  ghost predicate SameCost(E: set<Edge>, M: set<MultiEdge>) {
    forall rank :: Cost(E, rank) == MultiCost(M, rank)
  }

  ghost function Absorbed(E: set<Edge>, m: MultiEdge, old': Option<Edge>): set<Edge> {
    match old'
    case Some(o) => E - {o} + {Edge(m.v, m.w, o.weight + m.weight, MaxInt(o.minlen, m.minlen))}
    case None => E + {Edge(m.v, m.w, m.weight, MaxInt(1, m.minlen))}
  }

  lemma MergeOneMore(E: set<Edge>, M: set<MultiEdge>, m: MultiEdge, o: Option<Edge>)
    requires Merges(E, M)
    requires if o.Some? then o.value in E && Same(o.value, m) else !HasEdge(E, m.v, m.w)
    ensures Merges(Absorbed(E, m, o), M + {m})
  {
    var E', M' := Absorbed(E, m, o), M + {m};
    var n := if o.Some? then Edge(m.v, m.w, o.value.weight + m.weight, MaxInt(o.value.minlen, m.minlen))
             else Edge(m.v, m.w, m.weight, MaxInt(1, m.minlen));
    assert n in E' && Same(n, m);
    forall x | x in M' ensures HasEdge(E', x.v, x.w) {
      if x in M {
        assert HasEdge(E, x.v, x.w);
        var e :| e in E && Same(e, x);
        assert if o == Some(e) then Same(n, x) else e in E';
      }
    }
    forall e | e in E' ensures Stems(M', e) && LeastOf(M', e) {
      if e == n {
        assert m in M';
        if o.Some? && LeastOf(M, o.value) && e.minlen != m.minlen && e.minlen != 1 {
          var x :| x in M && Same(o.value, x) && x.minlen == e.minlen;
          assert x in M';
        }
      } else {
        StemsInMore(M, M', e);
      }
    }
  }

  lemma StemsInMore(M: set<MultiEdge>, M': set<MultiEdge>, e: Edge)
    requires M <= M' && Stems(M, e) && LeastOf(M, e)
    ensures Stems(M', e) && LeastOf(M', e)
  {
    var m :| m in M && Same(e, m);
    assert m in M';
    if e.minlen != 1 {
      var x :| x in M && Same(e, x) && x.minlen == e.minlen;
      assert x in M';
    }
  }

  lemma MultiCostOneMore(M: set<MultiEdge>, m: MultiEdge, rank: map<Node, int>)
    requires m !in M
    ensures MultiCost(M + {m}, rank) == MultiCost(M, rank) + m.weight * (RankOf(rank, m.w) - RankOf(rank, m.v))
  {
    SumPick(M + {m}, (x: MultiEdge) => x.weight * (RankOf(rank, x.w) - RankOf(rank, x.v)), m);
    assert M + {m} - {m} == M;
  }

  lemma CostReplaced(E: set<Edge>, o: Edge, n: Edge, rank: map<Node, int>)
    requires o in E && n !in E - {o} && n.v == o.v && n.w == o.w
    ensures Cost(E - {o} + {n}, rank) == Cost(E, rank) + (n.weight - o.weight) * (RankOf(rank, o.w) - RankOf(rank, o.v))
  {
    CostPick(E, rank, o);
    CostPick(E - {o} + {n}, rank, n);
    assert E - {o} + {n} - {n} == E - {o};
    Scale(n.weight, o.weight, RankOf(rank, o.w) - RankOf(rank, o.v));
  }

  lemma Scale(a: int, b: int, l: int)
    ensures a * l - b * l == (a - b) * l
  {
  }

  lemma CostOneMore(E: set<Edge>, M: set<MultiEdge>, m: MultiEdge, o: Option<Edge>, rank: map<Node, int>)
    requires Merges(E, M) && m !in M
    requires if o.Some? then o.value in E && Same(o.value, m) else !HasEdge(E, m.v, m.w)
    requires Cost(E, rank) == MultiCost(M, rank)
    ensures Cost(Absorbed(E, m, o), rank) == MultiCost(M + {m}, rank)
  {
    MultiCostOneMore(M, m, rank);
    if o.Some? {
      CostReplaced(E, o.value, Edge(m.v, m.w, o.value.weight + m.weight, MaxInt(o.value.minlen, m.minlen)), rank);
    } else {
      var n := Edge(m.v, m.w, m.weight, MaxInt(1, m.minlen));
      CostPick(E + {n}, rank, n);
      assert E + {n} - {n} == E;
    }
  }

  method SimplifyEdges(M: set<MultiEdge>) returns (E: set<Edge>)
    ensures Merges(E, M) && SameCost(E, M)
    ensures (forall m :: m in M ==> m.weight >= 0) ==> forall e :: e in E ==> e.weight >= 0
  {
    E := {};
    var todo := M;
    ghost var done: set<MultiEdge> := {};
    while todo != {}
      invariant done + todo == M && done !! todo
      invariant Merges(E, done) && SameCost(E, done)
      invariant (forall m :: m in M ==> m.weight >= 0) ==> forall e :: e in E ==> e.weight >= 0
      decreases todo
    {
      var m :| m in todo;
      todo := todo - {m};
      ghost var before := E;
      ghost var o: Option<Edge> := None;
      var simple := Edge(m.v, m.w, 0, 1);
      if HasEdge(E, m.v, m.w) {
        simple :| simple in E && simple.v == m.v && simple.w == m.w;
        o := Some(simple);
        E := E - {simple};
      }
      E := E + {Edge(m.v, m.w, simple.weight + m.weight, MaxInt(simple.minlen, m.minlen))};
      assert E == Absorbed(before, m, o);
      MergeOneMore(before, done, m, o);
      forall rank ensures Cost(E, rank) == MultiCost(done + {m}, rank) {
        CostOneMore(before, done, m, o, rank);
      }
      done := done + {m};
    }
    assert done == M;
  }

  /** A ranking is feasible for the merged graph exactly when it is feasible for the multigraph and
      keeps the ends of every edge apart. */
  lemma FeasibleIffSeparated(V: set<Node>, E: set<Edge>, M: set<MultiEdge>, rank: map<Node, int>)
    requires Merges(E, M)
    ensures Feasible(V, E, rank) <==> MultiFeasible(V, M, rank) && Separated(M, rank)
  {
    if Feasible(V, E, rank) {
      forall m | m in M
        ensures m.v in V && m.w in V && rank[m.w] - rank[m.v] >= m.minlen && rank[m.w] - rank[m.v] >= 1
      {
        assert HasEdge(E, m.v, m.w);
        var e :| e in E && Same(e, m);
        assert LeastOf(M, e) && Slack(rank, e) >= 0;
      }
    }
    if MultiFeasible(V, M, rank) && Separated(M, rank) {
      forall e | e in E ensures e.v in V && e.w in V && Slack(rank, e) >= 0 {
        assert Stems(M, e) && LeastOf(M, e);
        var m :| m in M && Same(e, m);
        if e.minlen != 1 { var x :| x in M && Same(e, x) && x.minlen == e.minlen; }
      }
    }
  }

  /** With minimum lengths of at least 1, merging changes neither the feasible rankings nor their cost. */
  lemma MergingIsExact(V: set<Node>, E: set<Edge>, M: set<MultiEdge>, rank: map<Node, int>)
    requires Merges(E, M) && forall m :: m in M ==> m.minlen >= 1
    ensures Feasible(V, E, rank) <==> MultiFeasible(V, M, rank)
  {
    FeasibleIffSeparated(V, E, M, rank);
  }

  /** A flat edge of minimum length 0 may be ranked at cost 0, but never once it is merged. */
  lemma ZeroMinlenIsNotKept()
    ensures var v, w := Node(0), Node(1);
      var M := {MultiEdge(v, w, 0, 1, 0)};
      var flat := map[v := 0, w := 0];
      MultiFeasible({v, w}, M, flat) && forall E :: Merges(E, M) ==> !Feasible({v, w}, E, flat)
  {
    var v, w := Node(0), Node(1);
    var M := {MultiEdge(v, w, 0, 1, 0)};
    forall E | Merges(E, M) ensures !Feasible({v, w}, E, map[v := 0, w := 0]) {
      FeasibleIffSeparated({v, w}, E, M, map[v := 0, w := 0]);
      assert MultiEdge(v, w, 0, 1, 0) in M;
    }
  }

  // ----- the whole ranker -----

  ghost predicate MultiTopological(V: set<Node>, M: set<MultiEdge>, topo: map<Node, int>) {
    && topo.Keys == V
    && (forall m :: m in M ==> m.v in V && m.w in V && topo[m.v] < topo[m.w])
  }

  ghost predicate MultiConnected(V: set<Node>, M: set<MultiEdge>) {
    forall S: set<Node> :: S <= V && S != {} && S != V ==> exists m :: m in M && Crosses(S, m.v, m.w)
  }

  lemma MergedIsTopological(V: set<Node>, E: set<Edge>, M: set<MultiEdge>, topo: map<Node, int>)
    requires Merges(E, M) && MultiTopological(V, M, topo)
    ensures IsTopological(V, E, topo) && Simple(V, E)
  {
    forall e | e in E ensures e.v in V && e.w in V && topo[e.v] < topo[e.w] {
      assert Stems(M, e);
      var m :| m in M && Same(e, m);
    }
  }

  lemma MergedIsConnected(V: set<Node>, E: set<Edge>, M: set<MultiEdge>)
    requires Merges(E, M) && MultiConnected(V, M)
    ensures Connected(V, E)
  {
    forall S: set<Node> | S <= V && S != {} && S != V ensures exists e :: e in E && Crosses(S, e.v, e.w) {
      var m :| m in M && Crosses(S, m.v, m.w);
      assert HasEdge(E, m.v, m.w);
      var e :| e in E && Same(e, m);
      assert Crosses(S, e.v, e.w);
    }
  }

  /** networkSimplex on a connected acyclic multigraph: the ranks keep every minimum length, and when the
      pivoting has stopped no ranking that does so, and keeps the ends of every edge apart, costs less. */
  method RankMultigraph(V: set<Node>, M: set<MultiEdge>, order: seq<Node>, rounds: nat, ghost topo: map<Node, int>)
    returns (rank: map<Node, int>, finished: bool, ghost E: set<Edge>, ghost run: PivotRuns.Run)
    requires MultiTopological(V, M, topo) && MultiConnected(V, M) && forall m :: m in M ==> m.weight >= 0
    requires order != [] && forall v :: v in order <==> v in V
    ensures MultiFeasible(V, M, rank) && Separated(M, rank)
    ensures Merges(E, M) && PivotRuns.IsRun(V, E, run) == true && rank == run.s.rank
    ensures PivotRuns.Length(run) <= rounds && (!finished ==> PivotRuns.Length(run) == rounds)
    ensures NetworkSimplex.StopsInTime(V, E, run, rounds, finished)
    ensures finished ==> forall other :: MultiFeasible(V, M, other) && Separated(M, other) ==>
      MultiCost(M, rank) <= MultiCost(M, other)
  {
    var merged := SimplifyEdges(M);
    E := merged;
    MergedIsTopological(V, E, M, topo);
    MergedIsConnected(V, E, M);
    var g := new LayoutGraph(V, merged);
    var t;
    ghost var costs;
    t, finished, costs, run := NetworkSimplex.Run(g, order, rounds, topo);
    rank := g.rank;
    FeasibleIffSeparated(V, E, M, rank);
    if finished {
      forall other | MultiFeasible(V, M, other) && Separated(M, other)
        ensures MultiCost(M, rank) <= MultiCost(M, other) {
        FeasibleIffSeparated(V, E, M, other);
        assert Cost(E, rank) <= Cost(E, other);
      }
    }
  }
}
