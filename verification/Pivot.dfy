/** Why one pivot of network simplex is sound: the new tree, the new ranks, and their cost. */
module Pivot {
  import opened Graphs
  import opened Sums
  import opened Ranking
  import opened TreeLabels
  import opened CutValues

  ghost function Exchanged(rt: Rooting, c: Node, f: Edge): set<Pair>
    requires rt.Valid() && c in rt.nodes && c != rt.root
  {
    rt.edges - {Und(c, rt.Parent(c))} + {Und(f.v, f.w)}
  }

  /** Each tree edge is the edge from one of its ends to that end's parent. */
  lemma ChildEnd(rt: Rooting, p: Pair) returns (c: Node)
    requires rt.Valid() && p in rt.edges && p.a.id < p.b.id
    ensures c in rt.nodes && c != rt.root && Und(c, rt.Parent(c)) == p
  {
    c := if rt.labels[p.a].parent == Some(p.b) then p.a else p.b;
    assert c != rt.root;
  }

  lemma EdgeAboveIsUnique(rt: Rooting, c: Node, d: Node)
    requires rt.Valid() && c in rt.nodes && d in rt.nodes && c != rt.root && d != rt.root
    requires Und(c, rt.Parent(c)) == Und(d, rt.Parent(d))
    ensures c == d
  {
  }

  /** The edge above c is the only tree edge that leaves the subtree of c. */
  lemma OnlyEdgeAboveCrosses(rt: Rooting, c: Node, p: Pair)
    requires rt.Valid() && c in rt.nodes && c != rt.root && p in rt.edges && p.a.id < p.b.id
    ensures Crosses(rt.Subtree(c), p.a, p.b) <==> p == Und(c, rt.Parent(c))
  {
    var d := ChildEnd(rt, p);
    if d == c {
      if rt.Below(c, rt.Parent(c)) { rt.BelowLim(c, rt.Parent(c)); }
    } else if p == Und(c, rt.Parent(c)) {
      EdgeAboveIsUnique(rt, c, d);
    }
  }

  /** If only the edge above c crosses S, then S holds all or nothing of c's subtree, and all or
      nothing of the rest. */
  lemma {:induction false} SidesStayTogether(rt: Rooting, c: Node, S: set<Node>, x: Node)
    requires rt.Valid() && PairsOf(rt.nodes, rt.edges) && c in rt.nodes && c != rt.root && x in rt.nodes
    requires forall p :: p in rt.edges && p != Und(c, rt.Parent(c)) ==> !Crosses(S, p.a, p.b)
    ensures x in S <==> (if rt.Below(c, x) then c else rt.root) in S
    decreases rt.labels[rt.root].lim - rt.labels[x].lim
  {
    if x != c && x != rt.root {
      var p := rt.Parent(x);
      if Und(x, p) == Und(c, rt.Parent(c)) { EdgeAboveIsUnique(rt, x, c); }
      SidesStayTogether(rt, c, S, p);
    }
  }

  lemma ExchangeLinks(rt: Rooting, c: Node, f: Edge, S: set<Node>)
    requires rt.Valid() && SpanningTree(rt.nodes, rt.edges) && c in rt.nodes && c != rt.root
    requires f.v in rt.nodes && f.w in rt.nodes && Crosses(rt.Subtree(c), f.v, f.w)
    requires S <= rt.nodes && S != {} && S != rt.nodes
    ensures exists p :: p in Exchanged(rt, c, f) && Crosses(S, p.a, p.b)
  {
    var e, T := Und(c, rt.Parent(c)), Exchanged(rt, c, f);
    var q := CrossingPair(rt.nodes, rt.edges, S);
    if q != e {
      assert q in T && Crosses(S, q.a, q.b);
    } else if p :| p in rt.edges && p != e && Crosses(S, p.a, p.b) {
      assert p in T;
    } else {
      SidesStayTogether(rt, c, S, f.v);
      SidesStayTogether(rt, c, S, f.w);
      SidesStayTogether(rt, c, S, rt.Parent(c));
      OnlyEdgeAboveCrosses(rt, c, e);
      var p := Und(f.v, f.w);
      assert p in T && Crosses(S, p.a, p.b);
    }
  }

  lemma CrossingPair(V: set<Node>, T: set<Pair>, S: set<Node>) returns (p: Pair)
    requires LinksAll(V, T) && S <= V && S != {} && S != V
    ensures p in T && Crosses(S, p.a, p.b)
  {
    p :| p in T && Crosses(S, p.a, p.b);
  }

  /** Swapping the edge above c for any graph edge that leaves c's subtree gives a spanning tree again. */
  lemma ExchangeKeepsTree(rt: Rooting, c: Node, f: Edge)
    requires rt.Valid() && SpanningTree(rt.nodes, rt.edges) && c in rt.nodes && c != rt.root
    requires f.v in rt.nodes && f.w in rt.nodes && Crosses(rt.Subtree(c), f.v, f.w)
    ensures SpanningTree(rt.nodes, Exchanged(rt, c, f))
  {
    var e, p := Und(c, rt.Parent(c)), Und(f.v, f.w);
    forall S: set<Node> | S <= rt.nodes && S != {} && S != rt.nodes
      ensures exists p :: p in Exchanged(rt, c, f) && Crosses(S, p.a, p.b)
    {
      ExchangeLinks(rt, c, f, S);
    }
    if p in rt.edges { OnlyEdgeAboveCrosses(rt, c, p); }
    assert p !in rt.edges - {e} && e in rt.edges;
  }

  // ----- the new ranks -----

  /** How far the subtree of the leaving edge moves. */
  ghost function Shift(rt: Rooting, rank: map<Node, int>, c: Node, f: Edge): int
    requires rt.Valid() && f.v in rank && f.w in rank
  {
    if f.v in rt.Subtree(c) then Slack(rank, f) else -Slack(rank, f)
  }

  /** A root rank and tight tree edges determine every rank. */
  lemma {:induction false} TightRanksAreUnique(rt: Rooting, E: set<Edge>, r: map<Node, int>, s: map<Node, int>, x: Node)
    requires rt.Valid() && Simple(rt.nodes, E) && r.Keys == rt.nodes && s.Keys == rt.nodes
    requires Tight(E, r, rt.edges) && Tight(E, s, rt.edges) && r[rt.root] == s[rt.root] && x in rt.nodes
    ensures r[x] == s[x]
    decreases rt.labels[rt.root].lim - rt.labels[x].lim
  {
    if x != rt.root {
      var p := rt.Parent(x);
      TightRanksAreUnique(rt, E, r, s, p);
      assert TightPair(E, r, Und(x, p)) && TightPair(E, s, Und(x, p));
    }
  }

  lemma ShiftIsTight(rt: Rooting, E: set<Edge>, rank: map<Node, int>, c: Node, f: Edge)
    requires rt.Valid() && PairsOf(rt.nodes, rt.edges) && c in rt.nodes && c != rt.root && rank.Keys == rt.nodes
    requires Tight(E, rank, rt.edges)
    requires f in E && f.v in rt.nodes && f.w in rt.nodes && Crosses(rt.Subtree(c), f.v, f.w)
    ensures Tight(E, Shifted(rank, rt.Subtree(c), Shift(rt, rank, c, f)), Exchanged(rt, c, f))
  {
    var r := Shifted(rank, rt.Subtree(c), Shift(rt, rank, c, f));
    forall p | p in Exchanged(rt, c, f) ensures TightPair(E, r, p) {
      if p == Und(f.v, f.w) {
        assert Slack(r, f) == 0;
      } else {
        OnlyEdgeAboveCrosses(rt, c, p);
        ShiftKeepsPairTight(E, rank, rt.Subtree(c), Shift(rt, rank, c, f), p);
      }
    }
  }

  lemma ShiftKeepsPairTight(E: set<Edge>, rank: map<Node, int>, S: set<Node>, k: int, p: Pair)
    requires TightPair(E, rank, p) && !Crosses(S, p.a, p.b)
    ensures TightPair(E, Shifted(rank, S, k), p)
  {
    var e :| e in E && Und(e.v, e.w) == p && e.v in rank && e.w in rank && Slack(rank, e) == 0;
    assert Slack(Shifted(rank, S, k), e) == 0;
  }

  /** The ranks that updateRanks reads off the new tree differ from the old ones by one shift of the
      subtree that the leaving edge cut off. */
  lemma NewRanksAreShifted(rt: Rooting, E: set<Edge>, rank: map<Node, int>, c: Node, f: Edge, rt': Rooting,
                           rank': map<Node, int>)
    requires rt.Valid() && PairsOf(rt.nodes, rt.edges) && Simple(rt.nodes, E) && c in rt.nodes && c != rt.root
    requires rank.Keys == rt.nodes && Tight(E, rank, rt.edges)
    requires f in E && Crosses(rt.Subtree(c), f.v, f.w)
    requires rt'.Valid() && rt'.nodes == rt.nodes && rt'.root == rt.root && rt'.edges == Exchanged(rt, c, f)
    requires rank'.Keys == rt.nodes && Tight(E, rank', rt'.edges) && rank'[rt.root] == rank[rt.root]
    ensures rank' == Shifted(rank, rt.Subtree(c), Shift(rt, rank, c, f))
  {
    var r := Shifted(rank, rt.Subtree(c), Shift(rt, rank, c, f));
    ShiftIsTight(rt, E, rank, c, f);
    assert !rt.Below(c, rt.root);
    forall x | x in rt.nodes ensures rank'[x] == r[x] {
      TightRanksAreUnique(rt', E, rank', r, x);
    }
  }

  /** f enters against the leaving edge: from the head side to the tail side, and no such edge is shorter
      of its minimum length. */
  ghost predicate Enters(rt: Rooting, E: set<Edge>, rank: map<Node, int>, c: Node, f: Edge)
    requires rt.Valid() && c in rt.nodes && c != rt.root && Feasible(rt.nodes, E, rank)
  {
    && f in E && f.v in HeadSide(rt, E, c) && f.w in TailSide(rt, E, c)
    && (forall e :: e in E && e.v in HeadSide(rt, E, c) && e.w in TailSide(rt, E, c) ==>
        Slack(rank, f) <= Slack(rank, e))
  }

  lemma EntersCrosses(rt: Rooting, E: set<Edge>, rank: map<Node, int>, c: Node, f: Edge)
    requires rt.Valid() && c in rt.nodes && c != rt.root && Feasible(rt.nodes, E, rank) && Enters(rt, E, rank, c, f)
    ensures Crosses(rt.Subtree(c), f.v, f.w)
  {
  }

  lemma PivotKeepsFeasible(rt: Rooting, E: set<Edge>, rank: map<Node, int>, c: Node, f: Edge)
    requires rt.Valid() && c in rt.nodes && c != rt.root && Feasible(rt.nodes, E, rank) && Enters(rt, E, rank, c, f)
    ensures Feasible(rt.nodes, E, Shifted(rank, rt.Subtree(c), Shift(rt, rank, c, f)))
  {
    var S := rt.Subtree(c);
    assert HeadSide(rt, E, c) == rt.nodes - TailSide(rt, E, c);
    forall e | e in E ensures Slack(Shifted(rank, S, Shift(rt, rank, c, f)), e) >= 0 {
      assert Slack(rank, e) >= 0 && Slack(rank, f) >= 0;
    }
  }

  lemma CostOfShift(E: set<Edge>, rank: map<Node, int>, S: set<Node>, k: int)
    requires forall e :: e in E ==> e.v in rank && e.w in rank
    ensures Cost(E, Shifted(rank, S, k)) == Cost(E, rank) - k * Net(E, S)
  {
    var shifted := Shifted(rank, S, k);
    var after, before := (e: Edge) => CostTerm(shifted, e), (e: Edge) => CostTerm(rank, e);
    var net := (e: Edge) => NetTerm(S, e);
    forall e | e in E ensures after(e) == 1 * before(e) + (-k) * net(e) {
      ShiftTerm(rank, S, k, e);
    }
    SumLinear(E, after, 1, before, -k, net);
    MinusProduct(k, Sum(E, net));
  }

  lemma MinusProduct(k: int, n: int)
    ensures (-k) * n == -(k * n)
  {
  }

  lemma ShiftTerm(rank: map<Node, int>, S: set<Node>, k: int, e: Edge)
    requires e.v in rank && e.w in rank
    ensures CostTerm(Shifted(rank, S, k), e) == CostTerm(rank, e) + (-k) * NetTerm(S, e)
  {
    ShiftProduct(e.weight, RankOf(rank, e.w) - RankOf(rank, e.v), k, Ind(S, e.v) - Ind(S, e.w));
  }

  lemma ShiftProduct(weight: int, length: int, k: int, i: int)
    ensures weight * (length - k * i) == weight * length + (-k) * (weight * i)
  {
    assert weight * (k * i) == k * (weight * i);
  }

  /** A pivot changes the cost by exactly the leaving cut value times the entering slack. */
  lemma PivotCost(rt: Rooting, E: set<Edge>, rank: map<Node, int>, c: Node, f: Edge)
    requires rt.Valid() && Simple(rt.nodes, E) && c in rt.nodes && c != rt.root
    requires Feasible(rt.nodes, E, rank) && Enters(rt, E, rank, c, f)
    ensures Cost(E, Shifted(rank, rt.Subtree(c), Shift(rt, rank, c, f))) ==
      Cost(E, rank) + CutValue(rt, E, c) * Slack(rank, f)
  {
    CostOfShift(E, rank, rt.Subtree(c), Shift(rt, rank, c, f));
    CutValueIsNet(rt, E, c);
    assert Shift(rt, rank, c, f) == -Sign(rt, E, c) * Slack(rank, f);
    Regroup(Sign(rt, E, c), Slack(rank, f), Net(E, rt.Subtree(c)));
  }

  lemma Regroup(s: int, d: int, n: int)
    ensures -((-s * d) * n) == (s * n) * d
  {
    assert (s * n) * d == s * (n * d) && (s * d) * n == s * (d * n);
    assert (-s * d) * n == -((s * d) * n);
  }

  /** A negative cut value leaves an edge to enter. */
  lemma NegativeCutHasEntry(rt: Rooting, E: set<Edge>, c: Node)
    requires rt.Valid() && c in rt.nodes && c != rt.root && CutValue(rt, E, c) < 0
    requires forall e :: e in E ==> e.weight >= 0
    ensures exists f :: f in E && f.v in HeadSide(rt, E, c) && f.w in TailSide(rt, E, c)
  {
    var A, B := HeadSide(rt, E, c), TailSide(rt, E, c);
    var back := (e: Edge) => if e.v in A && e.w in B then e.weight else 0;
    var forth := (e: Edge) => if e.v in B && e.w in A then e.weight else 0;
    SumLinear(E, (e: Edge) => 0, 0, forth, 0, forth);
    SumMonotone(E, (e: Edge) => 0, forth);
    if forall e :: e in E ==> !(e.v in A && e.w in B) {
      SumLinear(E, back, 0, back, 0, back);
    }
  }
}
