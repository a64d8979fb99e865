/** The depth-first search that runs Tarjan's algorithm on its mutable records. */
module TarjanSearch {
  import opened Graphs
  import opened Sums
  import opened Reachability
  import opened StrongComponents

  /** The variables the search shares: its record st, and the lowlink of every visited node. */
  class TarjanRun {
    const g: Succ
    var st: Search
    var lowlink: map<Node, nat>

    constructor (g: Succ)
      ensures this.g == g && st == Search(0, [], map[], map[], []) && lowlink == map[]
    {
      this.g := g;
      st, lowlink := Search(0, [], map[], map[], []), map[];
    }

    method Dfs(v: Node, ghost gray: set<Node>)
      requires lowlink.Keys == st.idx.Keys && Enterable(g, st, gray, v)
      modifies this
      ensures lowlink.Keys == st.idx.Keys && v in lowlink && Searched(g, old(st), st, gray, v, lowlink[v])
      ensures forall x :: x in old(lowlink) ==> x in lowlink && lowlink[x] == old(lowlink[x])
      decreases g.Keys - st.idx.Keys, 0
    {
      ghost var s, gray' := st, gray + {v};
      ghost var P: set<Node> := {};
      ghost var p := Push(s, v);
      EnterNode(g, s, gray, v, gray', p, P);
      lowlink := lowlink[v := st.index];
      st := Push(st, v);
      ghost var t := st;
      var todo := g[v];
      ghost var all := todo;
      while todo != {}
        invariant todo <= all && P == all - todo
        invariant lowlink.Keys == st.idx.Keys && v in lowlink && InLoop(g, s, p, st, v, gray', P, lowlink[v])
        invariant forall x :: x in old(lowlink) ==> x in lowlink && lowlink[x] == old(lowlink[x])
        decreases todo
      {
        var w :| w in todo;
        TakeOne(all, todo, w);
        todo := todo - {w};
        ghost var P' := P + {w};
        Visit(v, w, gray', s, p, P, P');
        P := P';
      }
      SameSet(P, all);
      Finish(v, gray, gray', s, p, P);
    }

    /** Treats one successor w of v. */
    method Visit(v: Node, w: Node, ghost gray: set<Node>, ghost s: Search, ghost p: Search, ghost P: set<Node>,
                 ghost P': set<Node>)
      requires lowlink.Keys == st.idx.Keys && v in lowlink && InLoop(g, s, p, st, v, gray, P, lowlink[v])
      requires v in g && w in g[v] && P' == P + {w}
      modifies this
      ensures lowlink.Keys == st.idx.Keys && v in lowlink && InLoop(g, s, p, st, v, gray, P', lowlink[v])
      ensures forall x :: x in old(lowlink) && x != v ==> x in lowlink && lowlink[x] == old(lowlink[x])
      decreases g.Keys - st.idx.Keys, 2
    {
      ghost var t, m := st, lowlink[v];
      if w !in st.idx {
        VisitNew(v, w, gray, s, p, P, P');
      } else if st.onStack[w] {
        lowlink := lowlink[v := MinInt(lowlink[v], st.idx[w])];
        LoopStackNode(g, s, p, t, v, gray, P, m, w, P', lowlink[v]);
      } else {
        LoopDoneNode(g, s, p, t, v, gray, P, m, w, P');
      }
    }

    method VisitNew(v: Node, w: Node, ghost gray: set<Node>, ghost s: Search, ghost p: Search, ghost P: set<Node>,
                    ghost P': set<Node>)
      requires lowlink.Keys == st.idx.Keys && v in lowlink && InLoop(g, s, p, st, v, gray, P, lowlink[v])
      requires v in g && w in g[v] && w !in st.idx && P' == P + {w}
      modifies this
      ensures lowlink.Keys == st.idx.Keys && v in lowlink && InLoop(g, s, p, st, v, gray, P', lowlink[v])
      ensures forall x :: x in old(lowlink) && x != v ==> x in lowlink && lowlink[x] == old(lowlink[x])
      decreases g.Keys - st.idx.Keys, 1
    {
      var m := lowlink[v];
      ghost var t := st;
      ReachFromGray(g, s, p, t, v, gray, P, m, w);
      Dfs(w, gray);
      var n := lowlink[w];
      var m' := MinInt(m, n);
      ghost var u := st;
      LoopNewNode(g, s, p, t, u, v, gray, P, m, w, n, P', m');
      lowlink := lowlink[v := m'];
    }

    /** Hands out the component if v is its root. */
    method Finish(v: Node, ghost gray: set<Node>, ghost gray': set<Node>, ghost s: Search, ghost p: Search,
                  ghost P: set<Node>)
      requires Enterable(g, s, gray, v) && gray' == gray + {v} && P == g[v]
      requires lowlink.Keys == st.idx.Keys && v in lowlink && InLoop(g, s, p, st, v, gray', P, lowlink[v])
      modifies this`st
      ensures st.idx == old(st.idx) && Searched(g, s, st, gray, v, lowlink[v])
    {
      assert Look(0);
      ghost var t, m := st, lowlink[v];
      ExtendsTransitive(s, p, t);
      if lowlink[v] == st.idx[v] {
        ReadyToPop(g, s, p, t, gray, gray', v, P);
        Pop(v, gray, gray', s);
      } else {
        StayOnStack(g, s, t, gray, gray', v, P, m);
        StaysReturned(g, s, t, v, P, m);
      }
    }

    method Pop(v: Node, ghost gray: set<Node>, ghost gray': set<Node>, ghost s: Search)
      requires IsRoot(g, s, st, gray, gray', v) && Popping(g, s, st, st, [], v)
      modifies this`st
      ensures st.idx == old(st.idx) && v in st.idx && Searched(g, s, st, gray, v, st.idx[v])
    {
      ghost var t := st;
      var cmpt: seq<Node> := [];
      var w := v;
      var looped := false;
      while !looped || w != v
        invariant Popping(g, s, t, st, cmpt, v)
        invariant if looped then cmpt != [] && w == cmpt[|cmpt| - 1] else cmpt == []
        invariant looped && w == v <==> |st.stack| == |s.stack|
        decreases |st.stack|
      {
        ghost var before := st;
        w := st.stack[|st.stack| - 1];
        st := PopTop(st);
        ghost var c := cmpt;
        cmpt := cmpt + [w];
        PopOne(g, s, t, before, st, c, cmpt, v, w);
        looped := true;
      }
      ghost var last := st;
      st := HandOut(st, cmpt);
      PopsComponent(g, s, t, gray, gray', last, cmpt, v, st);
    }
  }

  /** v is unvisited, and every gray node leads to it. */
  ghost predicate Enterable(g: Succ, s: Search, gray: set<Node>, v: Node) {
    && v in g && v !in s.idx
    && forall k {:trigger Look(k)} :: Look(k) ==> Invariant(g, s, gray) && forall x :: x in gray ==> Reach(g, x, v)
  }

  /** The search of v, started in s, has ended in t with lowlink n. */
  ghost predicate Searched(g: Succ, s: Search, t: Search, gray: set<Node>, v: Node, n: nat) {
    && v in t.idx && s.idx.Keys <= t.idx.Keys && t.idx.Keys <= g.Keys
    && forall k {:trigger Look(k)} :: Look(k) ==>
      Shape(g, s) && Invariant(g, t, gray) && Extends(s, t) && Returned(g, s, t, v, n)
  }

  /** What holds while the successors of v are treated, those in P being done. */
  ghost predicate InLoop(g: Succ, s: Search, p: Search, t: Search, v: Node, gray: set<Node>, P: set<Node>, m: nat) {
    && t.idx.Keys == t.onStack.Keys && t.idx.Keys <= g.Keys && p.idx.Keys <= t.idx.Keys
    && forall k {:trigger Look(k)} :: Look(k) ==> Treating(g, s, p, t, v, gray, P, m)
  }

  ghost predicate Treating(g: Succ, s: Search, p: Search, t: Search, v: Node, gray: set<Node>, P: set<Node>, m: nat) {
    && Shape(g, s) && v !in s.idx && p == Push(s, v) && Extends(s, p)
    && Invariant(g, t, gray) && Extends(p, t) && v in gray
    && (forall x :: x in gray ==> Reach(g, x, v))
    && Lowest(g, s, t, v, P, m)
  }

  lemma EnterNode(g: Succ, s: Search, gray: set<Node>, v: Node, gray': set<Node>, p: Search, none: set<Node>)
    requires Enterable(g, s, gray, v) && p == Push(s, v) && gray' == gray + {v} && none == {}
    ensures InLoop(g, s, p, p, v, gray', none, s.index)
  {
    assert Look(0);
    PushKeepsInvariant(g, s, gray, v, gray', p);
    EntryIsLowest(g, s, v, none, p);
  }

  /** On entry a node's lowlink is its own index. */
  lemma EntryIsLowest(g: Succ, s: Search, v: Node, none: set<Node>, p: Search)
    requires Shape(g, s) && Shape(g, p) && p == Push(s, v) && v in g && v !in s.idx && none == {}
    ensures Lowest(g, s, p, v, none, s.index)
  {
    assert Target(g, p, v, s.index, v);
  }

  lemma ReachFromGray(g: Succ, s: Search, p: Search, t: Search, v: Node, gray: set<Node>, P: set<Node>, m: nat, w: Node)
    requires InLoop(g, s, p, t, v, gray, P, m) && v in g && w in g[v]
    requires w !in t.idx
    ensures Enterable(g, t, gray, w)
  {
    assert Look(0);
    ReachStep(g, v, w);
    forall x | x in gray ensures Reach(g, x, w) {
      ReachTransitive(g, x, v, w);
    }
  }

  lemma LoopNewNode(g: Succ, s: Search, p: Search, t: Search, u: Search, v: Node, gray: set<Node>, P: set<Node>, m: nat,
                    w: Node, n: nat, P': set<Node>, m': nat)
    requires InLoop(g, s, p, t, v, gray, P, m) && Searched(g, t, u, gray, w, n)
    requires v in g && w in g[v] && P' == P + {w} && m' == MinInt(m, n)
    ensures InLoop(g, s, p, u, v, gray, P', m')
  {
    assert Look(0);
    ExtendsTransitive(p, t, u);
    ExtendsTransitive(s, p, t);
    SeeNewNode(g, s, t, u, v, P, m, w, n, P', m');
  }

  lemma LoopStackNode(g: Succ, s: Search, p: Search, t: Search, v: Node, gray: set<Node>, P: set<Node>, m: nat, w: Node,
                      P': set<Node>, m': nat)
    requires InLoop(g, s, p, t, v, gray, P, m) && v in g && w in g[v]
    requires t.OnStack(w) && w in t.idx && P' == P + {w} && m' == MinInt(m, t.idx[w])
    ensures InLoop(g, s, p, t, v, gray, P', m')
  {
    assert Look(0);
    ExtendsTransitive(s, p, t);
    SeeStackNode(g, s, t, v, P, m, w, P', m');
  }

  lemma LoopDoneNode(g: Succ, s: Search, p: Search, t: Search, v: Node, gray: set<Node>, P: set<Node>, m: nat, w: Node,
                     P': set<Node>)
    requires InLoop(g, s, p, t, v, gray, P, m) && w in t.idx && !t.OnStack(w) && P' == P + {w}
    ensures InLoop(g, s, p, t, v, gray, P', m)
  {
    assert Look(0);
    ExtendsTransitive(s, p, t);
    SeeDoneNode(g, s, t, v, P, m, w, P');
  }

  /** The nodes c have been taken off the stack of t, last first; s's stack and v lie below them or v is
      the last of them. */
  ghost predicate Popping(g: Succ, s: Search, t: Search, u: Search, c: seq<Node>, v: Node) {
    && Shape(g, t) && s.stack + [v] <= t.stack && v in t.idx && t.idx[v] == s.index
    && u.index == t.index && u.idx == t.idx && u.results == t.results && u.onStack.Keys == t.onStack.Keys
    && s.stack <= u.stack <= t.stack && |u.stack| + |c| == |t.stack|
    && (forall i :: 0 <= i < |c| ==> c[i] == t.stack[|t.stack| - 1 - i])
    && (forall x :: x in t.onStack ==> u.onStack[x] == (t.onStack[x] && x !in c))
  }

  lemma PopOne(g: Succ, s: Search, t: Search, u: Search, u': Search, c: seq<Node>, c': seq<Node>, v: Node, w: Node)
    requires Popping(g, s, t, u, c, v) && |u.stack| > |s.stack| && w == u.stack[|u.stack| - 1]
    requires u' == PopTop(u) && c' == c + [w]
    ensures Popping(g, s, t, u', c', v)
    ensures w == v <==> |u'.stack| == |s.stack|
  {
    var k := |u.stack| - 1;
    assert w == t.stack[k] && v == t.stack[|s.stack|] && w in t.stack;
    assert k > |s.stack| ==> t.idx[t.stack[|s.stack|]] < t.idx[t.stack[k]];
    forall x | x in t.onStack ensures u'.onStack[x] == (t.onStack[x] && x !in c') {
      assert x in c' <==> x in c || x == w;
    }
  }

  lemma AboveIsTop(g: Succ, s: Search, t: Search, x: Node)
    requires Shape(g, s) && Shape(g, t) && Extends(s, t) && |s.stack| < |t.stack| && t.stack[|s.stack|] in t.idx
      && t.idx[t.stack[|s.stack|]] == s.index
    ensures x in Above(s, t) <==> exists p :: |s.stack| <= p < |t.stack| && t.stack[p] == x
  {
    if x in Above(s, t) {
      assert x in t.stack;
      assert forall q :: 0 <= q < |s.stack| ==> t.stack[q] in s.stack;
      var p :| 0 <= p < |t.stack| && t.stack[p] == x;
    }
    if p :| |s.stack| <= p < |t.stack| && t.stack[p] == x {
      assert x in t.stack;
      assert p > |s.stack| ==> t.idx[t.stack[|s.stack|]] < t.idx[t.stack[p]];
    }
  }

  lemma PoppedAll(g: Succ, s: Search, t: Search, u: Search, c: seq<Node>, v: Node, u': Search)
    requires Shape(g, s) && Extends(s, t) && Popping(g, s, t, u, c, v) && |u.stack| == |s.stack|
    requires u' == HandOut(u, c)
    ensures PoppedTo(s, t, u', c)
  {
    assert t.stack[|s.stack|] == v;
    forall x ensures x in c <==> x in Above(s, t) {
      AboveIsTop(g, s, t, x);
      if x in c {
        var i :| 0 <= i < |c| && c[i] == x;
        assert t.stack[|t.stack| - 1 - i] == x;
      }
      if p :| |s.stack| <= p < |t.stack| && t.stack[p] == x {
        assert c[|t.stack| - 1 - p] == x;
      }
    }
    SameSet(Elements(c), Above(s, t));
    forall i, j | 0 <= i < j < |c| ensures c[i] != c[j] {
      assert t.idx[t.stack[|t.stack| - 1 - j]] < t.idx[t.stack[|t.stack| - 1 - i]];
    }
  }

  ghost predicate IsRoot(g: Succ, s: Search, t: Search, gray: set<Node>, gray': set<Node>, v: Node) {
    forall k {:trigger Look(k)} :: Look(k) ==> Rooted(g, s, t, gray, gray', v)
  }

  lemma ReadyToPop(g: Succ, s: Search, p: Search, t: Search, gray: set<Node>, gray': set<Node>, v: Node, P: set<Node>)
    requires Invariant(g, s, gray) && v in g && v !in s.idx && gray' == gray + {v} && P == g[v]
    requires Shape(g, t) && v in t.idx && InLoop(g, s, p, t, v, gray', P, t.idx[v])
    ensures IsRoot(g, s, t, gray, gray', v) && Popping(g, s, t, t, [], v)
  {
    assert Look(0);
    ExtendsTransitive(s, p, t);
  }

  lemma PopsComponent(g: Succ, s: Search, t: Search, gray: set<Node>, gray': set<Node>, u: Search, c: seq<Node>,
                      v: Node, u': Search)
    requires IsRoot(g, s, t, gray, gray', v) && Popping(g, s, t, u, c, v) && |u.stack| == |s.stack|
    requires u' == HandOut(u, c)
    ensures v in u'.idx && Searched(g, s, u', gray, v, u'.idx[v])
  {
    assert Look(0);
    PoppedAll(g, s, t, u, c, v, u');
    PopKeepsInvariant(g, s, t, gray, gray', v, u', c);
  }

  // ----- the whole run -----

  /** Each node in exactly one component, each component strongly connected and maximal, and no edge from
      a component to a later one. */
  ghost predicate AreComponents(g: Succ, results: seq<seq<Node>>) {
    && (forall n {:trigger Elements(results[n])} :: 0 <= n < |results| ==>
        IsComponent(g, Elements(results[n])) && NoDuplicates(results[n]))
    && (forall v {:trigger InOneOf(results, v)} :: v in g ==> InOneOf(results, v))
    && (forall m, n {:trigger NoEdgeFromTo(g, results[m], results[n])} :: 0 <= m < n < |results| ==>
        NoEdgeFromTo(g, results[m], results[n]))
  }

  ghost predicate InOneOf(results: seq<seq<Node>>, v: Node) {
    exists n :: 0 <= n < |results| && v in results[n] && forall m :: 0 <= m < |results| && m != n ==> v !in results[m]
  }

  ghost predicate NoEdgeFromTo(g: Succ, c: seq<Node>, d: seq<Node>) {
    forall x, y :: x in c && x in g && y in g[x] ==> y !in d
  }

  lemma {:induction false} CollectedIn(results: seq<seq<Node>>, n: nat, v: Node) returns (k: nat)
    requires n <= |results| && v in Collected(results, n)
    ensures k < n && v in results[k]
  {
    if v in results[n - 1] { k := n - 1; } else { k := CollectedIn(results, n - 1, v); }
  }

  lemma {:induction false} CollectedHas(results: seq<seq<Node>>, n: nat, k: nat, v: Node)
    requires k < n <= |results| && v in results[k]
    ensures v in Collected(results, n)
    decreases n
  {
    if k < n - 1 { CollectedHas(results, n - 1, k, v); }
  }

  lemma OnlyOnce(g: Succ, results: seq<seq<Node>>, m: nat, n: nat, v: Node)
    requires Components(g, results) && m < n < |results| && v in results[m]
    ensures v !in results[n]
  {
    CollectedHas(results, n, m, v);
    assert ComponentAt(g, results, n);
    assert v !in Elements(results[n]);
  }

  lemma NoEdgeForward(g: Succ, results: seq<seq<Node>>, m: nat, n: nat)
    requires Components(g, results) && m < n < |results|
    ensures NoEdgeFromTo(g, results[m], results[n])
  {
    forall x, y | x in results[m] && x in g && y in g[x] ensures y !in results[n] {
      assert ComponentAt(g, results, m);
      assert x in Elements(results[m]);
      assert y in Collected(results, m) + Elements(results[m]);
      if y in Collected(results, m) {
        var k := CollectedIn(results, m, y);
        OnlyOnce(g, results, k, n, y);
      } else {
        OnlyOnce(g, results, m, n, y);
      }
    }
  }

  lemma RunIsComplete(g: Succ, s: Search, none: set<Node>)
    requires none == {} && Invariant(g, s, none) && s.idx.Keys == g.Keys
    ensures AreComponents(g, s.results)
  {
    var r, k := s.results, |s.results|;
    forall n | 0 <= n < k ensures IsComponent(g, Elements(r[n])) && NoDuplicates(r[n]) {
      assert ComponentAt(g, r, n);
    }
    forall v | v in g ensures InOneOf(r, v) {
      assert s.OnStack(v) ==> Descends(g, s, none, v);
      assert v in s.Done();
      var n := CollectedIn(r, k, v);
      forall m | 0 <= m < k && m != n ensures v !in r[m] {
        if m < n && v in r[m] { OnlyOnce(g, r, m, n, v); }
        if n < m { OnlyOnce(g, r, n, m, v); }
      }
    }
    forall m, n | 0 <= m < n < k ensures NoEdgeFromTo(g, r[m], r[n]) {
      NoEdgeForward(g, r, m, n);
    }
  }

  method Tarjan(g: Succ) returns (results: seq<seq<Node>>)
    requires IsGraph(g)
    ensures AreComponents(g, results)
  {
    var run := new TarjanRun(g);
    ghost var none: set<Node> := {};
    assert run.st.Done() == {};
    var todo := g.Keys;
    while todo != {}
      invariant todo <= g.Keys && fresh(run) && run.g == g && Invariant(g, run.st, none)
        && run.lowlink.Keys == run.st.idx.Keys
      invariant g.Keys <= run.st.idx.Keys + todo
      decreases todo
    {
      var v :| v in todo;
      todo := todo - {v};
      assert Look(0);
      if v !in run.st.idx {
        run.Dfs(v, none);
      }
    }
    SameSet(run.st.idx.Keys, g.Keys);
    RunIsComplete(g, run.st, none);
    results := run.st.results;
  }
}
