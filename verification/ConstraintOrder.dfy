/** The constraints that all results keep: what is right of a common node is ordered itself. */
module ConstraintOrder {
  import opened Graphs
  import opened Sums
  import opened ConstraintRuns

  // ----- what a run keeps -----

  ghost predicate HasHead(C: set<Con>, g: Grouping, N: set<Node>, x: Node) {
    && x in g.head && g.head[x] in N && g.head[x] in g.head && g.head[g.head[x]] == g.head[x]
    && g.head[x] in g.group && x in g.group[g.head[x]].vs && g.group[g.head[x]].weight > 0.0
    && (g.head[x] == x || Con(x, g.head[x]) in C)
  }

  /** x and y are in the order of c already, in one group or by the means of two. */
  ghost predicate InOrder(g: Grouping, x: Node, y: Node) {
    && x in g.head && y in g.head && g.head[x] in g.group && g.head[y] in g.group
    && if g.head[x] == g.head[y] then Precedes(g.group[g.head[x]].vs, x, y)
       else g.group[g.head[x]].mean < g.group[g.head[y]].mean
  }

  /** The nodes N have been taken: the constraints between them are kept so far. */
  ghost predicate Kept(C: set<Con>, g: Grouping, N: set<Node>) {
    && (forall x {:trigger HasHead(C, g, N, x)} :: x in N ==> HasHead(C, g, N, x))
    && (forall c {:trigger InOrder(g, c.v, c.w)} :: c in C && c.v in N && c.w in N ==> InOrder(g, c.v, c.w))
  }

  /** The head of x is one of the first n of ins, which have not been looked at. */
  ghost predicate Pending(g: Grouping, ins: seq<Node>, n: nat, x: Node) {
    x in g.head && exists j :: 0 <= j < n && j < |ins| && ins[j] == g.head[x]
  }

  ghost predicate OrderedSoFar(g: Grouping, v: Node, ins: seq<Node>, n: nat, x: Node, y: Node) {
    InOrder(g, x, y) || (y in g.head && g.head[y] == v && x in g.head && g.head[x] != v && Pending(g, ins, n, x))
  }

  /** v is looking at ins, the nodes to stay left of it, from the last; those from place n on are done. */
  ghost predicate Looking(C: set<Con>, g: Grouping, N: set<Node>, v: Node, ins: seq<Node>, n: nat) {
    && v in N && v in g.head && g.head[v] == v
    && (forall x {:trigger HasHead(C, g, N, x)} :: x in N ==> HasHead(C, g, N, x))
    && (forall c {:trigger OrderedSoFar(g, v, ins, n, c.v, c.w)} ::
        c in C && c.v in N && c.w in N ==> OrderedSoFar(g, v, ins, n, c.v, c.w))
    && (forall c {:trigger LeadsOut(g, v, c)} :: c in C && c.v in N && c.w in N ==> !LeadsOut(g, v, c))
    && (forall j {:trigger ins[j]} :: n <= j < |ins| ==> IsBelow(g, v, ins[j]))
  }

  /** The constraint leads from v's group to another one. */
  ghost predicate LeadsOut(g: Grouping, v: Node, c: Con) {
    c.v in g.head && c.w in g.head && g.head[c.v] == v && g.head[c.w] != v
  }

  /** A head that has been passed over has the smaller mean. */
  ghost predicate IsBelow(g: Grouping, v: Node, u: Node) {
    u in g.head && (g.head[u] == u ==> u in g.group && v in g.group && g.group[u].mean < g.group[v].mean)
  }

  // ----- one look -----

  /** The head of what is left of v is v or is left of v. */
  lemma HeadIsLeft(C: set<Con>, g: Grouping, N: set<Node>, v: Node, ins: seq<Node>, x: Node)
    requires Branchless(C) && LeftOf(C, N, v, ins) && x in N && HasHead(C, g, N, x) && Con(x, v) in C
    ensures g.head[x] == v || g.head[x] in ins
  {
    var h := g.head[x];
    if h != x && h != v {
      assert Con(x, h) in C;
    }
  }

  lemma MeanBetween(target: Group, source: Group)
    requires target.weight > 0.0 && source.weight > 0.0 && source.mean >= target.mean
    ensures target.mean <= Mean(target, source) <= source.mean
  {
    var m := Mean(target, source);
    MeanTimes(target, source);
    Spread(m, target.weight, source.weight);
    LiesBetween(target.mean, source.mean, target.weight, source.weight, m);
  }

  lemma LiesBetween(a: real, b: real, p: real, q: real, m: real)
    requires p > 0.0 && q > 0.0 && a <= b && m * p + m * q == a * p + b * q
    ensures a <= m <= b
  {
    Scaled(a, m, p);
    Scaled(a, m, q);
    Scaled(a, b, q);
    Scaled(a, b, p);
    Scaled(m, b, p);
    Scaled(m, b, q);
  }

  lemma Spread(a: real, p: real, q: real)
    ensures a * (p + q) == a * p + a * q
  {
  }

  lemma MeanTimes(target: Group, source: Group)
    requires target.weight + source.weight != 0.0
    ensures Mean(target, source) * (target.weight + source.weight) ==
      target.mean * target.weight + source.mean * source.weight
  {
  }

  lemma Scaled(a: real, b: real, w: real)
    requires w > 0.0
    ensures a <= b <==> a * w <= b * w
  {
    assert a < b ==> a * w < b * w;
    assert b < a ==> b * w < a * w;
  }

  /** v passes over u. */
  lemma PassOver(C: set<Con>, g: Grouping, N: set<Node>, v: Node, ins: seq<Node>, n: nat)
    requires n < |ins| && Looking(C, g, N, v, ins, n + 1) && LeftOf(C, N, v, ins) && !Takes(g, v, ins[n])
    ensures Looking(C, g, N, v, ins, n)
  {
    var u := ins[n];
    assert u in ins && HasHead(C, g, N, u) && HasHead(C, g, N, v);
    assert IsBelow(g, v, u);
    forall c | c in C && c.v in N && c.w in N ensures OrderedSoFar(g, v, ins, n, c.v, c.w) {
      assert OrderedSoFar(g, v, ins, n + 1, c.v, c.w);
      assert HasHead(C, g, N, c.v);
    }
  }

  /** v takes in the group of u. */
  ghost predicate TakesNow(C: set<Con>, g: Grouping, N: set<Node>, v: Node, ins: seq<Node>, n: nat, u: Node,
                           g': Grouping) {
    && Branchless(C) && LeftOf(C, N, v, ins) && Looking(C, g, N, v, ins, n + 1)
    && n < |ins| && u == ins[n] && Takes(g, v, u) && g' == TakeIn(g, v, u)
  }

  lemma HeadAfter(C: set<Con>, g: Grouping, N: set<Node>, v: Node, ins: seq<Node>, n: nat, u: Node, g': Grouping,
                  x: Node)
    requires TakesNow(C, g, N, v, ins, n, u, g') && x in N
    ensures HasHead(C, g', N, x) && g'.head[x] == if g.head[x] == u then v else g.head[x]
  {
    assert u in ins && HasHead(C, g, N, u) && HasHead(C, g, N, v) && HasHead(C, g, N, x);
    assert Con(u, v) in C;
    if g.head[x] == u && x != u {
      assert Con(x, u) in C && Con(x, v) in C;
    }
  }

  /** The mean of v's group rises, and no other changes. */
  lemma MeanRises(C: set<Con>, g: Grouping, N: set<Node>, v: Node, ins: seq<Node>, n: nat, u: Node, g': Grouping)
    requires TakesNow(C, g, N, v, ins, n, u, g')
    ensures v in g.group && v in g'.group && u in g.group && g.group[v].mean <= g'.group[v].mean <= g.group[u].mean
    ensures forall k :: k != v ==> (k in g'.group <==> k in g.group) && (k in g.group ==> g'.group[k] == g.group[k])
  {
    assert u in ins && HasHead(C, g, N, u) && HasHead(C, g, N, v);
    MeanBetween(g.group[v], g.group[u]);
  }

  /** A head between u and v has been passed over, one left of u has the smaller mean. */
  lemma OtherHead(C: set<Con>, g: Grouping, N: set<Node>, v: Node, ins: seq<Node>, n: nat, u: Node, g': Grouping,
                  k: Node)
    requires TakesNow(C, g, N, v, ins, n, u, g') && k in ins && k in g.head && g.head[k] == k && k in g.group
    ensures Con(u, k) in C ==> g.group[k].mean < g.group[v].mean
    ensures Con(k, u) in C ==> g.group[k].mean < g.group[u].mean
  {
    var j :| 0 <= j < |ins| && ins[j] == k;
    assert u in ins && HasHead(C, g, N, u) && HasHead(C, g, N, k);
    if Con(u, k) in C { assert IsBelow(g, v, ins[j]); }
    if Con(k, u) in C {
      var c := Con(k, u);
      assert OrderedSoFar(g, v, ins, n + 1, c.v, c.w);
    }
  }

  /** No constraint leads from the group that joins to another one: it would end at a head that v has passed over. */
  lemma NoneLeadsOut(C: set<Con>, g: Grouping, N: set<Node>, v: Node, ins: seq<Node>, n: nat, u: Node, g': Grouping,
                     c: Con)
    requires TakesNow(C, g, N, v, ins, n, u, g') && c in C && c.v in N && c.w in N
    ensures c.v in g.head && c.w in g.head && (g.head[c.v] == u ==> g.head[c.w] == u || g.head[c.w] == v)
  {
    var x, y := c.v, c.w;
    assert u in ins && HasHead(C, g, N, u) && HasHead(C, g, N, x) && HasHead(C, g, N, y) && HasHead(C, g, N, v);
    var k := g.head[y];
    if g.head[x] == u && k != u && k != v {
      assert OrderedSoFar(g, v, ins, n + 1, x, y);
      assert Con(u, v) in C && Con(x, v) in C;
      assert Con(y, v) in C;
      HeadIsLeft(C, g, N, v, ins, y);
      assert Con(x, k) in C;
      assert Con(u, k) in C || Con(k, u) in C;
      MeanRises(C, g, N, v, ins, n, u, g');
      OtherHead(C, g, N, v, ins, n, u, g', k);
    }
  }

  lemma HeadsOfTwo(C: set<Con>, g: Grouping, N: set<Node>, v: Node, ins: seq<Node>, n: nat, u: Node, g': Grouping,
                   c: Con)
    requires TakesNow(C, g, N, v, ins, n, u, g') && c in C && c.v in N && c.w in N
    ensures HasHead(C, g, N, c.v) && HasHead(C, g, N, c.w) && HasHead(C, g', N, c.v) && HasHead(C, g', N, c.w)
    ensures g'.head[c.v] == (if g.head[c.v] == u then v else g.head[c.v])
    ensures g'.head[c.w] == (if g.head[c.w] == u then v else g.head[c.w])
    ensures OrderedSoFar(g, v, ins, n + 1, c.v, c.w) && !LeadsOut(g, v, c) && v in g.group && u in g.group
  {
    assert u in ins && HasHead(C, g, N, u) && HasHead(C, g, N, v);
    HeadAfter(C, g, N, v, ins, n, u, g', c.v);
    HeadAfter(C, g, N, v, ins, n, u, g', c.w);
  }

  /** Inside the joined group: the source's nodes are in front. */
  lemma TogetherAfter(C: set<Con>, g: Grouping, N: set<Node>, v: Node, ins: seq<Node>, n: nat, u: Node, g': Grouping,
                      c: Con)
    requires TakesNow(C, g, N, v, ins, n, u, g') && c in C && c.v in N && c.w in N
    requires c.v in g'.head && c.w in g'.head && g'.head[c.v] == v && g'.head[c.w] == v
    ensures InOrder(g', c.v, c.w)
  {
    HeadsOfTwo(C, g, N, v, ins, n, u, g', c);
    PrecedesJoin(g.group[u].vs, g.group[v].vs, c.v, c.w);
  }

  /** From another group into the joined one: its head has the smaller mean or has not been looked at. */
  lemma IntoAfter(C: set<Con>, g: Grouping, N: set<Node>, v: Node, ins: seq<Node>, n: nat, u: Node, g': Grouping,
                  c: Con)
    requires TakesNow(C, g, N, v, ins, n, u, g') && c in C && c.v in N && c.w in N
    requires c.v in g'.head && c.w in g'.head && g'.head[c.v] != v && g'.head[c.w] == v
    ensures OrderedSoFar(g', v, ins, n, c.v, c.w)
  {
    HeadsOfTwo(C, g, N, v, ins, n, u, g', c);
    MeanRises(C, g, N, v, ins, n, u, g');
    var k := g.head[c.v];
    if g.head[c.w] == u {
      assert Con(u, v) in C && u in ins;
      assert Con(c.v, v) in C;
      HeadIsLeft(C, g, N, v, ins, c.v);
      var j :| 0 <= j < |ins| && ins[j] == k;
      if j > n { assert IsBelow(g, v, ins[j]); }
    }
  }

  lemma PairAfter(C: set<Con>, g: Grouping, N: set<Node>, v: Node, ins: seq<Node>, n: nat, u: Node, g': Grouping,
                  c: Con)
    requires TakesNow(C, g, N, v, ins, n, u, g') && c in C && c.v in N && c.w in N
    ensures OrderedSoFar(g', v, ins, n, c.v, c.w) && !LeadsOut(g', v, c)
  {
    HeadsOfTwo(C, g, N, v, ins, n, u, g', c);
    NoneLeadsOut(C, g, N, v, ins, n, u, g', c);
    MeanRises(C, g, N, v, ins, n, u, g');
    if g'.head[c.v] == v {
      TogetherAfter(C, g, N, v, ins, n, u, g', c);
    } else if g'.head[c.w] == v {
      IntoAfter(C, g, N, v, ins, n, u, g', c);
    }
  }

  lemma BelowAfter(C: set<Con>, g: Grouping, N: set<Node>, v: Node, ins: seq<Node>, n: nat, u: Node, g': Grouping,
                   j: nat)
    requires TakesNow(C, g, N, v, ins, n, u, g') && n <= j < |ins|
    ensures IsBelow(g', v, ins[j])
  {
    assert ins[j] in ins;
    HeadAfter(C, g, N, v, ins, n, u, g', ins[j]);
    MeanRises(C, g, N, v, ins, n, u, g');
    if j > n { assert IsBelow(g, v, ins[j]); }
  }

  lemma TakeOneIn(C: set<Con>, g: Grouping, N: set<Node>, v: Node, ins: seq<Node>, n: nat, u: Node, g': Grouping)
    requires TakesNow(C, g, N, v, ins, n, u, g')
    ensures Looking(C, g', N, v, ins, n)
  {
    forall x | x in N ensures HasHead(C, g', N, x) { HeadAfter(C, g, N, v, ins, n, u, g', x); }
    forall c | c in C && c.v in N && c.w in N ensures OrderedSoFar(g', v, ins, n, c.v, c.w) && !LeadsOut(g', v, c) {
      PairAfter(C, g, N, v, ins, n, u, g', c);
    }
    forall j | n <= j < |ins| ensures IsBelow(g', v, ins[j]) { BelowAfter(C, g, N, v, ins, n, u, g', j); }
  }

  /** After all have been looked at. */
  lemma {:induction false} LookAtAll(C: set<Con>, g: Grouping, N: set<Node>, v: Node, ins: seq<Node>, n: nat)
    requires Branchless(C) && LeftOf(C, N, v, ins) && n <= |ins| && Looking(C, g, N, v, ins, |ins|)
    ensures Looking(C, TakeAll(g, v, ins, n), N, v, ins, n)
    decreases |ins| - n
  {
    if n < |ins| {
      LookAtAll(C, g, N, v, ins, n + 1);
      var g1, g2, u := TakeAll(g, v, ins, n + 1), TakeAll(g, v, ins, n), ins[n];
      if Takes(g1, v, u) {
        TakeOneIn(C, g1, N, v, ins, n, u, g2);
      } else {
        PassOver(C, g1, N, v, ins, n);
      }
    }
  }

  // ----- one node more -----

  lemma StartLooking(C: set<Con>, g: Grouping, N0: set<Node>, marks: Marks, v: Node, ins: seq<Node>, N: set<Node>)
    requires Branchless(C) && Kept(C, g, N0) && LeftOf(C, N, v, ins) && N == N0 + {v} && v !in N0
    requires Untouched(g, marks, v) && Positive(marks)
    ensures Looking(C, g, N, v, ins, |ins|)
  {
    forall x | x in N ensures HasHead(C, g, N, x) {
      if x != v { assert HasHead(C, g, N0, x); }
    }
    forall c | c in C && c.v in N && c.w in N ensures OrderedSoFar(g, v, ins, |ins|, c.v, c.w) && !LeadsOut(g, v, c) {
      assert c.v != v;
      assert HasHead(C, g, N0, c.v);
      if c.w == v {
        HeadIsLeft(C, g, N, v, ins, c.v);
      } else {
        assert InOrder(g, c.v, c.w);
      }
    }
  }

  lemma LookedIsKept(C: set<Con>, g: Grouping, N: set<Node>, v: Node, ins: seq<Node>)
    requires Looking(C, g, N, v, ins, 0)
    ensures Kept(C, g, N)
  {
    forall c | c in C && c.v in N && c.w in N ensures InOrder(g, c.v, c.w) {
      assert OrderedSoFar(g, v, ins, 0, c.v, c.w);
    }
  }

  /** Whatever order the nodes are taken in, the constraints between those taken are kept. */
  lemma {:induction false} RunKeeps(C: set<Con>, marks: Marks, D: seq<Node>)
    requires Branchless(C) && Positive(marks) && Extends(C, D) && forall x :: x in D ==> x in marks
    ensures Kept(C, Run(C, Start(marks), D), Members(D))
  {
    if D != [] {
      var before, v, N := D[..|D| - 1], D[|D| - 1], Members(D);
      var g, ins := Run(C, Start(marks), before), Preds(C, before, v);
      assert D == before + [v];
      SameSet(N, Members(before) + {v});
      NextIsLeftOf(C, before, v, N);
      RunKeeps(C, marks, before);
      RestUntouched(C, marks, before, v);
      StartLooking(C, g, Members(before), marks, v, ins, N);
      LookAtAll(C, g, N, v, ins, 0);
      LookedIsKept(C, TakeAll(g, v, ins, 0), N, v, ins);
    }
  }

  /** Branchless constraints are all kept, by every run and for all means and weights. */
  lemma BranchlessIsKept(C: set<Con>, marks: Marks, D: seq<Node>, H: seq<Node>, vs: seq<Node>)
    requires Branchless(C) && Positive(marks) && (forall c :: c in C ==> c.v in marks && c.w in marks)
    requires ComesOut(C, marks, D, H, vs)
    ensures KeepsAll(C, vs)
  {
    var g := Run(C, Start(marks), D);
    RunKeeps(C, marks, D);
    forall c | c in C ensures Precedes(vs, c.v, c.w) {
      assert c.v in Members(D) && c.w in Members(D);
      assert InOrder(g, c.v, c.w) && HasHead(C, g, Members(D), c.v) && HasHead(C, g, Members(D), c.w);
      if g.head[c.v] == g.head[c.w] {
        var i :| 0 <= i < |H| && H[i] == g.head[c.v];
        LinedInside(g, H, i, c.v, c.w);
      } else {
        SmallerIsFirst(g, H, c.v, c.w);
      }
    }
  }
}
