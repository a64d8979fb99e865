/** Constraints that some means and weights break, whatever order the nodes are taken in; with the other direction of
    module ConstraintOrder these are all that are not branchless. */
module ConstraintBreaks {
  import opened Graphs
  import opened Sums
  import opened ConstraintRuns
  import opened ConstraintOrder

  // ----- looks that change nothing -----

  lemma {:induction false} NothingTaken(g: Grouping, v: Node, ins: seq<Node>, n: nat)
    requires n <= |ins| && forall u :: u in ins ==> !Takes(g, v, u)
    ensures TakeAll(g, v, ins, n) == g
    decreases |ins| - n
  {
    if n < |ins| {
      NothingTaken(g, v, ins, n + 1);
      assert ins[n] in ins;
    }
  }

  /** All others are passed over, before and after u is taken in. */
  ghost predicate OnlyTakes(g: Grouping, v: Node, ins: seq<Node>, u: Node) {
    && (forall k {:trigger Takes(g, v, k)} :: k in ins && k != u ==> !Takes(g, v, k))
    && (forall k {:trigger Takes(TakeIn(g, v, u), v, k)} :: k in ins ==> !Takes(TakeIn(g, v, u), v, k))
  }

  lemma {:induction false} OneTaken(g: Grouping, v: Node, ins: seq<Node>, n: nat, u: Node)
    requires n <= |ins| && OnlyTakes(g, v, ins, u)
    ensures TakeAll(g, v, ins, n) == if u in ins[n..] then TakeIn(g, v, u) else g
    decreases |ins| - n
  {
    if n < |ins| {
      OneTaken(g, v, ins, n + 1, u);
      assert ins[n] in ins && ins[n..] == [ins[n]] + ins[n + 1..];
    }
  }

  // ----- a node that is not kept from moving left -----

  /** a, b and c follow each other, but a and c are not constrained. The means rise along all constraints but those at
      c, which is heavy and starts left of a: taking in all that is right of a does not bring it there. */
  ghost predicate ChainMarks(C: set<Con>, marks: Marks, a: Node, b: Node, c: Node, K: real) {
    && Con(a, b) in C && Con(b, c) in C && Con(a, c) !in C && a != c && b != c && Positive(marks)
    && (forall d :: d in C ==> d.v in marks && d.w in marks && d.v != d.w)
    && (forall d :: d in C && d.v != c && d.w != c ==> marks[d.v].mean < marks[d.w].mean)
    && (forall d :: d in C && d.v == c ==> marks[d.w].mean > marks[a].mean)
    && a in marks && c in marks && NoneFar(marks, marks[a].mean, c, K)
    && K >= 0.0 && Outweighs(marks[a].mean, Group([c], marks[c].mean, marks[c].weight), K, |marks|)
  }

  /** Any other node pulls to the right of m by K at most. */
  ghost predicate NoneFar(marks: Marks, m: real, c: Node, K: real) {
    forall x :: x in marks && x != c ==> (marks[x].mean - m) * marks[x].weight <= K
  }

  ghost predicate Outweighs(m: real, G: Group, K: real, n: nat) {
    Slack(m, G) > K * n as real
  }

  ghost function Slack(m: real, G: Group): real {
    (m - G.mean) * G.weight
  }

  /** x is a group of its own still, or has joined c; it has if it was looked at and is not left of m. */
  ghost predicate GatheredAt(marks: Marks, m: real, c: Node, ins: seq<Node>, n: nat, g: Grouping, x: Node)
    requires n <= |ins|
  {
    && x in marks && x in g.head && x in g.group && c in g.group
    && g.group[x] == Group([x], marks[x].mean, marks[x].weight)
    && (g.head[x] == x || (g.head[x] == c && x in ins && x in g.group[c].vs))
    && (x in ins[n..] && marks[x].mean >= m ==> g.head[x] == c)
  }

  /** c has looked at the members of ins from place n on. */
  ghost predicate Gathering(marks: Marks, m: real, K: real, c: Node, ins: seq<Node>, n: nat, g: Grouping) {
    && n <= |ins| && c in marks && c in g.head && g.head[c] == c && c in g.group && g.group[c].weight > 0.0
    && (forall x {:trigger GatheredAt(marks, m, c, ins, n, g, x)} :: x in marks && x != c ==>
        GatheredAt(marks, m, c, ins, n, g, x))
    && Slack(m, g.group[c]) >= Slack(m, Group([c], marks[c].mean, marks[c].weight)) - K * (|ins| - n) as real
  }

  lemma SlackOfJoined(m: real, target: Group, source: Group)
    requires target.weight > 0.0 && source.weight > 0.0
    ensures Slack(m, Joined(target, source)) == Slack(m, target) + Slack(m, source)
  {
    var W := target.weight + source.weight;
    var mean := Mean(target, source);
    MeanTimes(target, source);
    Difference(m, mean, W);
    Difference(m, target.mean, target.weight);
    Difference(m, source.mean, source.weight);
    Spread(m, target.weight, source.weight);
  }

  lemma Difference(a: real, b: real, w: real)
    ensures (a - b) * w == a * w - b * w
  {
  }

  lemma SlackIsPositive(m: real, G: Group)
    requires G.weight > 0.0
    ensures Slack(m, G) > 0.0 <==> G.mean < m
  {
    Difference(m, G.mean, G.weight);
    Scaled(m, G.mean, G.weight);
    Scaled(G.mean, m, G.weight);
  }

  /** What c can take in does not bring it to m. */
  ghost predicate HeavyEnough(marks: Marks, m: real, K: real, c: Node, ins: seq<Node>) {
    && Positive(marks) && c in marks && K >= 0.0 && (forall u :: u in ins ==> u in marks && u != c)
    && NoneFar(marks, m, c, K) && Outweighs(m, Group([c], marks[c].mean, marks[c].weight), K, |ins|)
  }

  /** As long as its mean stays left of m, c takes in all that is not. */
  lemma {:induction false} Gather(marks: Marks, m: real, K: real, c: Node, ins: seq<Node>, n: nat)
    requires n <= |ins| && HeavyEnough(marks, m, K, c, ins)
    ensures Gathering(marks, m, K, c, ins, n, TakeAll(Start(marks), c, ins, n))
    decreases |ins| - n
  {
    if n < |ins| {
      var g := TakeAll(Start(marks), c, ins, n + 1);
      Gather(marks, m, K, c, ins, n + 1);
      GatherOne(marks, m, K, c, ins, n, ins[n], g, TakeIn(g, c, ins[n]));
    } else {
      forall x | x in marks && x != c ensures GatheredAt(marks, m, c, ins, n, Start(marks), x) {}
    }
  }

  lemma StillLeft(marks: Marks, m: real, K: real, c: Node, ins: seq<Node>, n: nat, g: Grouping)
    requires HeavyEnough(marks, m, K, c, ins) && Gathering(marks, m, K, c, ins, n, g)
    ensures g.group[c].mean < m
  {
    Less(K, (|ins| - n) as real, |ins| as real);
    SlackIsPositive(m, g.group[c]);
  }

  lemma Less(K: real, a: real, b: real)
    requires K >= 0.0 && a <= b
    ensures K * a <= K * b
  {
  }

  lemma GatherOne(marks: Marks, m: real, K: real, c: Node, ins: seq<Node>, n: nat, u: Node, g: Grouping, g': Grouping)
    requires HeavyEnough(marks, m, K, c, ins) && n < |ins| && u == ins[n]
    requires Gathering(marks, m, K, c, ins, n + 1, g) && g' == TakeIn(g, c, u)
    ensures Gathering(marks, m, K, c, ins, n, g')
  {
    assert u in ins && ins[n..] == [u] + ins[n + 1..];
    StillLeft(marks, m, K, c, ins, n + 1, g);
    assert GatheredAt(marks, m, c, ins, n + 1, g, u);
    forall x | x in marks && x != c ensures GatheredAt(marks, m, c, ins, n, g', x) {
      assert GatheredAt(marks, m, c, ins, n + 1, g, x);
    }
    SlackAfter(marks, m, K, c, ins, n, u, g, g');
  }

  lemma SlackAfter(marks: Marks, m: real, K: real, c: Node, ins: seq<Node>, n: nat, u: Node, g: Grouping, g': Grouping)
    requires HeavyEnough(marks, m, K, c, ins) && n < |ins| && u in marks && u != c
    requires Gathering(marks, m, K, c, ins, n + 1, g) && g' == TakeIn(g, c, u)
    ensures c in g'.group && g'.group[c].weight > 0.0
    ensures Slack(m, g'.group[c]) >= Slack(m, Group([c], marks[c].mean, marks[c].weight)) - K * (|ins| - n) as real
  {
    var k := (|ins| - n - 1) as real;
    assert GatheredAt(marks, m, c, ins, n + 1, g, u);
    Spread(K, k, 1.0);
    if Takes(g, c, u) {
      SlackOfJoined(m, g.group[c], g.group[u]);
      Difference(m, marks[u].mean, marks[u].weight);
      Difference(marks[u].mean, m, marks[u].weight);
    }
  }

  /** c has taken b in and stands left of a, which is alone; all others are as at the start. */
  ghost predicate Settled(C: set<Con>, marks: Marks, a: Node, b: Node, c: Node, g: Grouping) {
    && c in g.head && g.head[c] == c && c in g.group && a in marks && b in marks && b != c
    && g.group[c].mean < marks[a].mean
    && (forall x {:trigger SettledAt(C, marks, c, g, x)} :: x in marks && x != c ==> SettledAt(C, marks, c, g, x))
    && b in g.head && g.head[b] == c
  }

  ghost predicate SettledAt(C: set<Con>, marks: Marks, c: Node, g: Grouping, x: Node) {
    && x in marks && x in g.head && x in g.group && c in g.group
    && g.group[x] == Group([x], marks[x].mean, marks[x].weight)
    && (g.head[x] == x || (g.head[x] == c && Con(x, c) in C && x in g.group[c].vs))
  }

  lemma {:induction false} PredsDiffer(C: set<Con>, D: seq<Node>, v: Node)
    requires NoRepeats(D)
    ensures NoRepeats(Preds(C, D, v))
  {
    if D != [] {
      PredsDiffer(C, D[..|D| - 1], v);
      PredsAre(C, D[..|D| - 1], v);
      forall i | 0 <= i < |D| - 1 ensures D[i] != D[|D| - 1] {}
    }
  }

  lemma PredsFit(C: set<Con>, D: seq<Node>, v: Node, marks: Marks)
    requires NoRepeats(D) && forall x :: x in D ==> x in marks
    ensures |Preds(C, D, v)| <= |marks|
  {
    var ins := Preds(C, D, v);
    PredsDiffer(C, D, v);
    PredsAre(C, D, v);
    forall i | 0 <= i < |ins| ensures ins[i] in marks.Keys { assert ins[i] in ins; }
    AllInDistinct(ins, marks.Keys);
  }

  lemma FewerAreOutweighed(m: real, G: Group, K: real, n: nat, fewer: nat)
    requires K >= 0.0 && fewer <= n && Outweighs(m, G, K, n)
    ensures Outweighs(m, G, K, fewer)
  {
    Less(K, fewer as real, n as real);
  }

  lemma CIsHeavy(C: set<Con>, marks: Marks, a: Node, b: Node, c: Node, K: real, ins: seq<Node>)
    requires ChainMarks(C, marks, a, b, c, K) && |ins| <= |marks| && forall u :: u in ins ==> Con(u, c) in C && u != c
    ensures HeavyEnough(marks, marks[a].mean, K, c, ins)
  {
    FewerAreOutweighed(marks[a].mean, Group([c], marks[c].mean, marks[c].weight), K, |marks|, |ins|);
    forall u | u in ins ensures u in marks {
      var e := Con(u, c);
      assert e in C && e.v in marks;
    }
  }

  lemma FirstIsLeft(C: set<Con>, marks: Marks, a: Node, b: Node, c: Node, K: real)
    requires ChainMarks(C, marks, a, b, c, K)
    ensures a in marks && b in marks && marks[a].mean < marks[b].mean
  {
    var d := Con(a, b);
    assert d in C && d.v != c && d.w != c;
  }

  lemma CGathers(C: set<Con>, marks: Marks, a: Node, b: Node, c: Node, K: real, D: seq<Node>)
    requires ChainMarks(C, marks, a, b, c, K) && NoRepeats(D) && (forall x :: x in D ==> x in marks) && b in D
    ensures Settled(C, marks, a, b, c, TakeAll(Start(marks), c, Preds(C, D, c), 0))
  {
    var ins, m := Preds(C, D, c), marks[a].mean;
    var g := TakeAll(Start(marks), c, ins, 0);
    PredsFit(C, D, c, marks);
    PredsAre(C, D, c);
    assert forall d :: d in C ==> d.v != d.w;
    CIsHeavy(C, marks, a, b, c, K, ins);
    FirstIsLeft(C, marks, a, b, c, K);
    Gather(marks, m, K, c, ins, 0);
    StillLeft(marks, m, K, c, ins, 0, g);
    GatheredIsSettled(C, marks, a, b, c, K, ins, g);
  }

  lemma GatheredIsSettled(C: set<Con>, marks: Marks, a: Node, b: Node, c: Node, K: real, ins: seq<Node>, g: Grouping)
    requires a in marks && b in marks && b != c && b in ins && marks[a].mean < marks[b].mean
    requires Gathering(marks, marks[a].mean, K, c, ins, 0, g) && g.group[c].mean < marks[a].mean
    requires forall u :: u in ins ==> Con(u, c) in C
    ensures Settled(C, marks, a, b, c, g)
  {
    var m := marks[a].mean;
    assert ins[0..] == ins;
    forall x | x in marks && x != c ensures SettledAt(C, marks, c, g, x) {
      assert GatheredAt(marks, m, c, ins, 0, g, x);
    }
    assert GatheredAt(marks, m, c, ins, 0, g, b);
  }

  lemma NothingBeforeC(C: set<Con>, marks: Marks, a: Node, b: Node, c: Node, K: real, d: Node, u: Node)
    requires ChainMarks(C, marks, a, b, c, K) && Con(u, d) in C && u != c && d != c
    ensures !Takes(Start(marks), d, u)
  {
    var e := Con(u, d);
    assert marks[e.v].mean < marks[e.w].mean;
  }

  lemma NothingAfterC(C: set<Con>, marks: Marks, a: Node, b: Node, c: Node, K: real, g: Grouping, d: Node, u: Node)
    requires ChainMarks(C, marks, a, b, c, K) && Settled(C, marks, a, b, c, g) && Con(u, d) in C && d != c
    ensures !Takes(g, d, u)
  {
    var e := Con(u, d);
    assert SettledAt(C, marks, c, g, d);
    if u != c {
      assert SettledAt(C, marks, c, g, u);
      assert marks[e.v].mean < marks[e.w].mean;
    } else {
      assert e.v == c && marks[e.w].mean > marks[a].mean;
    }
  }

  lemma {:induction false} ChainRun(C: set<Con>, marks: Marks, a: Node, b: Node, c: Node, K: real, D: seq<Node>)
    requires ChainMarks(C, marks, a, b, c, K) && Extends(C, D) && forall x :: x in D ==> x in marks
    ensures c !in D ==> Run(C, Start(marks), D) == Start(marks)
    ensures c in D ==> Settled(C, marks, a, b, c, Run(C, Start(marks), D))
  {
    if D != [] {
      var before, d := D[..|D| - 1], D[|D| - 1];
      var g, ins := Run(C, Start(marks), before), Preds(C, before, d);
      assert D == before + [d];
      NextIsLeftOf(C, before, d, Members(before) + {d});
      ChainRun(C, marks, a, b, c, K, before);
      PredsAre(C, before, d);
      if d == c {
        assert b in Preds(C, before, c);
        CGathers(C, marks, a, b, c, K, before);
      } else {
        forall u | u in ins ensures !Takes(g, d, u) {
          if c in before { NothingAfterC(C, marks, a, b, c, K, g, d, u); }
            else { NothingBeforeC(C, marks, a, b, c, K, d, u); }
        }
        NothingTaken(g, d, ins, 0);
      }
    }
  }

  lemma OneWayOnly(s: seq<Node>, x: Node, y: Node)
    requires NoRepeats(s) && Precedes(s, y, x)
    ensures !Precedes(s, x, y)
  {
  }

  /** In every result b stands left of a. */
  lemma ChainAlwaysBreaks(C: set<Con>, marks: Marks, a: Node, b: Node, c: Node, K: real, vs: seq<Node>)
    requires ChainMarks(C, marks, a, b, c, K) && CanComeOut(C, marks, vs)
    ensures Precedes(vs, b, a) && !KeepsAll(C, vs)
  {
    var D, H :| ComesOut(C, marks, D, H, vs);
    var g := Run(C, Start(marks), D);
    ChainRun(C, marks, a, b, c, K, D);
    assert Con(b, c) in C && c in D;
    assert SettledAt(C, marks, c, g, a) && SettledAt(C, marks, c, g, b);
    SmallerIsFirst(g, H, b, a);
    OneWayOnly(vs, a, b);
    var d := Con(a, b);
    assert d in C && !Precedes(vs, d.v, d.w);
  }

  /** u before v before w with barycenters 4, 5 and 0 and equal weights: w takes v in and moves left of u with it. */
  lemma ThreeInAChain(C: set<Con>, marks: Marks, u: Node, v: Node, w: Node, vs: seq<Node>)
    requires u != v && u != w && v != w && C == {Con(u, v), Con(v, w)} && CanComeOut(C, marks, vs)
    requires marks == map[u := Mark(4.0, 1.0), v := Mark(5.0, 1.0), w := Mark(0.0, 1.0)]
    ensures Precedes(vs, v, u) && !KeepsAll(C, vs)
  {
    ThreeMarks(C, marks, u, v, w);
    ChainAlwaysBreaks(C, marks, u, v, w, 1.0, vs);
  }

  lemma ThreeMarks(C: set<Con>, marks: Marks, u: Node, v: Node, w: Node)
    requires u != v && u != w && v != w && C == {Con(u, v), Con(v, w)}
    requires marks == map[u := Mark(4.0, 1.0), v := Mark(5.0, 1.0), w := Mark(0.0, 1.0)]
    ensures ChainMarks(C, marks, u, v, w, 1.0)
  {
    assert |marks.Keys| == 3 by {
      assert marks.Keys == {u, v, w};
    }
    assert |marks| == |marks.Keys|;
  }

  // ----- a node that only one of two can take in -----

  /** u is to stay left of both p and q, which are not constrained and start left of it, at the same place. Otherwise
      the means rise along the constraints. */
  ghost predicate ForkMarks(C: set<Con>, marks: Marks, u: Node, p: Node, q: Node) {
    && Con(u, p) in C && Con(u, q) in C && p != q && Con(p, q) !in C && Con(q, p) !in C && Positive(marks)
    && (forall d :: d in C ==> d.v in marks && d.w in marks && d.v != d.w)
    && marks[p].mean == marks[q].mean < marks[u].mean
    && (forall d :: d in C && d.v !in {p, q} && d.w !in {p, q} ==> marks[d.v].mean < marks[d.w].mean)
    && (forall d :: d in C && d.v in {p, q} ==> marks[d.w].mean > marks[u].mean)
    && (forall d :: d in C && d.w in {p, q} && d.v != u ==> marks[d.v].mean < marks[p].mean)
  }

  /** The first of the two has taken u in, and nothing else has happened. */
  ghost predicate HasTaken(marks: Marks, u: Node, f: Node, g: Grouping) {
    && g == TakeIn(Start(marks), f, u) && Takes(Start(marks), f, u) && f in g.head && g.head[f] == f && f in g.group
    && marks[f].mean < g.group[f].mean <= marks[u].mean && u in g.group[f].vs && u in g.head && g.head[u] == f
    && (forall k {:trigger Single(marks, g, k)} :: k in marks && k != f ==> Single(marks, g, k))
    && (forall k {:trigger g.head[k]} :: k in marks && k != u ==> k in g.head && g.head[k] == k)
  }

  ghost predicate Single(marks: Marks, g: Grouping, k: Node) {
    k in marks && k in g.group && g.group[k] == Group([k], marks[k].mean, marks[k].weight)
  }

  lemma MeanInside(target: Group, source: Group)
    requires target.weight > 0.0 && source.weight > 0.0 && source.mean > target.mean
    ensures target.mean < Mean(target, source) <= source.mean
  {
    MeanBetween(target, source);
    MeanTimes(target, source);
    Spread(target.mean, target.weight, source.weight);
    Scaled(source.mean, target.mean, source.weight);
  }

  lemma FirstTakes(C: set<Con>, marks: Marks, u: Node, p: Node, q: Node, f: Node)
    requires ForkMarks(C, marks, u, p, q) && f in {p, q}
    ensures HasTaken(marks, u, f, TakeIn(Start(marks), f, u))
  {
    assert Con(u, f) in C;
    assert u in marks && f in marks && u != f by { var d := Con(u, f); assert d in C && d.v in marks; }
    var g := TakeIn(Start(marks), f, u);
    MeanInside(Start(marks).group[f], Start(marks).group[u]);
    forall k | k in marks && k != f ensures Single(marks, g, k) {}
  }

  lemma OnlyU(C: set<Con>, marks: Marks, u: Node, p: Node, q: Node, f: Node, ins: seq<Node>)
    requires ForkMarks(C, marks, u, p, q) && f in {p, q} && forall k :: k in ins ==> Con(k, f) in C
    ensures OnlyTakes(Start(marks), f, ins, u)
  {
    var g := TakeIn(Start(marks), f, u);
    FirstTakes(C, marks, u, p, q, f);
    forall k | k in ins ensures (k != u ==> !Takes(Start(marks), f, k)) && !Takes(g, f, k) {
      var d := Con(k, f);
      assert d in C && d.v in marks && d.v != d.w && Single(marks, g, d.v);
    }
  }

  lemma NothingAtFirst(C: set<Con>, marks: Marks, u: Node, p: Node, q: Node, d: Node, k: Node)
    requires ForkMarks(C, marks, u, p, q) && d !in {p, q} && k !in {p, q} && Con(k, d) in C
    ensures !Takes(Start(marks), d, k)
  {
    var e := Con(k, d);
    assert marks[e.v].mean < marks[e.w].mean;
  }

  lemma NothingMore(C: set<Con>, marks: Marks, u: Node, p: Node, q: Node, f: Node, g: Grouping, d: Node, k: Node)
    requires ForkMarks(C, marks, u, p, q) && f in {p, q} && HasTaken(marks, u, f, g) && d != f && Con(k, d) in C
    ensures !Takes(g, d, k)
  {
    var e := Con(k, d);
    assert e in C && e.v in marks && e.w in marks && Single(marks, g, d);
    if k != f { assert Single(marks, g, k); }
    if d in {p, q} {
      assert k != u ==> marks[e.v].mean < marks[p].mean;
    } else if k !in {p, q} {
      assert marks[e.v].mean < marks[e.w].mean;
    }
  }

  ghost predicate OneHasTaken(marks: Marks, u: Node, p: Node, q: Node, D: seq<Node>, g: Grouping) {
    (p in D && HasTaken(marks, u, p, g)) || (q in D && HasTaken(marks, u, q, g))
  }

  lemma {:induction false} ForkRun(C: set<Con>, marks: Marks, u: Node, p: Node, q: Node, D: seq<Node>)
    requires ForkMarks(C, marks, u, p, q) && Extends(C, D) && forall x :: x in D ==> x in marks
    ensures if p in D || q in D then OneHasTaken(marks, u, p, q, D, Run(C, Start(marks), D))
      else Run(C, Start(marks), D) == Start(marks)
  {
    if D != [] {
      var before, d := D[..|D| - 1], D[|D| - 1];
      var g, ins := Run(C, Start(marks), before), Preds(C, before, d);
      assert D == before + [d];
      NextIsLeftOf(C, before, d, Members(before) + {d});
      ForkRun(C, marks, u, p, q, before);
      PredsAre(C, before, d);
      if p in before || q in before {
        var f := if p in before && HasTaken(marks, u, p, g) then p else q;
        forall k | k in ins ensures !Takes(g, d, k) { NothingMore(C, marks, u, p, q, f, g, d, k); }
        NothingTaken(g, d, ins, 0);
      } else if d in {p, q} {
        OnlyU(C, marks, u, p, q, d, ins);
        OneTaken(g, d, ins, 0, u);
        assert ins[0..] == ins && u in ins;
        FirstTakes(C, marks, u, p, q, d);
      } else {
        forall k | k in ins ensures !Takes(g, d, k) { NothingAtFirst(C, marks, u, p, q, d, k); }
        NothingTaken(g, d, ins, 0);
      }
    }
  }

  /** In every result u stands right of p or of q. */
  lemma ForkAlwaysBreaks(C: set<Con>, marks: Marks, u: Node, p: Node, q: Node, vs: seq<Node>)
    requires ForkMarks(C, marks, u, p, q) && CanComeOut(C, marks, vs)
    ensures (Precedes(vs, p, u) || Precedes(vs, q, u)) && !KeepsAll(C, vs)
  {
    var D, H :| ComesOut(C, marks, D, H, vs);
    var g := Run(C, Start(marks), D);
    ForkRun(C, marks, u, p, q, D);
    assert Con(u, p) in C && Con(u, q) in C && p in marks && p in D;
    var f := if p in D && HasTaken(marks, u, p, g) then p else q;
    var s := if f == p then q else p;
    var d := Con(u, s);
    assert d in C && s in marks && s != u && Single(marks, g, s) && g.head[s] == s;
    SmallerIsFirst(g, H, s, u);
    OneWayOnly(vs, u, s);
    assert !Precedes(vs, d.v, d.w);
  }

  /** u before p and u before q with barycenters 1, 0 and 0: the one that is taken second stays left of u. */
  lemma ThreeInAFork(C: set<Con>, marks: Marks, u: Node, p: Node, q: Node, vs: seq<Node>)
    requires u != p && u != q && p != q && C == {Con(u, p), Con(u, q)} && CanComeOut(C, marks, vs)
    requires marks == map[u := Mark(1.0, 1.0), p := Mark(0.0, 1.0), q := Mark(0.0, 1.0)]
    ensures (Precedes(vs, p, u) || Precedes(vs, q, u)) && !KeepsAll(C, vs)
  {
    ThreeForkMarks(C, marks, u, p, q);
    ForkAlwaysBreaks(C, marks, u, p, q, vs);
  }

  lemma ThreeForkMarks(C: set<Con>, marks: Marks, u: Node, p: Node, q: Node)
    requires u != p && u != q && p != q && C == {Con(u, p), Con(u, q)}
    requires marks == map[u := Mark(1.0, 1.0), p := Mark(0.0, 1.0), q := Mark(0.0, 1.0)]
    ensures ForkMarks(C, marks, u, p, q)
  {
    assert forall d :: d in C ==> d.v == u && d.w in {p, q};
  }

  // ----- every other set of constraints is broken by some means and weights -----

  lemma {:induction false} MembersFit(D: seq<Node>)
    ensures |Members(D)| <= |D|
  {
    if D != [] {
      var before := D[..|D| - 1];
      MembersFit(before);
      assert D == before + [D[|D| - 1]];
      SizeMonotone(Members(D) - {D[|D| - 1]}, Members(before));
    }
  }

  lemma PlacesAgree(C: set<Con>, D: seq<Node>)
    requires Extends(C, D)
    ensures forall c :: c in C && c.w in D ==> c.v in D && PlaceIn(D, c.v) < PlaceIn(D, c.w)
  {
    forall c | c in C && c.w in D ensures c.v in D && PlaceIn(D, c.v) < PlaceIn(D, c.w) {
      var j := PlaceIn(D, c.w);
      assert D[j] == c.w && c.v in D[..j];
      ComesBefore(C, D, PlaceIn(D, c.v), j);
    }
  }

  function Heavy(n: nat): (w: real)
    ensures w > 0.0
  {
    assert n * n >= 0;
    (n * n + 1) as real
  }

  function ChainMarksOf(D: seq<Node>, a: Node, c: Node): Marks {
    map x | x in D ::
      if x == c then Mark((PlaceIn(D, a) - 1) as real, Heavy(|D|)) else Mark(PlaceIn(D, x) as real, 1.0)
  }

  /** Constraints that are not transitive have such a chain. */
  lemma ChainMarksExist(C: set<Con>, D: seq<Node>, a: Node, b: Node, c: Node)
    requires Extends(C, D) && Con(a, b) in C && Con(b, c) in C && Con(a, c) !in C
    requires forall d :: d in C ==> d.v in D && d.w in D
    ensures ChainMarks(C, ChainMarksOf(D, a, c), a, b, c, |D| as real)
  {
    var marks, N := ChainMarksOf(D, a, c), |D|;
    PlacesAgree(C, D);
    MembersFit(D);
    SameSet(marks.Keys, Members(D));
    var d, e := Con(a, b), Con(b, c);
    assert d in C && e in C && a != c && b != c;
    MeansRise(C, D, a, c, marks);
    NoneIsFar(D, a, c, marks);
    WeightsArePositive(D, a, c, marks);
    EnoughWeight(N, |marks|, PlaceIn(D, a), c);
  }

  lemma WeightsArePositive(D: seq<Node>, a: Node, c: Node, marks: Marks)
    requires marks == ChainMarksOf(D, a, c)
    ensures Positive(marks)
  {
  }

  lemma NoneIsFar(D: seq<Node>, a: Node, c: Node, marks: Marks)
    requires marks == ChainMarksOf(D, a, c) && a in D && c in D && a != c
    ensures NoneFar(marks, marks[a].mean, c, |D| as real)
  {
    forall x | x in marks && x != c ensures (marks[x].mean - marks[a].mean) * marks[x].weight <= |D| as real {}
  }

  lemma MeansRise(C: set<Con>, D: seq<Node>, a: Node, c: Node, marks: Marks)
    requires Extends(C, D) && marks == ChainMarksOf(D, a, c) && a in D && c in D && a != c
      && PlaceIn(D, a) < PlaceIn(D, c)
    requires forall d :: d in C ==> d.v in D && d.w in D
    ensures forall d :: d in C && d.v != c && d.w != c ==> marks[d.v].mean < marks[d.w].mean
    ensures forall d :: d in C && d.v == c ==> marks[d.w].mean > marks[a].mean
  {
    PlacesAgree(C, D);
  }

  lemma EnoughWeight(N: nat, n: nat, k: int, c: Node)
    requires n <= N
    ensures Outweighs(k as real, Group([c], (k - 1) as real, Heavy(N)), N as real, n)
  {
    assert k as real - (k - 1) as real == 1.0;
    assert (N * N) as real == N as real * N as real;
    Less(N as real, n as real, N as real);
  }

  /** u is to stay left of p and q, which are not constrained; nothing right of u is to stay left of them. */
  ghost predicate IsFork(C: set<Con>, u: Node, p: Node, q: Node) {
    Con(u, p) in C && Con(u, q) in C && p != q && Con(p, q) !in C && Con(q, p) !in C
  }

  ghost predicate IsTight(C: set<Con>, u: Node, p: Node, q: Node) {
    forall d :: d in C && d.w in {p, q} ==> Con(u, d.v) !in C
  }

  lemma {:induction false} Tighten(C: set<Con>, D: seq<Node>, u: Node, p: Node, q: Node)
    returns (u': Node, p': Node, q': Node)
    requires Extends(C, D) && Transitive(C) && IsFork(C, u, p, q) && forall d :: d in C ==> d.v in D && d.w in D
    ensures IsFork(C, u', p', q') && IsTight(C, u', p', q')
    decreases PlaceIn(D, p) + PlaceIn(D, q) - 2 * PlaceIn(D, u)
  {
    u', p', q' := u, p, q;
    PlacesAgree(C, D);
    var e, f := Con(u, p), Con(u, q);
    assert e in C && f in C;
    if d :| d in C && d.w in {p, q} && Con(u, d.v) in C {
      var z := d.v;
      var other := if d.w == p then q else p;
      var h := Con(u, z);
      assert h in C;
      if Con(z, other) in C {
        u', p', q' := Tighten(C, D, z, p, q);
      } else {
        assert z != other;
        assert Con(other, z) !in C;
        u', p', q' := Tighten(C, D, u, z, other);
      }
    }
  }

  function ForkMean(C: set<Con>, D: seq<Node>, u: Node, p: Node, q: Node, x: Node): real {
    if x == u then |D| as real
    else if x in {p, q} then |D| as real - 0.5
    else if Con(u, x) in C then (|D| + 1 + PlaceIn(D, x)) as real
    else PlaceIn(D, x) as real
  }

  function ForkMarksOf(C: set<Con>, D: seq<Node>, u: Node, p: Node, q: Node): Marks {
    map x | x in D :: Mark(ForkMean(C, D, u, p, q, x), 1.0)
  }

  lemma ForkMeansRise(C: set<Con>, D: seq<Node>, u: Node, p: Node, q: Node, d: Con)
    requires Extends(C, D) && Transitive(C) && IsFork(C, u, p, q) && IsTight(C, u, p, q) && d in C && d.v in D
      && d.w in D && u in D
    ensures d.v != d.w
    ensures d.v !in {p, q} && d.w !in {p, q} ==> ForkMean(C, D, u, p, q, d.v) < ForkMean(C, D, u, p, q, d.w)
    ensures d.v in {p, q} ==> ForkMean(C, D, u, p, q, d.w) > |D| as real
    ensures d.w in {p, q} && d.v != u ==> ForkMean(C, D, u, p, q, d.v) < |D| as real - 0.5
  {
    var x, y := d.v, d.w;
    PlacesAgree(C, D);
    assert PlaceIn(D, x) < PlaceIn(D, y);
    var e := Con(u, x);
    assert e in C ==> Con(u, y) in C;
    assert e in C ==> PlaceIn(D, u) < PlaceIn(D, x);
    if x in {p, q} {
      var f := Con(u, x);
      assert f in C;
      assert y !in {p, q};
    }
  }

  lemma ForkMarksExist(C: set<Con>, D: seq<Node>, u: Node, p: Node, q: Node)
    requires Extends(C, D) && Transitive(C) && IsFork(C, u, p, q) && IsTight(C, u, p, q)
    requires forall d :: d in C ==> d.v in D && d.w in D
    ensures ForkMarks(C, ForkMarksOf(C, D, u, p, q), u, p, q)
  {
    var e, f := Con(u, p), Con(u, q);
    assert e in C && f in C;
    PlacesAgree(C, D);
    assert u !in {p, q};
    forall d | d in C
      ensures d.v != d.w
      ensures d.v !in {p, q} && d.w !in {p, q} ==> ForkMean(C, D, u, p, q, d.v) < ForkMean(C, D, u, p, q, d.w)
      ensures d.v in {p, q} ==> ForkMean(C, D, u, p, q, d.w) > |D| as real
      ensures d.w in {p, q} && d.v != u ==> ForkMean(C, D, u, p, q, d.v) < |D| as real - 0.5 {
      ForkMeansRise(C, D, u, p, q, d);
    }
  }

  // ----- the exact condition -----

  ghost predicate AlwaysKept(C: set<Con>, V: set<Node>) {
    forall marks: Marks, vs {:trigger CanComeOut(C, marks, vs)} ::
      marks.Keys == V && Positive(marks) && CanComeOut(C, marks, vs) ==> KeepsAll(C, vs)
  }

  /** Constraints that are not branchless are broken by every result for some means and weights. */
  lemma BrokenMarks(C: set<Con>, D: seq<Node>) returns (marks: Marks)
    requires Extends(C, D) && (forall d :: d in C ==> d.v in D && d.w in D) && !Branchless(C)
    ensures (forall x :: x in D <==> x in marks) && Positive(marks)
    ensures forall vs :: CanComeOut(C, marks, vs) ==> !KeepsAll(C, vs)
  {
    if Transitive(C) {
      var c, d :| c in C && d in C && c.v == d.v && c.w != d.w && Con(c.w, d.w) !in C && Con(d.w, c.w) !in C;
      var u, p, q := Tighten(C, D, c.v, c.w, d.w);
      ForkMarksExist(C, D, u, p, q);
      marks := ForkMarksOf(C, D, u, p, q);
      forall vs | CanComeOut(C, marks, vs) ensures !KeepsAll(C, vs) { ForkAlwaysBreaks(C, marks, u, p, q, vs); }
    } else {
      var c, d :| c in C && d in C && c.w == d.v && Con(c.v, d.w) !in C;
      ChainMarksExist(C, D, c.v, c.w, d.w);
      marks := ChainMarksOf(D, c.v, d.w);
      forall vs | CanComeOut(C, marks, vs) ensures !KeepsAll(C, vs) {
        ChainAlwaysBreaks(C, marks, c.v, c.w, d.w, |D| as real, vs);
      }
    }
  }

  /** Consistent constraints between the nodes V are kept by every result for all means and weights exactly if they
      are branchless. */
  lemma AlwaysKeptIffBranchless(C: set<Con>, V: set<Node>)
    requires Consistent(C) && forall c :: c in C ==> c.v in V && c.w in V
    ensures AlwaysKept(C, V) <==> Branchless(C)
  {
    if Branchless(C) {
      forall marks: Marks, vs | marks.Keys == V && Positive(marks) && CanComeOut(C, marks, vs) ensures KeepsAll(C, vs) {
        var D, H :| ComesOut(C, marks, D, H, vs);
        BranchlessIsKept(C, marks, D, H, vs);
      }
    } else {
      var D := ConsistentHasOrder(C, V);
      var marks := BrokenMarks(C, D);
      var vs := SomethingComesOut(C, marks, D);
      SameSet(marks.Keys, V);
    }
  }

  // ----- the constraints between siblings -----

  function NextTo(s: seq<Node>, i: nat): Con
    requires i + 1 < |s|
  {
    Con(s[i], s[i + 1])
  }

  /** Each of the siblings is to stay left of the next one, as a layer has them in this order. */
  ghost function Consecutive(s: seq<Node>): set<Con> {
    set i {:trigger NextTo(s, i)} | 0 <= i < |s| - 1 :: NextTo(s, i)
  }

  /** Two siblings are always kept in order; with three or more of them the order may be lost. */
  lemma SiblingsAreKeptIffTwo(s: seq<Node>)
    requires NoRepeats(s)
    ensures AlwaysKept(Consecutive(s), Members(s)) <==> |s| <= 2
  {
    var C := Consecutive(s);
    var place := map x | x in s :: PlaceIn(s, x);
    forall c | c in C ensures c.v in s && c.w in s && place[c.v] < place[c.w] {
      var i :| 0 <= i < |s| - 1 && c == NextTo(s, i);
      assert PlaceIn(s, s[i]) == i && PlaceIn(s, s[i + 1]) == i + 1;
    }
    assert Agrees(C, place);
    AlwaysKeptIffBranchless(C, Members(s));
    if |s| <= 2 {
      assert forall c :: c in C ==> c == NextTo(s, 0);
    } else {
      var c, d := NextTo(s, 0), NextTo(s, 1);
      assert c in C && d in C;
      forall i | 0 <= i < |s| - 1 ensures NextTo(s, i) != Con(c.v, d.w) {}
    }
  }
}
