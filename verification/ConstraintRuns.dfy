/** How groups of nodes are formed one node after the other under constraints, and what can come out of it. */
module ConstraintRuns {
  import opened Graphs
  import opened Sums

  /** A constraint: v is to stay left of w. */
  datatype Con = Con(v: Node, w: Node)

  ghost predicate NoRepeats(s: seq<Node>) {
    forall i, j :: 0 <= i < j < |s| ==> s[i] != s[j]
  }

  /** Some order of the nodes agrees with all constraints. */
  ghost predicate Consistent(C: set<Con>) {
    exists place: map<Node, int> :: Agrees(C, place)
  }

  ghost predicate Agrees(C: set<Con>, place: map<Node, int>) {
    forall c :: c in C ==> c.v in place && c.w in place && place[c.v] < place[c.w]
  }

  /** x stands left of y. */
  ghost predicate Precedes(s: seq<Node>, x: Node, y: Node) {
    exists i, j :: 0 <= i < j < |s| && s[i] == x && s[j] == y
  }

  ghost predicate KeepsAll(C: set<Con>, s: seq<Node>) {
    forall c {:trigger Precedes(s, c.v, c.w)} :: c in C ==> Precedes(s, c.v, c.w)
  }

  function PlaceIn(D: seq<Node>, x: Node): (k: int)
    ensures x in D ==> 0 <= k < |D| && D[k] == x
  {
    if D == [] then -1 else if D[0] == x then 0 else PlaceIn(D[1..], x) + 1
  }

  // ----- groups of nodes -----

  datatype Group = Group(vs: seq<Node>, mean: real, weight: real)

  /** Every node has a head, itself or the node whose group it has joined; a head's group lists its nodes. */
  datatype Grouping = Grouping(head: map<Node, Node>, group: map<Node, Group>)

  function Mean(target: Group, source: Group): real {
    if target.weight + source.weight == 0.0 then 0.0
    else (target.mean * target.weight + source.mean * source.weight) / (target.weight + source.weight)
  }

  /** The source's nodes go in front, and the mean is the mean over both. */
  function Joined(target: Group, source: Group): Group {
    Group(source.vs + target.vs, Mean(target, source), target.weight + source.weight)
  }

  /** v's group takes in that of u, if u is a head whose mean is not below v's. */
  ghost predicate Takes(g: Grouping, v: Node, u: Node) {
    u in g.head && u in g.group && v in g.group && u != v && g.head[u] == u && g.group[u].mean >= g.group[v].mean
  }

  ghost function TakeIn(g: Grouping, v: Node, u: Node): Grouping {
    if Takes(g, v, u)
    then Grouping(map x | x in g.head :: if g.head[x] == u then v else g.head[x],
                  g.group[v := Joined(g.group[v], g.group[u])])
    else g
  }

  /** The members of ins from place n on have been looked at, last first. */
  ghost function TakeAll(g: Grouping, v: Node, ins: seq<Node>, n: nat): Grouping
    requires n <= |ins|
    decreases |ins| - n
  {
    if n == |ins| then g else TakeIn(TakeAll(g, v, ins, n + 1), v, ins[n])
  }

  /** The nodes of D that are to stay left of w. */
  ghost function Preds(C: set<Con>, D: seq<Node>, w: Node): seq<Node> {
    if D == [] then [] else
      Preds(C, D[..|D| - 1], w) + if Con(D[|D| - 1], w) in C then [D[|D| - 1]] else []
  }

  /** The nodes of D have been taken one after the other, each looking at those that are to stay left of it. */
  ghost function Run(C: set<Con>, g: Grouping, D: seq<Node>): Grouping {
    if D == [] then g else
      var before, v := D[..|D| - 1], D[|D| - 1];
      TakeAll(Run(C, g, before), v, Preds(C, before, v), 0)
  }

  datatype Mark = Mark(mean: real, weight: real)

  type Marks = map<Node, Mark>

  /** Every node is a group of its own. */
  function Start(marks: Marks): Grouping {
    Grouping(map x | x in marks :: x, map x | x in marks :: Group([x], marks[x].mean, marks[x].weight))
  }

  ghost predicate Positive(marks: Marks) {
    forall x :: x in marks ==> marks[x].weight > 0.0
  }

  /** The nodes of these groups, one group after the other. */
  ghost function Lined(g: Grouping, H: seq<Node>): seq<Node> {
    if H == [] then [] else Lined(g, H[..|H| - 1]) + if H[|H| - 1] in g.group then g.group[H[|H| - 1]].vs else []
  }

  /** H lists all heads, the smallest mean first. */
  ghost predicate ByMean(g: Grouping, H: seq<Node>) {
    && NoRepeats(H) && (forall k :: k in H ==> k in g.head && k in g.group)
    && (forall k :: k in g.head ==> (k in H <==> g.head[k] == k))
    && forall i, j :: 0 <= i < j < |H| ==> g.group[H[i]].mean <= g.group[H[j]].mean
  }

  /** vs is what can come out for these nodes: they are taken in an order that agrees with C, and the groups are put
      out by their means. */
  ghost predicate CanComeOut(C: set<Con>, marks: Marks, vs: seq<Node>) {
    NoRepeats(vs) && exists D, H :: ComesOut(C, marks, D, H, vs)
  }

  ghost predicate ComesOut(C: set<Con>, marks: Marks, D: seq<Node>, H: seq<Node>, vs: seq<Node>) {
    && Extends(C, D) && (forall x :: x in D <==> x in marks)
    && ByMean(Run(C, Start(marks), D), H) && vs == Lined(Run(C, Start(marks), D), H)
  }

  // ----- the constraints that are always kept -----

  ghost predicate Transitive(C: set<Con>) {
    forall c, d :: c in C && d in C && c.w == d.v ==> Con(c.v, d.w) in C
  }

  /** Whatever is right of a common node is ordered itself. */
  ghost predicate Branchless(C: set<Con>) {
    Transitive(C)
      && forall c, d :: c in C && d in C && c.v == d.v && c.w != d.w ==> Con(c.w, d.w) in C || Con(d.w, c.w) in C
  }

  /** The order D agrees with C: what is to stay left of a node comes before it. */
  ghost predicate Extends(C: set<Con>, D: seq<Node>) {
    NoRepeats(D) && forall c, j :: c in C && 0 <= j < |D| && D[j] == c.w ==> c.v in D[..j]
  }

  // ----- one node more -----

  function Members(s: seq<Node>): set<Node> {
    set x | x in s
  }

  /** x has not been taken and is as at the start. */
  ghost predicate Untouched(g: Grouping, marks: Marks, x: Node) {
    && x in marks && x in g.head && g.head[x] == x && x in g.group
    && g.group[x] == Group([x], marks[x].mean, marks[x].weight)
  }

  lemma {:induction false} PredsAre(C: set<Con>, D: seq<Node>, v: Node)
    ensures forall u :: u in Preds(C, D, v) <==> u in D && Con(u, v) in C
  {
    if D != [] { PredsAre(C, D[..|D| - 1], v); }
  }

  lemma {:induction false} PredsInOrder(C: set<Con>, D: seq<Node>, v: Node, i: nat, j: nat)
    requires Extends(C, D) && i < |Preds(C, D, v)| && j < |Preds(C, D, v)|
      && Con(Preds(C, D, v)[i], Preds(C, D, v)[j]) in C
    ensures i < j
  {
    var before, d := D[..|D| - 1], D[|D| - 1];
    var ins := Preds(C, before, v);
    PrefixExtends(C, D, |D| - 1);
    if i < |ins| && j < |ins| {
      PredsInOrder(C, before, v, i, j);
    } else if i == |ins| {
      PredsAre(C, D, v);
      var x := Preds(C, D, v)[j];
      assert x in D && Con(d, x) in C;
      var k :| 0 <= k < |D| && D[k] == x;
      ComesBefore(C, D, |D| - 1, k);
    }
  }

  lemma ComesBefore(C: set<Con>, D: seq<Node>, i: nat, j: nat)
    requires Extends(C, D) && i < |D| && j < |D| && Con(D[i], D[j]) in C
    ensures i < j
  {
    var c := Con(D[i], D[j]);
    assert D[j] == c.w && c.v in D[..j];
    var k :| 0 <= k < j && D[..j][k] == c.v;
    assert D[k] == D[i];
  }

  lemma PrefixExtends(C: set<Con>, D: seq<Node>, n: nat)
    requires Extends(C, D) && n <= |D|
    ensures Extends(C, D[..n])
  {
    forall c, j | c in C && 0 <= j < n && D[..n][j] == c.w ensures c.v in D[..n][..j] {
      assert D[..n][..j] == D[..j] && D[j] == c.w;
    }
  }

  /** ins lists what is to stay left of v, in an order that agrees with C; all that C names is in N or comes later. */
  ghost predicate LeftOf(C: set<Con>, N: set<Node>, v: Node, ins: seq<Node>) {
    && (forall u :: u in ins <==> Con(u, v) in C) && (forall u :: u in ins ==> u in N && u != v)
    && (forall i, j :: 0 <= i < |ins| && 0 <= j < |ins| && Con(ins[i], ins[j]) in C ==> i < j)
    && (forall x :: x in N ==> Con(v, x) !in C) && (forall x :: x in N ==> Con(x, x) !in C)
    && (forall x, y :: x in N && y in N && Con(x, y) in C ==> Con(y, x) !in C)
  }

  lemma NextIsLeftOf(C: set<Con>, D: seq<Node>, v: Node, N: set<Node>)
    requires Extends(C, D + [v]) && N == Members(D) + {v}
    ensures LeftOf(C, N, v, Preds(C, D, v)) && v !in D && Extends(C, D)
  {
    var D', ins := D + [v], Preds(C, D, v);
    PredsAre(C, D, v);
    PrefixExtends(C, D', |D|);
    assert D'[..|D|] == D;
    forall k | 0 <= k < |D| ensures D[k] != v { assert D'[k] != D'[|D|]; }
    forall c | c in C && c.w == v ensures c.v in D {
      assert D'[|D|] == c.w && c.v in D'[..|D|];
    }
    forall x, y | x in N && y in N && Con(x, y) in C ensures Con(y, x) !in C && y != x && x in D {
      NoCircle(C, D', x, y);
    }
    forall i, j | 0 <= i < |ins| && 0 <= j < |ins| && Con(ins[i], ins[j]) in C ensures i < j {
      PredsInOrder(C, D, v, i, j);
    }
  }

  lemma NoCircle(C: set<Con>, D: seq<Node>, x: Node, y: Node)
    requires Extends(C, D) && x in D && y in D && Con(x, y) in C
    ensures Con(y, x) !in C && x != y && x in D[..|D| - 1]
  {
    var i :| 0 <= i < |D| && D[i] == x;
    var j :| 0 <= j < |D| && D[j] == y;
    ComesBefore(C, D, i, j);
    assert x in D[..|D| - 1] by { assert D[..|D| - 1][i] == x; }
    if Con(y, x) in C { ComesBefore(C, D, j, i); }
  }

  lemma {:induction false} OthersUntouched(g: Grouping, marks: Marks, v: Node, ins: seq<Node>, n: nat, x: Node)
    requires n <= |ins| && Untouched(g, marks, x) && x != v && x !in ins
    ensures Untouched(TakeAll(g, v, ins, n), marks, x)
    decreases |ins| - n
  {
    if n < |ins| { OthersUntouched(g, marks, v, ins, n + 1, x); }
  }

  lemma {:induction false} RestUntouched(C: set<Con>, marks: Marks, D: seq<Node>, x: Node)
    requires x in marks && x !in D
    ensures Untouched(Run(C, Start(marks), D), marks, x)
  {
    if D != [] {
      var before, v := D[..|D| - 1], D[|D| - 1];
      RestUntouched(C, marks, before, x);
      PredsAre(C, before, v);
      OthersUntouched(Run(C, Start(marks), before), marks, v, Preds(C, before, v), 0, x);
    }
  }

  // ----- putting the groups out -----

  lemma PrecedesJoin(a: seq<Node>, b: seq<Node>, x: Node, y: Node)
    ensures Precedes(a, x, y) ==> Precedes(a + b, x, y)
    ensures Precedes(b, x, y) ==> Precedes(a + b, x, y)
    ensures x in a && y in b ==> Precedes(a + b, x, y)
  {
    if Precedes(a, x, y) {
      var i, j :| 0 <= i < j < |a| && a[i] == x && a[j] == y;
      assert (a + b)[i] == x && (a + b)[j] == y;
    }
    if Precedes(b, x, y) {
      var i, j :| 0 <= i < j < |b| && b[i] == x && b[j] == y;
      assert (a + b)[|a| + i] == x && (a + b)[|a| + j] == y;
    }
    if x in a && y in b {
      var i :| 0 <= i < |a| && a[i] == x;
      var j :| 0 <= j < |b| && b[j] == y;
      assert (a + b)[i] == x && (a + b)[|a| + j] == y;
    }
  }

  lemma {:induction false} LinedHas(g: Grouping, H: seq<Node>, i: nat, x: Node)
    requires i < |H| && H[i] in g.group && x in g.group[H[i]].vs
    ensures x in Lined(g, H)
  {
    if i < |H| - 1 { LinedHas(g, H[..|H| - 1], i, x); }
  }

  lemma {:induction false} LinedInside(g: Grouping, H: seq<Node>, i: nat, x: Node, y: Node)
    requires i < |H| && H[i] in g.group && Precedes(g.group[H[i]].vs, x, y)
    ensures Precedes(Lined(g, H), x, y)
  {
    var last := H[|H| - 1];
    PrecedesJoin(Lined(g, H[..|H| - 1]), if last in g.group then g.group[last].vs else [], x, y);
    if i < |H| - 1 { LinedInside(g, H[..|H| - 1], i, x, y); }
  }

  lemma {:induction false} LinedAcross(g: Grouping, H: seq<Node>, i: nat, j: nat, x: Node, y: Node)
    requires i < j < |H| && H[i] in g.group && H[j] in g.group && x in g.group[H[i]].vs && y in g.group[H[j]].vs
    ensures Precedes(Lined(g, H), x, y)
  {
    var last := H[|H| - 1];
    PrecedesJoin(Lined(g, H[..|H| - 1]), if last in g.group then g.group[last].vs else [], x, y);
    if j < |H| - 1 {
      LinedAcross(g, H[..|H| - 1], i, j, x, y);
    } else {
      LinedHas(g, H[..|H| - 1], i, x);
    }
  }

  /** Of two groups the one of the smaller mean is put out first. */
  lemma SmallerIsFirst(g: Grouping, H: seq<Node>, x: Node, y: Node)
    requires ByMean(g, H) && x in g.head && y in g.head && g.head[x] in H && g.head[y] in H
    requires x in g.group[g.head[x]].vs && y in g.group[g.head[y]].vs
    requires g.group[g.head[x]].mean < g.group[g.head[y]].mean
    ensures Precedes(Lined(g, H), x, y)
  {
    var i :| 0 <= i < |H| && H[i] == g.head[x];
    var j :| 0 <= j < |H| && H[j] == g.head[y];
    LinedAcross(g, H, i, j, x, y);
  }

  // ----- something always comes out -----

  /** A head's group lists exactly its own nodes. */
  ghost predicate Tidy(g: Grouping) {
    forall k {:trigger TidyAt(g, k)} :: k in g.head && g.head[k] == k ==> TidyAt(g, k)
  }

  ghost predicate TidyAt(g: Grouping, k: Node) {
    k in g.group && NoRepeats(g.group[k].vs) && forall x :: x in g.group[k].vs ==> x in g.head && g.head[x] == k
  }

  lemma JoinedDiffer(a: seq<Node>, b: seq<Node>)
    requires NoRepeats(a) && NoRepeats(b) && forall x :: x in a ==> x !in b
    ensures NoRepeats(a + b)
  {
    forall i, j | 0 <= i < j < |a + b| ensures (a + b)[i] != (a + b)[j] {
      if i < |a| <= j { assert (a + b)[i] in a && (a + b)[j] in b; }
    }
  }

  lemma TakeInKeepsTidy(g: Grouping, v: Node, u: Node)
    requires Tidy(g) && v in g.head && g.head[v] == v
    ensures Tidy(TakeIn(g, v, u)) && v in TakeIn(g, v, u).head && TakeIn(g, v, u).head[v] == v
    ensures TakeIn(g, v, u).head.Keys == g.head.Keys
  {
    var g' := TakeIn(g, v, u);
    if Takes(g, v, u) {
      assert TidyAt(g, v) && TidyAt(g, u);
      JoinedDiffer(g.group[u].vs, g.group[v].vs);
      forall k | k in g'.head && g'.head[k] == k ensures TidyAt(g', k) { assert TidyAt(g, k); }
    }
  }

  lemma {:induction false} TakeAllKeepsTidy(g: Grouping, v: Node, ins: seq<Node>, n: nat)
    requires n <= |ins| && Tidy(g) && v in g.head && g.head[v] == v
    ensures Tidy(TakeAll(g, v, ins, n)) && v in TakeAll(g, v, ins, n).head && TakeAll(g, v, ins, n).head[v] == v
    ensures TakeAll(g, v, ins, n).head.Keys == g.head.Keys
    decreases |ins| - n
  {
    if n < |ins| {
      TakeAllKeepsTidy(g, v, ins, n + 1);
      TakeInKeepsTidy(TakeAll(g, v, ins, n + 1), v, ins[n]);
    }
  }

  lemma {:induction false} RunIsTidy(C: set<Con>, marks: Marks, D: seq<Node>)
    requires NoRepeats(D) && forall x :: x in D ==> x in marks
    ensures Tidy(Run(C, Start(marks), D)) && Run(C, Start(marks), D).head.Keys == marks.Keys
  {
    if D == [] {
      forall k | k in marks ensures TidyAt(Start(marks), k) {}
      SameSet(Start(marks).head.Keys, marks.Keys);
    } else {
      var before, v := D[..|D| - 1], D[|D| - 1];
      RunIsTidy(C, marks, before);
      forall k | 0 <= k < |before| ensures before[k] != v {}
      RestUntouched(C, marks, before, v);
      TakeAllKeepsTidy(Run(C, Start(marks), before), v, Preds(C, before, v), 0);
    }
  }

  lemma {:induction false} LinedDiffers(g: Grouping, H: seq<Node>)
    requires Tidy(g) && NoRepeats(H) && forall k :: k in H ==> k in g.head && g.head[k] == k
    ensures NoRepeats(Lined(g, H)) && forall x :: x in Lined(g, H) ==> x in g.head && g.head[x] in H
  {
    if H != [] {
      var before, k := H[..|H| - 1], H[|H| - 1];
      LinedDiffers(g, before);
      assert k in H && TidyAt(g, k);
      forall i | 0 <= i < |before| ensures before[i] != k {}
      JoinedDiffer(Lined(g, before), g.group[k].vs);
    }
  }

  lemma {:induction false} SortHeads(S: set<Node>, mean: map<Node, real>) returns (H: seq<Node>)
    requires S <= mean.Keys
    ensures NoRepeats(H) && (forall x :: x in H <==> x in S)
      && forall i, j :: 0 <= i < j < |H| ==> mean[H[i]] <= mean[H[j]]
    decreases S
  {
    if S == {} {
      H := [];
    } else {
      var x := First(S, mean);
      var rest := SortHeads(S - {x}, mean);
      H := [x] + rest;
      forall i, j | 0 <= i < j < |H| ensures H[i] != H[j] && mean[H[i]] <= mean[H[j]] {
        assert rest[j - 1] in rest;
      }
    }
  }

  lemma SomethingComesOut(C: set<Con>, marks: Marks, D: seq<Node>) returns (vs: seq<Node>)
    requires Extends(C, D) && forall x :: x in D <==> x in marks
    ensures CanComeOut(C, marks, vs)
  {
    var g := Run(C, Start(marks), D);
    RunIsTidy(C, marks, D);
    var S := set k | k in g.head && g.head[k] == k;
    forall k | k in S ensures k in g.group { assert TidyAt(g, k); }
    var H := SortHeads(S, map k | k in g.group :: g.group[k].mean);
    vs := Lined(g, H);
    LinedDiffers(g, H);
    assert ComesOut(C, marks, D, H, vs);
  }

  // ----- there is always an order to take the nodes in -----

  /** The nodes V can be taken in an order that agrees with C. */
  lemma {:induction false} HasOrder(C: set<Con>, V: set<Node>, place: map<Node, int>) returns (D: seq<Node>)
    requires V <= place.Keys && forall c :: c in C && c.w in V ==> c.v in V && place[c.v] < place[c.w]
    ensures Extends(C, D) && forall x :: x in D <==> x in V
    decreases V
  {
    if V == {} {
      D := [];
    } else {
      var x := Latest(V, place);
      var D' := HasOrder(C, V - {x}, place);
      D := D' + [x];
      forall c, j | c in C && 0 <= j < |D| && D[j] == c.w ensures c.v in D[..j] {
        if j < |D'| {
          assert D'[j] == c.w && D[..j] == D'[..j];
        } else {
          assert D[..j] == D';
        }
      }
    }
  }

  lemma ConsistentHasOrder(C: set<Con>, V: set<Node>) returns (D: seq<Node>)
    requires Consistent(C) && forall c :: c in C ==> c.v in V && c.w in V
    ensures Extends(C, D) && forall x :: x in D <==> x in V
  {
    var agreed: map<Node, int> :| Agrees(C, agreed);
    var place := map x | x in V :: if x in agreed then agreed[x] else 0;
    D := HasOrder(C, V, place);
  }
}
