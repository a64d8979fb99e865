/** One layer is brought into the order of its barycenters without losing or doubling a node. */
module LayerSort {
  import opened Graphs
  import opened Sums
  import opened ConstraintRuns
  import ConstraintOrder
  import opened ConflictResolution
  import opened EntrySort

  // ----- lists with the same members -----

  lemma {:induction false} AllVsJoin(a: seq<Entry>, b: seq<Entry>)
    ensures AllVs(a + b) == AllVs(a) + AllVs(b)
    decreases |b|
  {
    if b == [] {
      assert a + b == a;
    } else {
      var before, last := b[..|b| - 1], b[|b| - 1];
      AllVsJoin(a, before);
      assert (a + b)[..|a + b| - 1] == a + before && (a + b)[|a + b| - 1] == last;
      assert AllVs(a + b) == AllVs(a + before) + last.vs;
    }
  }

  lemma CancelOne(a: multiset<Entry>, b: multiset<Entry>, x: multiset<Entry>)
    requires a + x == b + x
    ensures a == b
  {
    assert a == a + x - x && b == b + x - x;
  }

  /** Taking the entry at place p out. */
  lemma TakeOut(b: seq<Entry>, p: nat, rest: seq<Entry>)
    requires p < |b| && rest == b[..p] + b[p + 1..]
    ensures multiset(b) == multiset(rest) + multiset{b[p]}
    ensures multiset(AllVs(b)) == multiset(AllVs(rest)) + multiset(b[p].vs)
  {
    var before, after := b[..p], b[p + 1..];
    assert b == before + [b[p]] + after;
    AllVsJoin(before, after);
    AllVsOneMore(before, b[p]);
    AllVsJoin(before + [b[p]], after);
  }

  /** Entries in another order hold the same nodes. */
  lemma {:induction false} SameEntriesSameVs(a: seq<Entry>, b: seq<Entry>)
    requires multiset(a) == multiset(b)
    ensures multiset(AllVs(a)) == multiset(AllVs(b))
    decreases |a|
  {
    assert |multiset(a)| == |a| && |multiset(b)| == |b|;
    if a != [] {
      var k := |a| - 1;
      assert a[k] in multiset(b);
      var p :| 0 <= p < |b| && b[p] == a[k];
      var a', b' := a[..k], b[..p] + b[p + 1..];
      assert a == a' + [a[k]];
      TakeOut(b, p, b');
      CancelOne(multiset(a'), multiset(b'), multiset{a[k]});
      SameEntriesSameVs(a', b');
    }
  }

  lemma {:induction false} SingleVs(U: seq<Entry>)
    requires forall k :: 0 <= k < |U| ==> |U[k].vs| == 1
    ensures |AllVs(U)| == |U|
    decreases |U|
  {
    if U != [] { SingleVs(U[..|U| - 1]); }
  }

  lemma {:induction false} CountOnce(s: seq<Node>, x: Node)
    requires NoRepeats(s)
    ensures multiset(s)[x] == if x in s then 1 else 0
    decreases |s|
  {
    if s != [] {
      var k := |s| - 1;
      CountOnce(s[..k], x);
      assert s == s[..k] + [s[k]];
    }
  }

  lemma SameMembersSameNodes(a: seq<Node>, b: seq<Node>)
    requires NoRepeats(a) && NoRepeats(b) && forall x :: x in a <==> x in b
    ensures multiset(a) == multiset(b)
  {
    forall x ensures multiset(a)[x] == multiset(b)[x] {
      CountOnce(a, x);
      CountOnce(b, x);
    }
  }

  // ----- enough room for all -----

  lemma TwiceInMultiset<T>(s: seq<T>, j: nat, k: nat)
    requires j < k < |s| && s[j] == s[k]
    ensures multiset(s)[s[j]] >= 2
  {
    assert s == s[..j] + [s[j]] + s[j + 1..k] + [s[k]] + s[k + 1..];
  }

  lemma {:induction false} OnceInMultiset(r: seq<Entry>, e: Entry)
    requires forall j, k :: 0 <= j < k < |r| ==> r[j].i != r[k].i
    ensures multiset(r)[e] <= 1
    decreases |r|
  {
    if r != [] {
      var k := |r| - 1;
      OnceInMultiset(r[..k], e);
      assert r == r[..k] + [r[k]];
      assert forall j :: 0 <= j < k ==> r[..k][j] == r[j] && r[j].i != r[k].i;
      assert r[k] !in r[..k];
    }
  }

  lemma DifferentInPart(r: seq<Entry>, S: seq<Entry>, U: seq<Entry>, j: nat, k: nat)
    requires (forall a, b :: 0 <= a < b < |r| ==> r[a].i != r[b].i) && multiset(r) == multiset(S) + multiset(U)
    requires j < k < |U|
    ensures U[j].i != U[k].i
  {
    if U[j] == U[k] {
      TwiceInMultiset(U, j, k);
      OnceInMultiset(r, U[j]);
    } else {
      assert U[j] in multiset(r) && U[k] in multiset(r);
      var a :| 0 <= a < |r| && r[a] == U[j];
      var b :| 0 <= b < |r| && r[b] == U[k];
      assert a < b || b < a;
    }
  }

  /** When every input node is in some entry, the entries without a score find their places. */
  lemma ResolvedFits(input: seq<Input>, r: seq<Entry>, S: seq<Entry>, U: seq<Entry>)
    requires Resolved(input, r) && |AllVs(r)| == |input| && multiset(r) == multiset(S) + multiset(U)
    requires Descending(U) && forall e :: e in U ==> !Sortable(e)
    ensures FitIn(U, |AllVs(S)|)
  {
    assert multiset(S + U) == multiset(r);
    SameEntriesSameVs(r, S + U);
    AllVsJoin(S, U);
    assert |AllVs(r)| == |multiset(AllVs(r))| && |AllVs(S + U)| == |multiset(AllVs(S + U))|;
    forall k | 0 <= k < |U| ensures |U[k].vs| == 1 && U[k].i < |input| {
      assert U[k] in U && U[k] in multiset(r);
      var j :| 0 <= j < |r| && r[j] == U[k];
    }
    SingleVs(U);
    forall j, k | 0 <= j < k < |U| ensures U[j].i != U[k].i {
      DifferentInPart(r, S, U, j, k);
    }
    DifferentPlacesFit(U, |AllVs(S)|);
  }

  // ----- sorting a layer -----

  function NodesOf(input: seq<Input>): (s: seq<Node>)
    ensures |s| == |input| && forall i :: 0 <= i < |s| ==> s[i] == input[i].v
  {
    seq(|input|, i requires 0 <= i < |input| => input[i].v)
  }

  /** The entries that come out hold each input node once. */
  lemma AllNodesKept(input: seq<Input>, r: seq<Entry>)
    requires (forall i, j :: 0 <= i < j < |input| ==> input[i].v != input[j].v) && Resolved(input, r)
    requires forall i :: 0 <= i < |input| ==> input[i].v in AllVs(r)
    ensures multiset(AllVs(r)) == multiset(NodesOf(input)) && |AllVs(r)| == |input|
  {
    var s := NodesOf(input);
    forall x ensures x in s <==> x in AllVs(r) {
      if x in s {
        var i :| 0 <= i < |s| && s[i] == x;
      }
      if x in AllVs(r) {
        var i :| 0 <= i < |input| && input[i].v == x;
        assert s[i] == x;
      }
    }
    SameMembersSameNodes(s, AllVs(r));
    assert |multiset(s)| == |s| && |multiset(AllVs(r))| == |AllVs(r)|;
  }

  // ----- the order that comes out -----

  ghost predicate NoNaN(sc: Scores) {
    forall x :: x in sc && sc[x].Some? ==> sc[x].value.barycenter.Num?
  }

  ghost predicate NotAfter(a: Option<Score>, b: Option<Score>) {
    a.Some? && b.Some? && a.value.barycenter.Num? && b.value.barycenter.Num? ==>
      a.value.barycenter.r <= b.value.barycenter.r
  }

  /** Nodes with barycenters come in their order. */
  ghost predicate InScoreOrder(vs: seq<Node>, sc: Scores) {
    forall j, k :: 0 <= j < k < |vs| && vs[j] in sc && vs[k] in sc ==> NotAfter(sc[vs[j]], sc[vs[k]])
  }

  ghost predicate Singles(s: seq<Entry>, sc: Scores) {
    forall j {:trigger s[j]} :: 0 <= j < |s| ==> |s[j].vs| == 1 && s[j].vs[0] in sc && s[j].score == sc[s[j].vs[0]]
  }

  lemma {:induction false} SinglesInOrder(s: seq<Entry>, sc: Scores)
    requires Singles(s, sc)
    ensures |AllVs(s)| == |s| && forall j :: 0 <= j < |s| ==> AllVs(s)[j] == s[j].vs[0]
    decreases |s|
  {
    if s != [] { SinglesInOrder(s[..|s| - 1], sc); }
  }

  /** Where the j-th entry, having a score, stands among those that have one. */
  ghost function Rank(s: seq<Entry>, j: nat): nat
    requires j <= |s|
  {
    |Chosen(s[..j])|
  }

  lemma {:induction false} RankIsPlace(s: seq<Entry>, j: nat, n: nat)
    requires j < n <= |s| && Sortable(s[j])
    ensures Rank(s, j) < |Chosen(s[..n])| && Chosen(s[..n])[Rank(s, j)] == s[j]
    decreases n
  {
    assert s[..n] == s[..n - 1] + [s[n - 1]];
    ChosenOneMore(s[..n - 1], s[n - 1]);
    if j < n - 1 { RankIsPlace(s, j, n - 1); }
  }

  lemma ChosenInOrder(s: seq<Entry>, sc: Scores, biasRight: bool)
    requires Singles(s, sc) && AllSortable(Chosen(s)) && Sorted(Chosen(s), biasRight)
    ensures InScoreOrder(AllVs(s), sc)
  {
    SinglesInOrder(s, sc);
    var vs := AllVs(s);
    forall j, k | 0 <= j < k < |vs| && vs[j] in sc && vs[k] in sc ensures NotAfter(sc[vs[j]], sc[vs[k]]) {
      if Sortable(s[j]) && Sortable(s[k]) {
        assert s[..|s|] == s;
        RankIsPlace(s, j, |s|);
        RankIsPlace(s, k, |s|);
        RankIsPlace(s, j, k);
        assert !Before(Chosen(s)[Rank(s, k)], Chosen(s)[Rank(s, j)], biasRight);
      }
    }
  }

  lemma SinglesAreNumbers(r: seq<Entry>, sc: Scores, S: seq<Entry>, U: seq<Entry>, out: seq<Entry>)
    requires Singles(r, sc) && NoNaN(sc) && multiset(r) == multiset(S) + multiset(U) && AllSortable(S)
      && multiset(out) == multiset(r)
    ensures AllNumbers(S) && Singles(out, sc)
  {
    forall k | 0 <= k < |S| ensures S[k].score.value.barycenter.Num? {
      assert S[k] in multiset(r);
      var j :| 0 <= j < |r| && r[j] == S[k];
    }
    forall k | 0 <= k < |out| ensures |out[k].vs| == 1 && out[k].vs[0] in sc && out[k].score == sc[out[k].vs[0]] {
      assert out[k] in multiset(r);
      var j :| 0 <= j < |r| && r[j] == out[k];
    }
  }

  // ----- the groups that are put out -----

  /** The same members, and what the entries of a run are. */
  ghost predicate HeadOf(H: seq<Node>, r: seq<Entry>, e: Entry, k: Node) {
    |H| == |r| && exists j :: 0 <= j < |r| && r[j] == e && H[j] == k
  }

  ghost predicate HeadsOf(H: seq<Node>, r: seq<Entry>, out: seq<Entry>, H': seq<Node>) {
    |H'| == |out| && forall j {:trigger out[j]} :: 0 <= j < |out| ==> HeadOf(H, r, out[j], H'[j])
  }

  lemma {:induction false} PickHeads(H: seq<Node>, r: seq<Entry>, out: seq<Entry>) returns (H': seq<Node>)
    requires |H| == |r| && forall e :: e in out ==> e in r
    ensures HeadsOf(H, r, out, H')
    decreases |out|
  {
    H' := [];
    if out != [] {
      var before, e := out[..|out| - 1], out[|out| - 1];
      var rest := PickHeads(H, r, before);
      assert e in out;
      var m :| 0 <= m < |r| && r[m] == e;
      H' := rest + [H[m]];
      forall j | 0 <= j < |out| ensures HeadOf(H, r, out[j], H'[j]) {
        if j < |before| { assert HeadOf(H, r, before[j], rest[j]); }
      }
    }
  }

  lemma HeadsDiffer(H: seq<Node>, r: seq<Entry>, out: seq<Entry>, H': seq<Node>)
    requires HeadsOf(H, r, out, H') && NoRepeats(H) && multiset(out) == multiset(r)
    requires forall j, k :: 0 <= j < k < |r| ==> r[j].i != r[k].i
    ensures NoRepeats(H')
  {
    forall i, j | 0 <= i < j < |H'| ensures H'[i] != H'[j] {
      if out[i] == out[j] {
        TwiceInMultiset(out, i, j);
        OnceInMultiset(r, out[i]);
      }
      assert HeadOf(H, r, out[i], H'[i]) && HeadOf(H, r, out[j], H'[j]);
    }
  }

  lemma SameHeads(H: seq<Node>, r: seq<Entry>, out: seq<Entry>, H': seq<Node>, k: Node)
    requires HeadsOf(H, r, out, H') && |H| == |r| && multiset(out) == multiset(r)
    requires forall j, k :: 0 <= j < k < |r| ==> r[j].i != r[k].i
    ensures k in H' <==> k in H
  {
    if k in H {
      var m :| 0 <= m < |H| && H[m] == k;
      assert r[m] in multiset(out);
      var j :| 0 <= j < |out| && out[j] == r[m];
      assert HeadOf(H, r, out[j], H'[j]);
    }
    if k in H' {
      var j :| 0 <= j < |H'| && H'[j] == k;
      assert HeadOf(H, r, out[j], H'[j]);
    }
  }

  /** The heads in the order in which their entries are put out. */
  lemma HeadsMoved(H: seq<Node>, r: seq<Entry>, out: seq<Entry>) returns (H': seq<Node>)
    requires |H| == |r| && NoRepeats(H) && multiset(out) == multiset(r)
      && forall j, k :: 0 <= j < k < |r| ==> r[j].i != r[k].i
    ensures HeadsOf(H, r, out, H') && NoRepeats(H') && forall k :: k in H' <==> k in H
  {
    forall e | e in out ensures e in r { assert e in multiset(out) && e in multiset(r); }
    H' := PickHeads(H, r, out);
    HeadsDiffer(H, r, out, H');
    forall k ensures k in H' <==> k in H { SameHeads(H, r, out, H', k); }
  }

  ghost predicate EntriesAre(g: Grouping, H: seq<Node>, out: seq<Entry>) {
    |H| == |out| && forall j {:trigger out[j]} :: 0 <= j < |out| ==> EntryIs(g, H[j], out[j])
  }

  lemma {:induction false} LinedIsAllVs(g: Grouping, H: seq<Node>, out: seq<Entry>)
    requires EntriesAre(g, H, out)
    ensures AllVs(out) == Lined(g, H)
    decreases |out|
  {
    if out != [] {
      var k := |out| - 1;
      assert EntryIs(g, H[k], out[k]);
      assert forall j :: 0 <= j < k ==> out[..k][j] == out[j];
      LinedIsAllVs(g, H[..k], out[..k]);
    }
  }

  lemma {:induction false} AllAreChosen(out: seq<Entry>)
    requires forall j :: 0 <= j < |out| ==> Sortable(out[j])
    ensures Chosen(out) == out
  {
    if out != [] { AllAreChosen(out[..|out| - 1]); }
  }

  lemma SortedByMean(g: Grouping, H: seq<Node>, out: seq<Entry>, biasRight: bool)
    requires EntriesAre(g, H, out)
      && (AllSortable(Chosen(out)) && (AllNumbers(Chosen(out)) ==> Sorted(Chosen(out), biasRight)))
    ensures forall i, j :: 0 <= i < j < |H| && H[i] in g.group && H[j] in g.group ==>
      g.group[H[i]].mean <= g.group[H[j]].mean
  {
    forall j | 0 <= j < |out|
      ensures Sortable(out[j]) && out[j].score.value.barycenter.Num? { assert EntryIs(g, H[j], out[j]); }
    AllAreChosen(out);
    forall i, j | 0 <= i < j < |H| && H[i] in g.group && H[j] in g.group
      ensures g.group[H[i]].mean <= g.group[H[j]].mean {
      assert EntryIs(g, H[i], out[i]) && EntryIs(g, H[j], out[j]);
      assert !EntrySort.Before(out[j], out[i], biasRight);
    }
  }

  lemma MovedAreEntries(g: Grouping, H: seq<Node>, r: seq<Entry>, H': seq<Node>, out: seq<Entry>)
    requires EntriesAre(g, H, r) && HeadsOf(H, r, out, H')
    ensures EntriesAre(g, H', out)
  {
    forall j | 0 <= j < |out| ensures EntryIs(g, H'[j], out[j]) {
      assert HeadOf(H, r, out[j], H'[j]);
      var m :| 0 <= m < |r| && r[m] == out[j] && H[m] == H'[j];
      assert EntryIs(g, H[m], r[m]);
    }
  }

  /** The groups come out by their means, and so what comes out is a result of the run. */
  lemma GroupsComeOut(C: set<Con>, marks: Marks, r: seq<Entry>, out: seq<Entry>, biasRight: bool)
    requires IsGrouped(C, marks, r) && multiset(out) == multiset(r)
      && forall j, k :: 0 <= j < k < |r| ==> r[j].i != r[k].i
    requires AllSortable(Chosen(out)) && (AllNumbers(Chosen(out)) ==> Sorted(Chosen(out), biasRight))
    ensures CanComeOut(C, marks, AllVs(out))
  {
    var D, H :| Grouped(C, marks, D, H, r);
    var g := Run(C, Start(marks), D);
    var H' := HeadsMoved(H, r, out);
    MovedAreEntries(g, H, r, H', out);
    LinedIsAllVs(g, H', out);
    SortedByMean(g, H', out, biasRight);
    RunIsTidy(C, marks, D);
    forall k | k in H' ensures k in g.head && k in g.group { assert TidyAt(g, k); }
    LinedDiffers(g, H');
    assert ComesOut(C, marks, D, H', AllVs(out));
  }

  /** The sorted layer is a rearrangement of its nodes exactly when the constraints between them are
      consistent; without constraints it is in the order of the barycenters, if they are all numbers. */
  method SortLayer(input: seq<Input>, cg: set<Con>, biasRight: bool) returns (vs: seq<Node>, ghost C: set<Con>)
    requires (forall i, j :: 0 <= i < j < |input| ==> input[i].v != input[j].v)
      && forall i :: 0 <= i < |input| ==> Sane(input[i].score)
    ensures C == {} && NoNaN(ScoresOf(input)) ==> InScoreOrder(vs, ScoresOf(input))
    ensures forall c :: c in C <==> c in cg && IsInput(input, c.v) && IsInput(input, c.w)
    ensures Consistent(C) <==> multiset(vs) == multiset(NodesOf(input))
    ensures Consistent(C) && Numeric(ScoresOf(input)) ==> CanComeOut(C, MarksOf(ScoresOf(input)), vs)
    ensures Branchless(C) && Consistent(C) && Numeric(ScoresOf(input)) ==> KeepsAll(C, vs)
  {
    var entries;
    entries, C := ResolveConflicts(input, cg);
    ghost var out, lost, U, S;
    vs, out, lost, U, S := Sort(entries, biasRight);
    AllOrSomeKept(input, entries, C, out, lost, U, S);
    if C == {} && NoNaN(ScoresOf(input)) {
      assert Agrees(C, map[]);
      SinglesAreNumbers(entries, ScoresOf(input), S, U, out);
      ChosenInOrder(out, ScoresOf(input), biasRight);
    }
    if Consistent(C) && Numeric(ScoresOf(input)) {
      GroupsComeOut(C, MarksOf(ScoresOf(input)), entries, out, biasRight);
      if Branchless(C) { LayerKeepsAll(input, C, vs); }
    }
  }

  lemma LayerKeepsAll(input: seq<Input>, C: set<Con>, vs: seq<Node>)
    requires (forall i, j :: 0 <= i < j < |input| ==> input[i].v != input[j].v) && Numeric(ScoresOf(input))
      && Branchless(C)
    requires forall c :: c in C ==> IsInput(input, c.v) && IsInput(input, c.w)
    requires CanComeOut(C, MarksOf(ScoresOf(input)), vs)
    ensures KeepsAll(C, vs)
  {
    var marks := MarksOf(ScoresOf(input));
    forall i | 0 <= i < |input| ensures input[i].v in marks { ScoresOfAt(input, i); }
    var D, H :| ComesOut(C, marks, D, H, vs);
    ConstraintOrder.BranchlessIsKept(C, marks, D, H, vs);
  }

  lemma AllOrSomeKept(input: seq<Input>, entries: seq<Entry>, C: set<Con>, out: seq<Entry>, lost: seq<Entry>,
                      U: seq<Entry>, S: seq<Entry>)
    requires (forall i, j :: 0 <= i < j < |input| ==> input[i].v != input[j].v) && Resolved(input, entries)
    requires Consistent(C) <==> forall i :: 0 <= i < |input| ==> input[i].v in AllVs(entries)
    requires multiset(out) + multiset(lost) == multiset(entries) && multiset(entries) == multiset(S) + multiset(U)
    requires Descending(U) && (forall e :: e in U ==> !Sortable(e)) && (lost == [] <==> FitIn(U, |AllVs(S)|))
    ensures Consistent(C) <==> multiset(AllVs(out)) == multiset(NodesOf(input))
    ensures Consistent(C) ==> multiset(out) == multiset(entries)
  {
    assert multiset(out + lost) == multiset(entries);
    SameEntriesSameVs(entries, out + lost);
    AllVsJoin(out, lost);
    if Consistent(C) {
      AllNodesKept(input, entries);
      ResolvedFits(input, entries, S, U);
      assert out + lost == out;
    } else {
      var i :| 0 <= i < |input| && input[i].v !in AllVs(entries);
      assert input[i].v !in multiset(AllVs(entries));
      assert input[i].v !in multiset(AllVs(out)) && NodesOf(input)[i] in multiset(NodesOf(input));
    }
  }

  lemma {:induction false} ScoresOfKeys(input: seq<Input>, x: Node)
    requires x in ScoresOf(input)
    ensures exists i :: 0 <= i < |input| && input[i].v == x && input[i].score == ScoresOf(input)[x]
    decreases |input|
  {
    var k := |input| - 1;
    if input[k].v != x {
      ScoresOfKeys(input[..k], x);
      var i :| 0 <= i < k && input[..k][i].v == x && input[..k][i].score == ScoresOf(input[..k])[x];
      assert input[i].v == x && input[i].score == ScoresOf(input)[x];
    } else {
      assert input[k].score == ScoresOf(input)[x];
    }
  }
}
