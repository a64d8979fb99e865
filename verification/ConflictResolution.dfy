/** Entries of a layer that must keep an order given by constraints are merged where their barycenters disagree. */
module ConflictResolution {
  import opened Graphs
  import opened Sums
  import opened ConstraintRuns

  /** A quotient of JavaScript numbers: 0 / 0 is not a number, and compares with nothing. */
  datatype Bary = Num(r: real) | NaN

  function Divide(sum: Bary, weight: real): Bary {
    if sum.NaN? || weight == 0.0 then NaN else Num(sum.r / weight)
  }

  function PlusTimes(sum: Bary, b: Bary, weight: real): Bary {
    if sum.NaN? || b.NaN? then NaN else Num(sum.r + b.r * weight)
  }

  datatype Score = Score(barycenter: Bary, weight: real)

  /** What barycenter hands over for a node, and what resolveConflicts hands back. */
  datatype Entry = Entry(vs: seq<Node>, i: nat, score: Option<Score>)

  /** The record of one node while conflicts are resolved. */
  datatype Rec = Rec(indegree: nat, ins: seq<Node>, outs: seq<Node>, vs: seq<Node>, i: nat, score: Option<Score>,
                     merged: bool)

  type Recs = map<Node, Rec>

  // ----- the queue of nodes without open constraints -----

  ghost function OpenInto(C: set<Con>, done: set<Con>, w: Node): set<Con> {
    set c | c in C && c !in done && c.w == w
  }

  /** Q holds the nodes whose constraints are all done, D the nodes taken from it so far, in order. */
  ghost predicate Queue(C: set<Con>, recs: Recs, Q: seq<Node>, D: seq<Node>, done: set<Con>) {
    && (forall c :: c in C ==> c.v in recs && c.w in recs) && done <= C
    && NoRepeats(Q) && NoRepeats(D) && (forall v :: v in Q ==> v !in D)
    && (forall v :: v in Q || v in D ==> v in recs)
    && (forall w {:trigger Counted(C, recs, Q, D, done, w)} :: w in recs ==> Counted(C, recs, Q, D, done, w))
    && (forall c :: c in done ==> c.v in D)
    && (forall c, j :: c in C && 0 <= j < |D| && D[j] == c.w ==> c.v in D[..j])
  }

  ghost predicate Counted(C: set<Con>, recs: Recs, Q: seq<Node>, D: seq<Node>, done: set<Con>, w: Node)
    requires w in recs
  {
    && recs[w].indegree == |OpenInto(C, done, w)| && (recs[w].indegree == 0 <==> w in Q || w in D)
    && (forall u :: u in recs[w].ins ==> u in D && u in recs && Con(u, w) in C)
    && (forall u :: u in recs[w].outs <==> Con(w, u) in C) && NoRepeats(recs[w].outs)
  }

  ghost predicate SameLinks(recs: Recs, recs': Recs) {
    && (forall v :: v in recs <==> v in recs')
    && forall v :: v in recs ==>
      recs'[v].indegree == recs[v].indegree && recs'[v].ins == recs[v].ins && recs'[v].outs == recs[v].outs
  }

  lemma LinksKeepQueue(C: set<Con>, recs: Recs, Q: seq<Node>, D: seq<Node>, done: set<Con>, recs': Recs)
    requires Queue(C, recs, Q, D, done) && SameLinks(recs, recs')
    ensures Queue(C, recs', Q, D, done)
  {
    forall w | w in recs' ensures Counted(C, recs', Q, D, done, w) {
      assert Counted(C, recs, Q, D, done, w);
    }
  }

  lemma TakeFromQueue(C: set<Con>, recs: Recs, Q: seq<Node>, D: seq<Node>, done: set<Con>, v: Node, Q': seq<Node>,
                      D': seq<Node>)
    requires Queue(C, recs, Q, D, done) && Q != [] && v == Q[|Q| - 1] && Q' == Q[..|Q| - 1] && D' == D + [v]
    ensures Queue(C, recs, Q', D', done) && v in recs && v !in D && v !in Q'
    ensures forall u :: u in recs[v].ins ==> u in D && u != v
  {
    assert v in Q && Counted(C, recs, Q, D, done, v);
    assert forall u :: u in Q <==> u in Q' || u == v;
    assert forall u :: u in D' <==> u in D || u == v;
    forall w | w in recs ensures Counted(C, recs, Q', D', done, w) {
      assert Counted(C, recs, Q, D, done, w);
    }
    forall c, j | c in C && 0 <= j < |D'| && D'[j] == c.w ensures c.v in D'[..j] {
      if j == |D| {
        assert c !in OpenInto(C, done, v);
        assert D'[..j] == D;
      } else {
        assert D'[..j] == D[..j];
      }
    }
  }

  function WithIn(r: Rec, v: Node): Rec
    requires r.indegree > 0
  {
    r.(ins := r.ins + [v], indegree := r.indegree - 1)
  }

  /** The constraint from v to w is done. */
  lemma DoConstraint(C: set<Con>, recs: Recs, Q: seq<Node>, D: seq<Node>, done: set<Con>, v: Node, w: Node, recs': Recs,
                     Q': seq<Node>, done': set<Con>)
    requires Queue(C, recs, Q, D, done) && Con(v, w) in C && Con(v, w) !in done && v in D && done' == done + {Con(v, w)}
    requires recs[w].indegree > 0 && recs' == recs[w := WithIn(recs[w], v)]
      && Q' == if recs'[w].indegree == 0 then Q + [w] else Q
    ensures Queue(C, recs', Q', D, done')
  {
    assert forall u :: u in Q' <==> u in Q || (u == w && recs'[w].indegree == 0);
    assert Counted(C, recs, Q, D, done, w);
    forall u | u in recs' ensures Counted(C, recs', Q', D, done', u) {
      assert Counted(C, recs, Q, D, done, u);
      CountedAfter(C, recs, Q, D, done, v, w, recs', Q', done', u);
    }
  }

  lemma CountedAfter(C: set<Con>, recs: Recs, Q: seq<Node>, D: seq<Node>, done: set<Con>, v: Node, w: Node, recs': Recs,
                     Q': seq<Node>, done': set<Con>, u: Node)
    requires w in recs && u in recs && v in recs && Counted(C, recs, Q, D, done, u) && Con(v, w) in C
      && Con(v, w) !in done && v in D && done' == done + {Con(v, w)}
    requires recs[w].indegree > 0 && recs' == recs[w := WithIn(recs[w], v)]
    requires forall x :: x in Q' <==> x in Q || (x == w && recs'[w].indegree == 0)
    ensures Counted(C, recs', Q', D, done', u)
  {
    if u == w {
      assert OpenInto(C, done, w) == OpenInto(C, done', w) + {Con(v, w)} && Con(v, w) !in OpenInto(C, done', w);
      assert forall x :: x in recs'[w].ins ==> x in recs[w].ins || x == v;
    } else {
      assert OpenInto(C, done', u) == OpenInto(C, done, u);
    }
  }

  lemma HasOpen(C: set<Con>, recs: Recs, Q: seq<Node>, D: seq<Node>, done: set<Con>, c: Con)
    requires Queue(C, recs, Q, D, done) && c in C && c !in done
    ensures recs[c.w].indegree > 0 && c.w !in Q && c.w !in D
  {
    assert Counted(C, recs, Q, D, done, c.w);
    assert c in OpenInto(C, done, c.w);
  }

  // ----- when all nodes are taken -----

  /** When the queue runs dry, all nodes have been taken exactly if the constraints are consistent. */
  lemma DryQueue(C: set<Con>, recs: Recs, D: seq<Node>, done: set<Con>)
    requires Queue(C, recs, [], D, done) && forall c :: c in C && c.v in D ==> c in done
    ensures Consistent(C) <==> forall x :: x in recs ==> x in D
  {
    if forall x :: x in recs ==> x in D {
      var place := map x | x in recs :: PlaceIn(D, x);
      forall c | c in C ensures place[c.v] < place[c.w] {
        var j := PlaceIn(D, c.w);
        assert c.w in D && D[j] == c.w && c.v in D[..j];
        assert PlaceIn(D, c.v) < j by {
          var k :| 0 <= k < j && D[..j][k] == c.v;
          assert D[k] == c.v;
        }
      }
      assert Agrees(C, place);
    } else if Consistent(C) {
      var place :| Agrees(C, place);
      var x0 :| x0 in recs && x0 !in D;
      var S := set x | x in recs && x !in D;
      var c0 := OpenPredecessor(C, recs, D, done, x0);
      var T := S * place.Keys;
      assert x0 in T;
      var x := Earliest(T, place);
      var c := OpenPredecessor(C, recs, D, done, x);
    }
  }

  lemma OpenPredecessor(C: set<Con>, recs: Recs, D: seq<Node>, done: set<Con>, x: Node) returns (c: Con)
    requires Queue(C, recs, [], D, done) && (forall c :: c in C && c.v in D ==> c in done) && x in recs && x !in D
    ensures c in C && c.w == x && c.v in recs && c.v !in D
  {
    assert Counted(C, recs, [], D, done, x);
    c :| c in OpenInto(C, done, x);
  }

  // ----- who holds which node -----

  /** owner tells for every node which record lists it; index is its place in the input. */
  ghost predicate Owned(recs: Recs, owner: map<Node, Node>, index: map<Node, nat>, D: seq<Node>) {
    Named(recs, owner, index) && AllHeld(recs, owner, index) && AllList(recs, owner, index) && AllAlone(recs, D)
  }

  ghost predicate AllHeld(recs: Recs, owner: map<Node, Node>, index: map<Node, nat>)
    requires Named(recs, owner, index)
  {
    forall x {:trigger HeldBy(recs, owner, x)} :: x in recs ==> HeldBy(recs, owner, x)
  }

  ghost predicate AllList(recs: Recs, owner: map<Node, Node>, index: map<Node, nat>)
    requires Named(recs, owner, index)
  {
    forall k {:trigger Lists(recs, owner, index, k)} :: k in recs && !recs[k].merged ==> Lists(recs, owner, index, k)
  }

  /** What has not been taken yet is a record of its own. */
  ghost predicate AllAlone(recs: Recs, D: seq<Node>) {
    forall k {:trigger Alone(recs, k)} :: k in recs && k !in D ==> Alone(recs, k)
  }

  ghost predicate Named(recs: Recs, owner: map<Node, Node>, index: map<Node, nat>) {
    forall x :: x in recs ==> x in owner && x in index
  }

  ghost predicate HeldBy(recs: Recs, owner: map<Node, Node>, x: Node)
    requires x in owner
  {
    owner[x] in recs && !recs[owner[x]].merged && x in recs[owner[x]].vs
  }

  ghost predicate Alone(recs: Recs, k: Node)
    requires k in recs
  {
    !recs[k].merged && recs[k].vs == [k]
  }

  ghost predicate Lists(recs: Recs, owner: map<Node, Node>, index: map<Node, nat>, k: Node)
    requires k in recs && Named(recs, owner, index)
  {
    && NoRepeats(recs[k].vs) && (forall x :: x in recs[k].vs ==> x in recs && owner[x] == k)
    && (recs[k].score.None? ==> |recs[k].vs| == 1)
    && (exists x :: x in recs[k].vs && x in index && recs[k].i == index[x])
  }

  /** A score of weight 0 adds nothing, even if its barycenter is no number. */
  function AddPull(sum: Bary, score: Option<Score>): Bary {
    if score.Some? && score.value.weight != 0.0 then PlusTimes(sum, score.value.barycenter, score.value.weight) else sum
  }

  /** Both records' nodes, the source's first, with the mean of the barycenters. */
  function Merged(target: Rec, source: Rec): Rec {
    var sum := AddPull(AddPull(Num(0.0), target.score), source.score);
    var weight := (if target.score.Some? then target.score.value.weight else 0.0)
      + (if source.score.Some? then source.score.value.weight else 0.0);
    target.(vs := source.vs + target.vs, score := Some(Score(Divide(sum, weight), weight)),
            i := MinInt(source.i, target.i))
  }

  // ----- the score of a record -----

  type Scores = map<Node, Option<Score>>

  ghost function WeightOf(s: Option<Score>): real {
    if s.Some? then s.value.weight else 0.0
  }

  ghost function PullOf(s: Option<Score>): real {
    if s.Some? && s.value.barycenter.Num? then s.value.barycenter.r * s.value.weight else 0.0
  }

  ghost function WeightSum(vs: seq<Node>, sc: Scores): real {
    if vs == [] then 0.0 else
      WeightSum(vs[..|vs| - 1], sc) + if vs[|vs| - 1] in sc then WeightOf(sc[vs[|vs| - 1]]) else 0.0
  }

  ghost function PullSum(vs: seq<Node>, sc: Scores): real {
    if vs == [] then 0.0 else PullSum(vs[..|vs| - 1], sc) + if vs[|vs| - 1] in sc then PullOf(sc[vs[|vs| - 1]]) else 0.0
  }

  /** Weights are not negative, and without weight a barycenter is no number. */
  ghost predicate Sane(s: Option<Score>) {
    s.Some? ==> s.value.weight >= 0.0 && (s.value.barycenter.Num? <==> s.value.weight > 0.0)
  }

  /** The score is the weighted mean over the nodes, by the scores they came with. */
  ghost predicate IsMean(vs: seq<Node>, score: Option<Score>, sc: Scores) {
    var W, P := WeightSum(vs, sc), PullSum(vs, sc);
    && W >= 0.0 && (W == 0.0 ==> P == 0.0)
    && (if score.None? then W == 0.0 else score.value == Score(Divide(Num(P), W), W))
  }

  ghost predicate AllScored(recs: Recs, sc: Scores) {
    forall k {:trigger recs[k]} :: k in recs && !recs[k].merged ==> IsMean(recs[k].vs, recs[k].score, sc)
  }

  lemma {:induction false} SumsJoin(a: seq<Node>, b: seq<Node>, sc: Scores)
    ensures WeightSum(a + b, sc) == WeightSum(a, sc) + WeightSum(b, sc)
    ensures PullSum(a + b, sc) == PullSum(a, sc) + PullSum(b, sc)
    decreases |b|
  {
    if b == [] {
      assert a + b == a;
    } else {
      SumsJoin(a, b[..|b| - 1], sc);
      assert (a + b)[..|a + b| - 1] == a + b[..|b| - 1];
    }
  }

  lemma QuotientTimes(p: real, w: real)
    requires w != 0.0
    ensures (p / w) * w == p
  {
  }

  /** Merging gives the mean over the nodes of both. */
  lemma MergedIsMean(target: Rec, source: Rec, sc: Scores)
    requires IsMean(target.vs, target.score, sc) && IsMean(source.vs, source.score, sc)
    ensures IsMean(Merged(target, source).vs, Merged(target, source).score, sc)
  {
    SumsJoin(source.vs, target.vs, sc);
    var Pt, Wt := PullSum(target.vs, sc), WeightSum(target.vs, sc);
    var Ps, Ws := PullSum(source.vs, sc), WeightSum(source.vs, sc);
    AddMean(Num(0.0), target.score, Pt, Wt);
    AddMean(Num(0.0 + Pt), source.score, Ps, Ws);
    assert Merged(target, source).score == Some(Score(Divide(Num(0.0 + Pt + Ps), Wt + Ws), Wt + Ws));
  }

  /** A record's pull, recovered from its mean, is added to a sum. */
  lemma AddMean(sum: Bary, score: Option<Score>, P: real, W: real)
    requires sum.Num? && (W == 0.0 ==> P == 0.0)
      && if score.None? then W == 0.0 else score.value == Score(Divide(Num(P), W), W)
    ensures AddPull(sum, score) == Num(sum.r + P) && (if score.Some? then score.value.weight else 0.0) == W
  {
    if W != 0.0 { QuotientTimes(P, W); }
  }

  ghost function Reowned(owner: map<Node, Node>, target: Node, source: Node): map<Node, Node> {
    map x | x in owner :: if owner[x] == source then target else owner[x]
  }

  lemma MergedLists(recs: Recs, owner: map<Node, Node>, index: map<Node, nat>, target: Node, source: Node, recs': Recs,
                    owner': map<Node, Node>)
    requires target in recs && source in recs && target != source && Named(recs, owner, index)
    requires Lists(recs, owner, index, target) && Lists(recs, owner, index, source)
    requires recs' == recs[target := Merged(recs[target], recs[source])][source := recs[source].(merged := true)]
    requires owner' == Reowned(owner, target, source)
    ensures Named(recs', owner', index) && target in recs' && Lists(recs', owner', index, target)
  {
    JoinDistinct(recs[source].vs, recs[target].vs);
    var x :| x in recs[source].vs && x in index && recs[source].i == index[x];
    var y :| y in recs[target].vs && y in index && recs[target].i == index[y];
    assert recs'[target].i == index[x] || recs'[target].i == index[y];
  }

  lemma ListsStill(recs: Recs, owner: map<Node, Node>, index: map<Node, nat>, k: Node, target: Node, source: Node,
                   recs': Recs, owner': map<Node, Node>)
    requires k in recs && k in recs' && Named(recs, owner, index) && Named(recs', owner', index)
      && forall x :: x in recs ==> x in recs'
    requires Lists(recs, owner, index, k) && recs'[k] == recs[k] && k != target && k != source
      && owner' == Reowned(owner, target, source)
    ensures Lists(recs', owner', index, k)
  {
  }

  /** recs' has target merged with source. */
  ghost predicate IsMerge(recs: Recs, owner: map<Node, Node>, target: Node, source: Node, recs': Recs,
                          owner': map<Node, Node>) {
    && target in recs && source in recs && target != source && !recs[target].merged && !recs[source].merged
    && recs' == recs[target := Merged(recs[target], recs[source])][source := recs[source].(merged := true)]
    && owner' == Reowned(owner, target, source)
  }

  lemma ListsAfter(recs: Recs, owner: map<Node, Node>, index: map<Node, nat>, target: Node, source: Node, recs': Recs,
                   owner': map<Node, Node>, k: Node)
    requires Named(recs, owner, index) && IsMerge(recs, owner, target, source, recs', owner')
    requires Lists(recs, owner, index, target) && Lists(recs, owner, index, source)
    requires k in recs && k != source && Lists(recs, owner, index, k)
    ensures Named(recs', owner', index) && k in recs' && Lists(recs', owner', index, k)
  {
    if k == target {
      MergedLists(recs, owner, index, target, source, recs', owner');
    } else {
      ListsStill(recs, owner, index, k, target, source, recs', owner');
    }
  }

  lemma HeldAfter(recs: Recs, owner: map<Node, Node>, target: Node, source: Node, recs': Recs, owner': map<Node, Node>,
                  x: Node)
    requires IsMerge(recs, owner, target, source, recs', owner') && x in owner && HeldBy(recs, owner, x)
    ensures x in owner' && HeldBy(recs', owner', x)
  {
  }

  lemma MergeKeepsKeys(recs: Recs, owner: map<Node, Node>, index: map<Node, nat>, target: Node, source: Node,
                       recs': Recs, owner': map<Node, Node>)
    requires IsMerge(recs, owner, target, source, recs', owner') && Named(recs, owner, index)
    ensures Named(recs', owner', index) && SameLinks(recs, recs') && recs'[source].merged && !recs'[target].merged
    ensures forall k :: k in recs && k != target && k != source ==> recs'[k] == recs[k]
  {
  }

  lemma FromOwned(recs: Recs, owner: map<Node, Node>, index: map<Node, nat>, D: seq<Node>, k: Node)
    requires Owned(recs, owner, index, D) && k in recs && !recs[k].merged
    ensures Lists(recs, owner, index, k)
  {
  }

  lemma WasUnmerged(recs: Recs, owner: map<Node, Node>, target: Node, source: Node, recs': Recs,
                    owner': map<Node, Node>, k: Node)
    requires IsMerge(recs, owner, target, source, recs', owner') && k in recs' && !recs'[k].merged
    ensures k in recs && k != source && !recs[k].merged
  {
  }

  lemma MergeKeepsHeld(recs: Recs, owner: map<Node, Node>, index: map<Node, nat>, target: Node, source: Node,
                       recs': Recs, owner': map<Node, Node>)
    requires Named(recs, owner, index) && Named(recs', owner', index) && AllHeld(recs, owner, index)
      && IsMerge(recs, owner, target, source, recs', owner')
    ensures AllHeld(recs', owner', index)
  {
    forall x | x in recs' ensures HeldBy(recs', owner', x) {
      assert HeldBy(recs, owner, x);
      HeldAfter(recs, owner, target, source, recs', owner', x);
    }
  }

  lemma MergeKeepsLists(recs: Recs, owner: map<Node, Node>, index: map<Node, nat>, D: seq<Node>, target: Node,
                        source: Node, recs': Recs, owner': map<Node, Node>)
    requires Owned(recs, owner, index, D) && Named(recs', owner', index)
      && IsMerge(recs, owner, target, source, recs', owner')
    ensures AllList(recs', owner', index)
  {
    forall k | k in recs' && !recs'[k].merged ensures Lists(recs', owner', index, k) {
      WasUnmerged(recs, owner, target, source, recs', owner', k);
      FromOwned(recs, owner, index, D, k);
      FromOwned(recs, owner, index, D, target);
      FromOwned(recs, owner, index, D, source);
      ListsAfter(recs, owner, index, target, source, recs', owner', k);
    }
  }

  lemma MergeKeepsAlone(recs: Recs, owner: map<Node, Node>, D: seq<Node>, target: Node, source: Node, recs': Recs,
                        owner': map<Node, Node>)
    requires AllAlone(recs, D) && target in D && source in D && IsMerge(recs, owner, target, source, recs', owner')
    ensures AllAlone(recs', D)
  {
    forall k | k in recs' && k !in D ensures Alone(recs', k) { assert Alone(recs, k); }
  }

  lemma MergeKeepsOwned(recs: Recs, owner: map<Node, Node>, index: map<Node, nat>, D: seq<Node>, target: Node,
                        source: Node, recs': Recs, owner': map<Node, Node>)
    requires Owned(recs, owner, index, D) && target in D && source in D
      && IsMerge(recs, owner, target, source, recs', owner')
    ensures Owned(recs', owner', index, D) && SameLinks(recs, recs')
  {
    MergeKeepsKeys(recs, owner, index, target, source, recs', owner');
    MergeKeepsHeld(recs, owner, index, target, source, recs', owner');
    MergeKeepsLists(recs, owner, index, D, target, source, recs', owner');
    MergeKeepsAlone(recs, owner, D, target, source, recs', owner');
  }

  ghost predicate SameContents(recs: Recs, recs': Recs) {
    && (forall v :: v in recs <==> v in recs')
    && forall v :: v in recs ==>
      recs'[v].vs == recs[v].vs && recs'[v].i == recs[v].i && recs'[v].score == recs[v].score
        && recs'[v].merged == recs[v].merged
  }

  lemma ListsSame(recs: Recs, owner: map<Node, Node>, index: map<Node, nat>, recs': Recs, k: Node)
    requires k in recs && Named(recs, owner, index) && SameContents(recs, recs') && Lists(recs, owner, index, k)
    ensures Lists(recs', owner, index, k)
  {
  }

  lemma ContentsKeepLists(recs: Recs, owner: map<Node, Node>, index: map<Node, nat>, recs': Recs)
    requires Named(recs, owner, index) && Named(recs', owner, index) && AllList(recs, owner, index)
      && SameContents(recs, recs')
    ensures AllList(recs', owner, index)
  {
    forall k | k in recs' && !recs'[k].merged ensures Lists(recs', owner, index, k) {
      ListsSame(recs, owner, index, recs', k);
    }
  }

  lemma ContentsKeepHeld(recs: Recs, owner: map<Node, Node>, index: map<Node, nat>, recs': Recs)
    requires Named(recs, owner, index) && Named(recs', owner, index) && AllHeld(recs, owner, index)
      && SameContents(recs, recs')
    ensures AllHeld(recs', owner, index)
  {
    forall x | x in recs' ensures HeldBy(recs', owner, x) { assert HeldBy(recs, owner, x); }
  }

  lemma ContentsKeepAlone(recs: Recs, D: seq<Node>, recs': Recs)
    requires AllAlone(recs, D) && SameContents(recs, recs')
    ensures AllAlone(recs', D)
  {
    forall k | k in recs' && k !in D ensures Alone(recs', k) { assert Alone(recs, k); }
  }

  lemma ContentsKeepOwned(recs: Recs, owner: map<Node, Node>, index: map<Node, nat>, D: seq<Node>, recs': Recs)
    requires Owned(recs, owner, index, D) && SameContents(recs, recs')
    ensures Owned(recs', owner, index, D)
  {
    ContentsKeepLists(recs, owner, index, recs');
    ContentsKeepHeld(recs, owner, index, recs');
    ContentsKeepAlone(recs, D, recs');
  }

  // ----- the result -----

  function AllVs(entries: seq<Entry>): seq<Node> {
    if entries == [] then [] else AllVs(entries[..|entries| - 1]) + entries[|entries| - 1].vs
  }

  /** The entries of the records in D that have not been merged into others. */
  function Unmerged(recs: Recs, D: seq<Node>, n: nat): seq<Entry>
    requires n <= |D| && forall v :: v in D ==> v in recs
  {
    if n == 0 then []
    else
      var before, r := Unmerged(recs, D, n - 1), recs[D[n - 1]];
      if r.merged then before else before + [Entry(r.vs, r.i, r.score)]
  }

  lemma {:induction false} UnmergedVs(recs: Recs, owner: map<Node, Node>, index: map<Node, nat>, D: seq<Node>, n: nat)
    requires Owned(recs, owner, index, D) && n <= |D| && NoRepeats(D) && forall v :: v in D ==> v in recs
    ensures NoRepeats(AllVs(Unmerged(recs, D, n)))
    ensures forall x :: x in AllVs(Unmerged(recs, D, n)) <==> x in recs && owner[x] in D[..n]
    decreases n
  {
    if n > 0 {
      UnmergedVs(recs, owner, index, D, n - 1);
      var before, k := Unmerged(recs, D, n - 1), D[n - 1];
      assert D[..n] == D[..n - 1] + [k] && k !in D[..n - 1];
      if recs[k].merged {
        forall x | x in recs ensures owner[x] != k { assert HeldBy(recs, owner, x); }
      } else {
        var e := Entry(recs[k].vs, recs[k].i, recs[k].score);
        assert (before + [e])[..|before|] == before;
        assert Lists(recs, owner, index, k);
        forall x | x in recs && owner[x] == k ensures x in recs[k].vs { assert HeldBy(recs, owner, x); }
        JoinDistinct(AllVs(before), recs[k].vs);
      }
    }
  }

  lemma JoinDistinct(a: seq<Node>, b: seq<Node>)
    requires NoRepeats(a) && NoRepeats(b) && forall x :: x in a ==> x !in b
    ensures NoRepeats(a + b) && forall x :: x in a + b <==> x in a || x in b
  {
    forall i, j | 0 <= i < j < |a + b| ensures (a + b)[i] != (a + b)[j] {
      if i < |a| <= j { assert (a + b)[i] in a && (a + b)[j] in b; }
    }
  }

  /** Entries are known by the place of one of their nodes in the input; those without a score are single. */
  ghost predicate Identified(entries: seq<Entry>, index: map<Node, nat>) {
    forall j {:trigger entries[j]} :: 0 <= j < |entries| ==>
      (entries[j].score.None? ==> |entries[j].vs| == 1)
        && exists x :: x in entries[j].vs && x in index && entries[j].i == index[x]
  }

  lemma {:induction false} UnmergedIdentified(recs: Recs, owner: map<Node, Node>, index: map<Node, nat>, D: seq<Node>,
                                              n: nat)
    requires Owned(recs, owner, index, D) && n <= |D| && forall v :: v in D ==> v in recs
    ensures Identified(Unmerged(recs, D, n), index)
    decreases n
  {
    if n > 0 {
      UnmergedIdentified(recs, owner, index, D, n - 1);
      if !recs[D[n - 1]].merged { FromOwned(recs, owner, index, D, D[n - 1]); }
    }
  }

  lemma {:induction false} InAllVs(entries: seq<Entry>, j: nat, x: Node)
    requires j < |entries| && x in entries[j].vs
    ensures x in AllVs(entries)
    decreases |entries|
  {
    if j < |entries| - 1 { InAllVs(entries[..|entries| - 1], j, x); }
  }

  lemma {:induction false} DifferentPlaces(entries: seq<Entry>, index: map<Node, nat>, j: nat, k: nat)
    requires NoRepeats(AllVs(entries)) && Identified(entries, index) && j < k < |entries|
    requires forall x, y :: x in index && y in index && index[x] == index[y] ==> x == y
    ensures entries[j].i != entries[k].i
    decreases |entries|
  {
    var before, last := entries[..|entries| - 1], entries[|entries| - 1];
    var a, b := AllVs(before), last.vs;
    forall p, q | 0 <= p < q < |a| ensures a[p] != a[q] { assert (a + b)[p] == a[p] && (a + b)[q] == a[q]; }
    if k < |entries| - 1 {
      forall m | 0 <= m < |before| ensures before[m] == entries[m] {}
      DifferentPlaces(before, index, j, k);
    } else {
      var x :| x in entries[j].vs && x in index && entries[j].i == index[x];
      var y :| y in entries[k].vs && y in index && entries[k].i == index[y];
      InAllVs(before, j, x);
      var p :| 0 <= p < |a| && a[p] == x;
      var q :| 0 <= q < |b| && b[q] == y;
      assert (a + b)[p] == x && (a + b)[|a| + q] == y;
    }
  }

  // ----- the program -----

  /** What barycenter says of one movable node. */
  datatype Input = Input(v: Node, score: Option<Score>)

  predicate OutOfOrder(u: Option<Score>, v: Option<Score>) {
    u.None? || v.None?
      || (u.value.barycenter.Num? && v.value.barycenter.Num? && u.value.barycenter.r >= v.value.barycenter.r)
  }

  /** u is merged into v if it is not merged yet and not surely left of it. */
  ghost function AbsorbOne(recs: Recs, v: Node, u: Node): Recs {
    if u in recs && v in recs && !recs[u].merged && OutOfOrder(recs[u].score, recs[v].score)
    then recs[v := Merged(recs[v], recs[u])][u := recs[u].(merged := true)]
    else recs
  }

  /** The members of ins from place n on have been looked at, last first. */
  ghost function Absorb(recs: Recs, v: Node, ins: seq<Node>, n: nat): Recs
    requires n <= |ins|
    decreases |ins| - n
  {
    if n == |ins| then recs else AbsorbOne(Absorb(recs, v, ins, n + 1), v, ins[n])
  }

  // ----- the groups that the records stand for -----

  ghost predicate Numeric(sc: Scores) {
    forall x :: x in sc ==> sc[x].Some? && sc[x].value.barycenter.Num? && sc[x].value.weight > 0.0
  }

  ghost function MarksOf(sc: Scores): Marks {
    map x | x in sc ::
      if sc[x].Some? && sc[x].value.barycenter.Num? then Mark(sc[x].value.barycenter.r, sc[x].value.weight)
        else Mark(0.0, 0.0)
  }

  ghost predicate MatchesAt(recs: Recs, g: Grouping, k: Node) {
    && k in recs && k in g.head && k in g.group && (recs[k].merged <==> g.head[k] != k)
    && (!recs[k].merged ==>
        && recs[k].vs == g.group[k].vs && g.group[k].weight > 0.0
        && recs[k].score == Some(Score(Num(g.group[k].mean), g.group[k].weight)))
  }

  /** A record that is not merged is the group of a head. */
  ghost predicate Matches(recs: Recs, g: Grouping) {
    && recs.Keys == g.head.Keys
    && forall k {:trigger MatchesAt(recs, g, k)} :: k in recs ==> MatchesAt(recs, g, k)
  }

  lemma MergedIsJoined(target: Rec, source: Rec, a: Group, b: Group)
    requires target.score == Some(Score(Num(a.mean), a.weight)) && source.score == Some(Score(Num(b.mean), b.weight))
    requires a.weight > 0.0 && b.weight > 0.0 && target.vs == a.vs && source.vs == b.vs
    requires Divide(Num(a.mean * a.weight), a.weight) == Num(a.mean)
      && Divide(Num(b.mean * b.weight), b.weight) == Num(b.mean)
    ensures Merged(target, source).vs == Joined(a, b).vs && Joined(a, b).weight > 0.0
    ensures Merged(target, source).score == Some(Score(Num(Joined(a, b).mean), Joined(a, b).weight))
  {
    var w := a.weight + b.weight;
    AddMean(Num(0.0), target.score, a.mean * a.weight, a.weight);
    AddMean(Num(0.0 + a.mean * a.weight), source.score, b.mean * b.weight, b.weight);
    assert Divide(Num(0.0 + a.mean * a.weight + b.mean * b.weight), w) == Num(Mean(a, b));
  }

  lemma AbsorbOneMatches(recs: Recs, g: Grouping, v: Node, u: Node)
    requires Matches(recs, g) && v in recs && u in recs && !recs[v].merged && u != v
    ensures Matches(AbsorbOne(recs, v, u), TakeIn(g, v, u)) && v in AbsorbOne(recs, v, u)
      && !AbsorbOne(recs, v, u)[v].merged
    ensures AbsorbOne(recs, v, u).Keys == recs.Keys
  {
    var recs', g' := AbsorbOne(recs, v, u), TakeIn(g, v, u);
    assert MatchesAt(recs, g, v) && MatchesAt(recs, g, u);
    assert Takes(g, v, u) <==> !recs[u].merged && OutOfOrder(recs[u].score, recs[v].score);
    if Takes(g, v, u) {
      QuotientOf(g.group[v].mean, g.group[v].weight);
      QuotientOf(g.group[u].mean, g.group[u].weight);
      MergedIsJoined(recs[v], recs[u], g.group[v], g.group[u]);
      forall k | k in recs' ensures MatchesAt(recs', g', k) { assert MatchesAt(recs, g, k); }
    }
  }

  lemma {:induction false} AbsorbMatches(recs: Recs, g: Grouping, v: Node, ins: seq<Node>, n: nat)
    requires n <= |ins| && Matches(recs, g) && v in recs && !recs[v].merged
      && forall u :: u in ins ==> u in recs && u != v
    ensures Matches(Absorb(recs, v, ins, n), TakeAll(g, v, ins, n)) && Absorb(recs, v, ins, n).Keys == recs.Keys
    ensures v in Absorb(recs, v, ins, n) && !Absorb(recs, v, ins, n)[v].merged
    decreases |ins| - n
  {
    if n < |ins| {
      AbsorbMatches(recs, g, v, ins, n + 1);
      assert ins[n] in ins;
      AbsorbOneMatches(Absorb(recs, v, ins, n + 1), TakeAll(g, v, ins, n + 1), v, ins[n]);
    }
  }

  lemma ContentsKeepMatch(recs: Recs, g: Grouping, recs': Recs)
    requires Matches(recs, g) && SameContents(recs, recs')
    ensures Matches(recs', g)
  {
    SameSet(recs.Keys, recs'.Keys);
    forall k | k in recs' ensures MatchesAt(recs', g, k) { assert MatchesAt(recs, g, k); }
  }

  ghost predicate ScoredBy(C: set<Con>, recs: Recs, sc: Scores) {
    && AllScored(recs, sc)
    && (C == {} ==> forall k :: k in recs ==> recs[k].vs == [k] && !recs[k].merged && k in sc && recs[k].score == sc[k])
  }

  /** The nodes D have been taken: the records are as a run over them says. */
  ghost predicate Follows(C: set<Con>, recs: Recs, D: seq<Node>, sc: Scores) {
    InsAreFound(C, recs, D) && (Numeric(sc) ==> Matches(recs, Run(C, Start(MarksOf(sc)), D)))
  }

  lemma FollowsOneMore(C: set<Con>, recs0: Recs, D: seq<Node>, sc: Scores, v: Node, recs1: Recs, recs2: Recs,
                       D': seq<Node>)
    requires Follows(C, recs0, D, sc) && v in recs0 && !recs0[v].merged && D' == D + [v]
    requires (forall u :: u in recs0[v].ins ==> u in recs0 && u != v) && recs1 == Absorb(recs0, v, recs0[v].ins, 0)
    requires recs1.Keys == recs0.Keys && SameContents(recs1, recs2)
    requires forall w :: w in recs1 ==> recs1[w].ins == recs0[w].ins
    requires forall w :: w in recs2 ==> recs2[w].ins == recs1[w].ins + if Con(v, w) in C then [v] else []
    ensures Follows(C, recs2, D', sc)
  {
    forall w | w in recs2 ensures recs2[w].ins == Preds(C, D', w) {
      OneMorePred(C, D, v, w);
      assert recs0[w].ins == Preds(C, D, w);
    }
    if Numeric(sc) {
      var g := Run(C, Start(MarksOf(sc)), D);
      RunOneMore(C, Start(MarksOf(sc)), D, v);
      assert recs0[v].ins == Preds(C, D, v);
      AbsorbMatches(recs0, g, v, recs0[v].ins, 0);
      ContentsKeepMatch(recs1, TakeAll(g, v, recs0[v].ins, 0), recs2);
    }
  }

  /** Every record lists what was found to its left, in the order in which the nodes were taken. */
  ghost predicate InsAreFound(C: set<Con>, recs: Recs, D: seq<Node>) {
    forall w {:trigger recs[w]} :: w in recs ==> recs[w].ins == Preds(C, D, w)
  }

  lemma OneMorePred(C: set<Con>, D: seq<Node>, v: Node, w: Node)
    ensures Preds(C, D + [v], w) == Preds(C, D, w) + if Con(v, w) in C then [v] else []
  {
    assert (D + [v])[..|D|] == D;
  }

  lemma RunOneMore(C: set<Con>, g: Grouping, D: seq<Node>, v: Node)
    ensures Run(C, g, D + [v]) == TakeAll(Run(C, g, D), v, Preds(C, D, v), 0)
  {
    assert (D + [v])[..|D|] == D;
  }

  // ----- the resolver -----

  /** The constraints from v to the first i of outs are done. */
  ghost predicate DoneFor(done0: set<Con>, v: Node, outs: seq<Node>, i: nat, done: set<Con>) {
    i <= |outs| && forall c :: c in done <==> c in done0 || (c.v == v && c.w in outs[..i])
  }

  /** Those have found v to their left. */
  ghost predicate FoundFor(recs0: Recs, v: Node, outs: seq<Node>, i: nat, recs: Recs) {
    i <= |outs| && recs.Keys == recs0.Keys
    && forall u :: u in recs ==> recs[u].ins == recs0[u].ins + if u in outs[..i] then [v] else []
  }

  lemma OneMoreFor(recs0: Recs, done0: set<Con>, v: Node, outs: seq<Node>, i: nat, recs1: Recs, done1: set<Con>,
                   recs2: Recs, done2: set<Con>)
    requires i < |outs| && outs[i] !in outs[..i] && DoneFor(done0, v, outs, i, done1)
      && FoundFor(recs0, v, outs, i, recs1)
    requires done2 == done1 + {Con(v, outs[i])} && recs2.Keys == recs1.Keys
    requires forall u :: u in recs2 ==> recs2[u].ins == recs1[u].ins + if u == outs[i] then [v] else []
    ensures DoneFor(done0, v, outs, i + 1, done2) && FoundFor(recs0, v, outs, i + 1, recs2)
  {
    assert outs[..i + 1] == outs[..i] + [outs[i]];
  }

  class Resolver {
    var recs: Recs
    var sourceSet: seq<Node>
    var entries: seq<Node>
    ghost var done: set<Con>
    ghost var owner: map<Node, Node>
    ghost const sc: Scores

    constructor (recs: Recs, sourceSet: seq<Node>, ghost owner: map<Node, Node>, ghost sc: Scores)
      ensures this.recs == recs && this.sourceSet == sourceSet && entries == [] && done == {} && this.owner == owner
        && this.sc == sc
    {
      this.recs, this.sourceSet, entries, done, this.owner, this.sc := recs, sourceSet, [], {}, owner, sc;
    }

    /** What the scores keep: they are means, and without constraints nothing is merged. */
    ghost predicate Scored(C: set<Con>)
      reads this
    {
      ScoredBy(C, recs, sc)
    }

    ghost predicate Valid(C: set<Con>, index: map<Node, nat>)
      reads this
    {
      Queue(C, recs, sourceSet, entries, done) && Owned(recs, owner, index, entries)
    }

    /** All of this, as it holds between two steps. Below it is equated with true, so that the verifier takes it whole
        and does not go through its parts one by one. */
    ghost predicate InHand(C: set<Con>, index: map<Node, nat>)
      reads this
    {
      Valid(C, index) && Scored(C) && Follows(C, recs, entries, sc)
    }

    method MergeEntries(target: Node, source: Node, ghost C: set<Con>, ghost index: map<Node, nat>)
      requires Valid(C, index) && target in entries && source in entries && target != source && target in recs
        && source in recs
      requires !recs[target].merged && !recs[source].merged
      modifies this`recs, this`owner
      ensures Valid(C, index) && recs.Keys == old(recs).Keys && !recs[target].merged
      ensures forall v :: v in recs ==> recs[v].ins == old(recs)[v].ins && recs[v].outs == old(recs)[v].outs
      ensures recs ==
        old(recs)[target := Merged(old(recs)[target], old(recs)[source])][source := old(recs)[source].(merged := true)]
    {
      ghost var recs0, owner0 := recs, owner;
      recs := recs[target := Merged(recs[target], recs[source])][source := recs[source].(merged := true)];
      owner := Reowned(owner, target, source);
      MergeKeepsOwned(recs0, owner0, index, entries, target, source, recs, owner);
      LinksKeepQueue(C, recs0, sourceSet, entries, done, recs);
    }

    /** Looks at the constraints into v, last found first. */
    method HandleIns(v: Node, ghost C: set<Con>, ghost index: map<Node, nat>)
      requires Valid(C, index) && v in recs && v in entries && !recs[v].merged
      requires forall u :: u in recs[v].ins ==> u in entries && u in recs && u != v
      modifies this`recs, this`owner
      ensures Valid(C, index) && recs.Keys == old(recs).Keys && recs == Absorb(old(recs), v, old(recs)[v].ins, 0)
      ensures forall w :: w in recs ==> recs[w].ins == old(recs)[w].ins && recs[w].outs == old(recs)[w].outs
    {
      var ins := recs[v].ins;
      ghost var recs0 := recs;
      var n := |ins|;
      while n > 0
        invariant 0 <= n <= |ins| && Valid(C, index) && recs.Keys == recs0.Keys && !recs[v].merged
          && recs == Absorb(recs0, v, ins, n)
        invariant forall w :: w in recs ==> recs[w].ins == recs0[w].ins && recs[w].outs == recs0[w].outs
      {
        n := n - 1;
        var u := ins[n];
        assert u in ins;
        if !recs[u].merged && OutOfOrder(recs[u].score, recs[v].score) {
          MergeEntries(v, u, C, index);
        }
      }
    }

    method HandleOut(v: Node, w: Node, ghost C: set<Con>, ghost index: map<Node, nat>)
      requires Valid(C, index) == true && Con(v, w) in C && Con(v, w) !in done && v in entries
      modifies this`recs, this`sourceSet, this`done
      ensures Valid(C, index) == true && done == old(done) + {Con(v, w)} && recs.Keys == old(recs).Keys
        && SameContents(old(recs), recs)
      ensures forall u :: u in recs ==> recs[u].outs == old(recs)[u].outs
      ensures forall u :: u in recs ==> recs[u].ins == old(recs)[u].ins + if u == w then [v] else []
    {
      HasOpen(C, recs, sourceSet, entries, done, Con(v, w));
      ghost var recs0, Q0, done0 := recs, sourceSet, done;
      recs := recs[w := WithIn(recs[w], v)];
      if recs[w].indegree == 0 { sourceSet := sourceSet + [w]; }
      done := done + {Con(v, w)};
      DoConstraint(C, recs0, Q0, entries, done0, v, w, recs, sourceSet, done);
      ContentsKeepOwned(recs0, owner, index, entries, recs);
    }

    method HandleOuts(v: Node, ghost C: set<Con>, ghost index: map<Node, nat>)
      requires Valid(C, index) && v in recs && v in entries && forall w :: Con(v, w) in C ==> Con(v, w) !in done
      modifies this`recs, this`sourceSet, this`done
      ensures Valid(C, index) == true && recs.Keys == old(recs).Keys && SameContents(old(recs), recs)
      ensures forall c :: c in done <==> c in old(done) || (c in C && c.v == v)
      ensures forall u :: u in recs ==> recs[u].ins == old(recs)[u].ins + if Con(v, u) in C then [v] else []
    {
      assert Counted(C, recs, sourceSet, entries, done, v);
      var outs := recs[v].outs;
      ghost var recs0, done0 := recs, done;
      for i := 0 to |outs|
        invariant Valid(C, index) == true && recs.Keys == recs0.Keys && recs[v].outs == outs
          && SameContents(recs0, recs)
        invariant DoneFor(done0, v, outs, i, done) && FoundFor(recs0, v, outs, i, recs)
      {
        ghost var recs1, done1 := recs, done;
        assert outs[i] in outs && outs[i] !in outs[..i];
        HandleOut(v, outs[i], C, index);
        OneMoreFor(recs0, done0, v, outs, i, recs1, done1, recs, done);
      }
      assert outs[..|outs|] == outs;
    }

    /** Takes the newest node from the queue. */
    method Pop(ghost C: set<Con>, ghost index: map<Node, nat>) returns (v: Node)
      requires Valid(C, index) && sourceSet != []
      modifies this`sourceSet, this`entries
      ensures Valid(C, index) && entries == old(entries) + [v] && v in recs && v !in old(entries) && !recs[v].merged
      ensures forall u :: u in recs[v].ins ==> u in entries && u in recs && u != v && Con(u, v) in C
    {
      ghost var Q, D := sourceSet, entries;
      v := sourceSet[|sourceSet| - 1];
      sourceSet := sourceSet[..|sourceSet| - 1];
      entries := entries + [v];
      TakeFromQueue(C, recs, Q, D, done, v, sourceSet, entries);
      TakenStillOwned(recs, owner, index, D, v, entries);
      assert Counted(C, recs, sourceSet, entries, done, v);
    }

    /** Takes one node without open constraints. */
    method Step(ghost C: set<Con>, ghost index: map<Node, nat>)
      requires InHand(C, index) == true && sourceSet != [] && forall c :: c in C ==> (c in done <==> c.v in entries)
      modifies this
      ensures InHand(C, index) == true
      ensures recs.Keys == old(recs).Keys && |entries| == |old(entries)| + 1
      ensures forall c :: c in C ==> (c in done <==> c.v in entries)
    {
      ghost var D := entries;
      var v := Pop(C, index);
      ghost var recs0, ins := recs, recs[v].ins;
      HandleIns(v, C, index);
      ghost var recs1 := recs;
      HandleOuts(v, C, index);
      StepKeeps(C, recs0, D, sc, v, ins, recs1, recs, entries);
    }
  }

  lemma {:induction false} AbsorbKeepsScores(recs: Recs, sc: Scores, v: Node, ins: seq<Node>, n: nat)
    requires n <= |ins| && AllScored(recs, sc) && v in recs && !recs[v].merged && v !in ins
    ensures var r := Absorb(recs, v, ins, n); AllScored(r, sc) && v in r && !r[v].merged
    decreases |ins| - n
  {
    if n < |ins| {
      AbsorbKeepsScores(recs, sc, v, ins, n + 1);
      AbsorbOneKeepsScores(Absorb(recs, v, ins, n + 1), sc, v, ins[n]);
    }
  }

  lemma AbsorbOneKeepsScores(recs: Recs, sc: Scores, v: Node, u: Node)
    requires AllScored(recs, sc) && v in recs && !recs[v].merged && u != v
    ensures var r := AbsorbOne(recs, v, u); AllScored(r, sc) && v in r && !r[v].merged
  {
    if u in recs && !recs[u].merged && OutOfOrder(recs[u].score, recs[v].score) {
      assert IsMean(recs[v].vs, recs[v].score, sc) && IsMean(recs[u].vs, recs[u].score, sc);
      MergedIsMean(recs[v], recs[u], sc);
    }
  }

  lemma StepKeeps(C: set<Con>, recs0: Recs, D: seq<Node>, sc: Scores, v: Node, ins: seq<Node>, recs1: Recs, recs2: Recs,
                  D': seq<Node>)
    requires ScoredBy(C, recs0, sc) && Follows(C, recs0, D, sc) && v in recs0 && !recs0[v].merged && D' == D + [v]
    requires ins == recs0[v].ins && (forall u :: u in ins ==> u in recs0 && u != v && Con(u, v) in C)
    requires recs1 == Absorb(recs0, v, ins, 0) && recs1.Keys == recs0.Keys && SameContents(recs1, recs2)
    requires forall w :: w in recs1 ==> recs1[w].ins == recs0[w].ins
    requires forall w :: w in recs2 ==> recs2[w].ins == recs1[w].ins + if Con(v, w) in C then [v] else []
    ensures ScoredBy(C, recs2, sc) && Follows(C, recs2, D', sc)
  {
    AbsorbKeepsScores(recs0, sc, v, ins, 0);
    assert ins != [] ==> ins[0] in ins;
    ContentsKeepScores(recs1, sc, recs2);
    FollowsOneMore(C, recs0, D, sc, v, recs1, recs2, D');
  }

  lemma ContentsKeepScores(recs: Recs, sc: Scores, recs': Recs)
    requires AllScored(recs, sc) && SameContents(recs, recs')
    ensures AllScored(recs', sc)
  {
    forall k | k in recs' && !recs'[k].merged ensures IsMean(recs'[k].vs, recs'[k].score, sc) {
      assert IsMean(recs[k].vs, recs[k].score, sc);
    }
  }

  lemma TakenStillOwned(recs: Recs, owner: map<Node, Node>, index: map<Node, nat>, D: seq<Node>, v: Node, D': seq<Node>)
    requires Owned(recs, owner, index, D) && v in recs && v !in D && D' == D + [v]
    ensures Owned(recs, owner, index, D') && !recs[v].merged
  {
    assert Alone(recs, v);
    assert forall k :: k in D ==> k in D';
    forall k | k in recs && k !in D' ensures Alone(recs, k) { assert k !in D; }
  }

  /** One record for each input, in its own place. */
  ghost predicate Fresh(input: seq<Input>, n: nat, recs: Recs)
    requires n <= |input|
  {
    && (forall i :: 0 <= i < n ==> input[i].v in recs)
    && (forall v {:trigger recs[v]} :: v in recs ==> 0 <= recs[v].i < n && input[recs[v].i].v == v)
    && (forall v :: v in recs ==> recs[v] == Rec(0, [], [], [v], recs[v].i, input[recs[v].i].score, false))
  }

  /** Records with the constraints S, all open. */
  ghost predicate Linked(input: seq<Input>, S: set<Con>, recs: Recs) {
    && (forall i :: 0 <= i < |input| ==> input[i].v in recs)
    && (forall v {:trigger LinkedAt(input, S, recs, v)} :: v in recs ==> LinkedAt(input, S, recs, v))
  }

  ghost predicate LinkedAt(input: seq<Input>, S: set<Con>, recs: Recs, v: Node)
    requires v in recs
  {
    && recs[v].i < |input| && input[recs[v].i].v == v && recs[v].vs == [v] && recs[v].ins == [] && !recs[v].merged
    && recs[v].score == input[recs[v].i].score
    && recs[v].indegree == |OpenInto(S, {}, v)|
    && (forall u :: u in recs[v].outs <==> Con(v, u) in S) && NoRepeats(recs[v].outs)
  }

  /** The constraint c is entered. */
  function WithCon(recs: Recs, c: Con): Recs
    requires c.v in recs && c.w in recs
  {
    var recs1 := recs[c.w := recs[c.w].(indegree := recs[c.w].indegree + 1)];
    recs1[c.v := recs1[c.v].(outs := recs1[c.v].outs + [c.w])]
  }

  lemma LinkOne(input: seq<Input>, S: set<Con>, recs: Recs, c: Con, S': set<Con>, recs': Recs)
    requires Linked(input, S, recs) && c !in S && c.v in recs && c.w in recs && S' == S + {c}
      && recs' == WithCon(recs, c)
    ensures Linked(input, S', recs')
  {
    forall v | v in recs' ensures LinkedAt(input, S', recs', v) {
      assert LinkedAt(input, S, recs, v);
      if v == c.w {
        assert OpenInto(S', {}, v) == OpenInto(S, {}, v) + {c};
      } else {
        assert OpenInto(S', {}, v) == OpenInto(S, {}, v);
      }
      assert v == c.v ==> forall u :: u in recs'[v].outs <==> u in recs[v].outs || u == c.w;
    }
  }

  method BuildRecords(input: seq<Input>) returns (recs: Recs)
    requires forall i, j :: 0 <= i < j < |input| ==> input[i].v != input[j].v
    ensures Fresh(input, |input|, recs)
  {
    recs := map[];
    for i := 0 to |input|
      invariant Fresh(input, i, recs)
    {
      recs := recs[input[i].v := Rec(0, [], [], [input[i].v], i, input[i].score, false)];
    }
  }

  lemma FreshIsLinked(input: seq<Input>, recs: Recs, none: set<Con>)
    requires Fresh(input, |input|, recs) && none == {}
    ensures Linked(input, none, recs)
  {
    forall v | v in recs ensures LinkedAt(input, none, recs, v) {
      assert OpenInto(none, {}, v) == {};
    }
  }

  /** The constraints between nodes that both have records. */
  ghost predicate Between(cg: set<Con>, recs: Recs, S: set<Con>) {
    forall c :: c in S <==> c in cg && c.v in recs && c.w in recs
  }

  method EnterConstraints(input: seq<Input>, cg: set<Con>, recs: Recs) returns (recs': Recs, ghost S: set<Con>)
    requires Fresh(input, |input|, recs)
    ensures recs'.Keys == recs.Keys && Between(cg, recs', S) && Linked(input, S, recs')
  {
    recs', S := recs, {};
    FreshIsLinked(input, recs, S);
    var todo := cg;
    while todo != {}
      invariant todo <= cg && recs'.Keys == recs.Keys && Linked(input, S, recs')
      invariant forall c :: c in S <==> c in cg && c !in todo && c.v in recs' && c.w in recs'
      decreases todo
    {
      var c :| c in todo;
      todo := todo - {c};
      if c.v in recs' && c.w in recs' {
        ghost var recs0, S0 := recs', S;
        recs' := WithCon(recs', c);
        S := S + {c};
        LinkOne(input, S0, recs0, c, S, recs');
      }
    }
  }

  /** The nodes without constraints into them, in any order. */
  method Sources(recs: Recs) returns (Q: seq<Node>)
    ensures NoRepeats(Q) && forall v :: v in Q <==> v in recs && recs[v].indegree == 0
  {
    Q := [];
    var todo := recs.Keys;
    while todo != {}
      invariant todo <= recs.Keys && NoRepeats(Q)
      invariant forall v :: v in Q <==> v in recs && v !in todo && recs[v].indegree == 0
      decreases todo
    {
      var v :| v in todo;
      todo := todo - {v};
      if recs[v].indegree == 0 { Q := Q + [v]; }
    }
  }

  ghost function IndexOf(recs: Recs): map<Node, nat> {
    map v | v in recs :: recs[v].i
  }

  lemma StartIsValid(input: seq<Input>, C: set<Con>, cg: set<Con>, recs: Recs, Q: seq<Node>, owner: map<Node, Node>,
                     index: map<Node, nat>)
    requires Linked(input, C, recs) && Between(cg, recs, C) && NoRepeats(Q)
      && forall v :: v in Q <==> v in recs && recs[v].indegree == 0
    requires owner == (map v | v in recs :: v) && index == IndexOf(recs)
    ensures Queue(C, recs, Q, [], {}) && Owned(recs, owner, index, [])
  {
    forall w | w in recs
      ensures Counted(C, recs, Q, [], {}, w) && Lists(recs, owner, index, w) && HeldBy(recs, owner, w)
        && Alone(recs, w) {
      assert LinkedAt(input, C, recs, w);
    }
  }

  /** What comes out: every node at most once, in entries told apart by their places. */
  ghost predicate Resolved(input: seq<Input>, r: seq<Entry>) {
    && NoRepeats(AllVs(r)) && (forall x :: x in AllVs(r) ==> exists i :: 0 <= i < |input| && input[i].v == x)
    && (forall j :: 0 <= j < |r| ==> r[j].i < |input| && (r[j].score.None? ==> |r[j].vs| == 1))
    && (forall j, k :: 0 <= j < k < |r| ==> r[j].i != r[k].i)
  }

  lemma ResultIsResolved(input: seq<Input>, recs: Recs, owner: map<Node, Node>, index: map<Node, nat>, D: seq<Node>,
                         r: seq<Entry>)
    requires Owned(recs, owner, index, D) && NoRepeats(D) && (forall v :: v in D ==> v in recs)
      && r == Unmerged(recs, D, |D|)
    requires forall v :: v in recs ==> index[v] < |input| && input[index[v]].v == v
    requires index.Keys == recs.Keys
    ensures Resolved(input, r)
    ensures forall x :: x in recs ==> (x in AllVs(r) <==> owner[x] in D)
  {
    UnmergedVs(recs, owner, index, D, |D|);
    UnmergedIdentified(recs, owner, index, D, |D|);
    assert D[..|D|] == D;
    forall j, k | 0 <= j < k < |r| ensures r[j].i != r[k].i {
      DifferentPlaces(r, index, j, k);
    }
    forall j | 0 <= j < |r| ensures r[j].i < |input| {
      var x :| x in r[j].vs && x in index && r[j].i == index[x];
    }
    forall x | x in AllVs(r) ensures exists i :: 0 <= i < |input| && input[i].v == x {
      assert input[index[x]].v == x;
    }
  }

  lemma AllKept(C: set<Con>, recs: Recs, owner: map<Node, Node>, index: map<Node, nat>, D: seq<Node>, done: set<Con>,
                r: seq<Entry>)
    requires Queue(C, recs, [], D, done) && (forall c :: c in C ==> (c in done <==> c.v in D))
      && Owned(recs, owner, index, D)
    requires forall x :: x in recs ==> (x in AllVs(r) <==> owner[x] in D)
    ensures Consistent(C) <==> forall x :: x in recs ==> x in AllVs(r)
  {
    DryQueue(C, recs, D, done);
    forall x | x in recs && x !in D ensures x !in AllVs(r) {
      assert Alone(recs, x) && HeldBy(recs, owner, x);
      OwnerOfAlone(recs, owner, index, D, x);
    }
    forall x | x in recs && x !in AllVs(r) ensures exists y :: y in recs && y !in D {
      assert HeldBy(recs, owner, x);
    }
  }

  lemma OwnerOfAlone(recs: Recs, owner: map<Node, Node>, index: map<Node, nat>, D: seq<Node>, x: Node)
    requires Owned(recs, owner, index, D) && x in recs && x !in D
    ensures owner[x] == x
  {
    assert Alone(recs, x);
    FromOwned(recs, owner, index, D, x);
    assert recs[x].vs[0] == x;
  }

  ghost predicate IsInput(input: seq<Input>, v: Node) {
    exists i :: 0 <= i < |input| && input[i].v == v
  }

  lemma RecordsAreInputs(input: seq<Input>, C: set<Con>, recs: Recs, index: map<Node, nat>)
    requires Linked(input, C, recs) && index == IndexOf(recs)
    ensures forall v :: v in recs ==> index[v] < |input| && input[index[v]].v == v
    ensures forall v :: v in recs <==> IsInput(input, v)
  {
    forall v | v in recs ensures index[v] < |input| && input[index[v]].v == v {
      assert LinkedAt(input, C, recs, v);
    }
  }

  /** The scores the nodes came with. */
  ghost function ScoresOf(input: seq<Input>): Scores {
    if input == [] then map[] else ScoresOf(input[..|input| - 1])[input[|input| - 1].v := input[|input| - 1].score]
  }

  lemma {:induction false} ScoresOfAt(input: seq<Input>, i: nat)
    requires (forall i, j :: 0 <= i < j < |input| ==> input[i].v != input[j].v) && i < |input|
    ensures input[i].v in ScoresOf(input) && ScoresOf(input)[input[i].v] == input[i].score
    decreases |input|
  {
    if i < |input| - 1 { ScoresOfAt(input[..|input| - 1], i); }
  }

  /** The entries' scores are the means over their nodes, and without constraints every entry is a single node. */
  ghost predicate MeansOf(input: seq<Input>, C: set<Con>, r: seq<Entry>) {
    && (forall j {:trigger r[j]} :: 0 <= j < |r| ==> IsMean(r[j].vs, r[j].score, ScoresOf(input)))
    && (C == {} ==>
        forall j {:trigger r[j]} :: 0 <= j < |r| ==>
          |r[j].vs| == 1 && r[j].vs[0] in ScoresOf(input) && r[j].score == ScoresOf(input)[r[j].vs[0]])
  }

  lemma OneIsMean(k: Node, sc: Scores)
    requires k in sc && Sane(sc[k])
    ensures IsMean([k], sc[k], sc)
  {
    var vs := [k];
    assert vs[..0] == [];
    if sc[k].Some? && sc[k].value.weight > 0.0 {
      QuotientOf(sc[k].value.barycenter.r, sc[k].value.weight);
    }
  }

  lemma QuotientOf(b: real, w: real)
    requires w != 0.0
    ensures (b * w) / w == b
  {
  }

  lemma StartIsScored(input: seq<Input>, C: set<Con>, recs: Recs, sc: Scores)
    requires (forall i, j :: 0 <= i < j < |input| ==> input[i].v != input[j].v)
      && (forall i :: 0 <= i < |input| ==> Sane(input[i].score))
    requires Linked(input, C, recs) && sc == ScoresOf(input)
    ensures AllScored(recs, sc)
      && forall k :: k in recs ==> recs[k].vs == [k] && !recs[k].merged && k in sc && recs[k].score == sc[k]
  {
    forall k | k in recs
      ensures recs[k].vs == [k] && !recs[k].merged && k in sc && recs[k].score == sc[k]
        && IsMean(recs[k].vs, recs[k].score, sc) {
      assert LinkedAt(input, C, recs, k);
      ScoresOfAt(input, recs[k].i);
      OneIsMean(k, sc);
    }
  }

  lemma {:induction false} UnmergedMeans(recs: Recs, sc: Scores, D: seq<Node>, n: nat)
    requires n <= |D| && (forall v :: v in D ==> v in recs) && AllScored(recs, sc)
    ensures forall j {:trigger Unmerged(recs, D, n)[j]} :: 0 <= j < |Unmerged(recs, D, n)| ==>
      IsMean(Unmerged(recs, D, n)[j].vs, Unmerged(recs, D, n)[j].score, sc)
    decreases n
  {
    if n > 0 { UnmergedMeans(recs, sc, D, n - 1); }
  }

  lemma {:induction false} UnmergedSingles(recs: Recs, sc: Scores, D: seq<Node>, n: nat)
    requires n <= |D| && (forall v :: v in D ==> v in recs)
    requires forall k :: k in recs ==> recs[k].vs == [k] && !recs[k].merged && k in sc && recs[k].score == sc[k]
    ensures forall j {:trigger Unmerged(recs, D, n)[j]} :: 0 <= j < |Unmerged(recs, D, n)| ==>
      |Unmerged(recs, D, n)[j].vs| == 1 && Unmerged(recs, D, n)[j].vs[0] in sc
        && Unmerged(recs, D, n)[j].score == sc[Unmerged(recs, D, n)[j].vs[0]]
    decreases n
  {
    if n > 0 { UnmergedSingles(recs, sc, D, n - 1); }
  }

  lemma {:induction false} ScoresOfInput(input: seq<Input>, x: Node)
    requires x in ScoresOf(input)
    ensures IsInput(input, x)
    decreases |input|
  {
    var k := |input| - 1;
    if input[k].v != x {
      ScoresOfInput(input[..k], x);
      var i :| 0 <= i < k && input[..k][i].v == x;
      assert input[i].v == x;
    }
  }

  lemma StartFollows(input: seq<Input>, C: set<Con>, recs: Recs, sc: Scores, none: seq<Node>)
    requires (forall i, j :: 0 <= i < j < |input| ==> input[i].v != input[j].v)
      && (forall i :: 0 <= i < |input| ==> Sane(input[i].score))
    requires Linked(input, C, recs) && sc == ScoresOf(input) && none == []
    ensures Follows(C, recs, none, sc) && recs.Keys == sc.Keys
  {
    StartIsScored(input, C, recs, sc);
    forall w | w in recs ensures recs[w].ins == [] { assert LinkedAt(input, C, recs, w); }
    forall x | x in sc ensures x in recs {
      ScoresOfInput(input, x);
    }
    SameSet(recs.Keys, sc.Keys);
    SameSet(Start(MarksOf(sc)).head.Keys, sc.Keys);
  }

  method Begin(input: seq<Input>, cg: set<Con>, recs: Recs, sources: seq<Node>, ghost C: set<Con>)
    returns (s: Resolver, ghost index: map<Node, nat>)
    requires Linked(input, C, recs) && Between(cg, recs, C) && NoRepeats(sources)
      && forall v :: v in sources <==> v in recs && recs[v].indegree == 0
    requires (forall i, j :: 0 <= i < j < |input| ==> input[i].v != input[j].v)
      && forall i :: 0 <= i < |input| ==> Sane(input[i].score)
    ensures fresh(s) && s.InHand(C, index) == true
    ensures s.sc == ScoresOf(input) && s.entries == [] && s.done == {} && s.recs == recs && index == IndexOf(recs)
    ensures s.recs.Keys == s.sc.Keys
  {
    ghost var owner := map v | v in recs :: v;
    index := IndexOf(recs);
    StartIsValid(input, C, cg, recs, sources, owner, index);
    StartIsScored(input, C, recs, ScoresOf(input));
    StartFollows(input, C, recs, ScoresOf(input), []);
    s := new Resolver(recs, sources, owner, ScoresOf(input));
  }

  method Prepare(input: seq<Input>, cg: set<Con>) returns (s: Resolver, ghost C: set<Con>, ghost index: map<Node, nat>)
    requires (forall i, j :: 0 <= i < j < |input| ==> input[i].v != input[j].v)
      && forall i :: 0 <= i < |input| ==> Sane(input[i].score)
    ensures fresh(s) && s.InHand(C, index) == true
    ensures s.sc == ScoresOf(input) && s.entries == [] && s.done == {} && index.Keys == s.recs.Keys == s.sc.Keys
    ensures forall v :: v in s.recs ==> index[v] < |input| && input[index[v]].v == v
    ensures forall v :: v in s.recs <==> IsInput(input, v)
    ensures Between(cg, s.recs, C)
  {
    var recs := BuildRecords(input);
    recs, C := EnterConstraints(input, cg, recs);
    RecordsAreInputs(input, C, recs, IndexOf(recs));
    var sources := Sources(recs);
    s, index := Begin(input, cg, recs, sources, C);
  }

  method Drain(s: Resolver, ghost C: set<Con>, ghost index: map<Node, nat>)
    requires s.InHand(C, index) == true
    requires forall c :: c in C ==> (c in s.done <==> c.v in s.entries)
    modifies s
    ensures s.InHand(C, index) == true
    ensures s.sourceSet == [] && s.recs.Keys == old(s.recs).Keys
    ensures forall c :: c in C ==> (c in s.done <==> c.v in s.entries)
  {
    ghost var keys := s.recs.Keys;
    while s.sourceSet != []
      invariant s.InHand(C, index) == true
      invariant s.recs.Keys == keys && forall c :: c in C ==> (c in s.done <==> c.v in s.entries)
      decreases |keys| - |s.entries|
    {
      s.Step(C, index);
      TakenFit(C, s.recs, s.sourceSet, s.entries, s.done, keys);
    }
  }

  lemma TakenFit(C: set<Con>, recs: Recs, Q: seq<Node>, D: seq<Node>, done: set<Con>, keys: set<Node>)
    requires Queue(C, recs, Q, D, done) && keys == recs.Keys
    ensures |D| <= |keys|
  {
    forall i | 0 <= i < |D| ensures D[i] in keys { assert D[i] in D; }
    AllInDistinct(D, keys);
  }

  // ----- what the result says of the groups -----

  ghost predicate EntryIs(g: Grouping, k: Node, e: Entry) {
    k in g.group && e.vs == g.group[k].vs && e.score == Some(Score(Num(g.group[k].mean), g.group[k].weight))
  }

  /** The entries are the groups that a run over D ends with, one for each of the heads H. */
  ghost predicate Grouped(C: set<Con>, marks: Marks, D: seq<Node>, H: seq<Node>, r: seq<Entry>) {
    && Extends(C, D) && (forall x :: x in D <==> x in marks) && NoRepeats(H) && |H| == |r|
    && (forall k :: k in H <==> k in Run(C, Start(marks), D).head && Run(C, Start(marks), D).head[k] == k)
    && forall j {:trigger r[j]} :: 0 <= j < |r| ==> EntryIs(Run(C, Start(marks), D), H[j], r[j])
  }

  ghost predicate IsGrouped(C: set<Con>, marks: Marks, r: seq<Entry>) {
    exists D, H :: Grouped(C, marks, D, H, r)
  }

  ghost function HeadsIn(g: Grouping, D: seq<Node>, n: nat): seq<Node>
    requires n <= |D|
  {
    if n == 0 then [] else
      HeadsIn(g, D, n - 1) + if D[n - 1] in g.head && g.head[D[n - 1]] == D[n - 1] then [D[n - 1]] else []
  }

  lemma {:induction false} UnmergedAreHeads(recs: Recs, g: Grouping, D: seq<Node>, n: nat)
    requires n <= |D| && (forall v :: v in D ==> v in recs) && NoRepeats(D) && Matches(recs, g)
    ensures |HeadsIn(g, D, n)| == |Unmerged(recs, D, n)| && NoRepeats(HeadsIn(g, D, n))
    ensures forall j {:trigger Unmerged(recs, D, n)[j]} :: 0 <= j < |Unmerged(recs, D, n)| ==>
      EntryIs(g, HeadsIn(g, D, n)[j], Unmerged(recs, D, n)[j])
    ensures forall k :: k in HeadsIn(g, D, n) <==> k in D[..n] && k in g.head && g.head[k] == k
  {
    if n > 0 {
      UnmergedAreHeads(recs, g, D, n - 1);
      assert D[..n] == D[..n - 1] + [D[n - 1]] && D[n - 1] !in D[..n - 1];
      assert MatchesAt(recs, g, D[n - 1]);
    }
  }

  lemma ResultIsGrouped(C: set<Con>, recs: Recs, D: seq<Node>, done: set<Con>, sc: Scores, r: seq<Entry>)
    requires Queue(C, recs, [], D, done) && Follows(C, recs, D, sc) && Numeric(sc) && recs.Keys == sc.Keys
      && Consistent(C)
    requires (forall c :: c in C && c.v in D ==> c in done) && (forall v :: v in D ==> v in recs)
      && r == Unmerged(recs, D, |D|)
    ensures IsGrouped(C, MarksOf(sc), r)
  {
    var g := Run(C, Start(MarksOf(sc)), D);
    DryQueue(C, recs, D, done);
    UnmergedAreHeads(recs, g, D, |D|);
    assert D[..|D|] == D;
    assert Grouped(C, MarksOf(sc), D, HeadsIn(g, D, |D|), r);
  }

  /** No node is lost exactly when the constraints between these nodes are consistent; none is ever doubled. */
  method ResolveConflicts(input: seq<Input>, cg: set<Con>) returns (r: seq<Entry>, ghost C: set<Con>)
    requires (forall i, j :: 0 <= i < j < |input| ==> input[i].v != input[j].v)
      && forall i :: 0 <= i < |input| ==> Sane(input[i].score)
    ensures Resolved(input, r) && MeansOf(input, C, r)
    ensures forall c :: c in C <==> c in cg && IsInput(input, c.v) && IsInput(input, c.w)
    ensures Consistent(C) <==> forall i :: 0 <= i < |input| ==> input[i].v in AllVs(r)
    ensures Consistent(C) && Numeric(ScoresOf(input)) ==> IsGrouped(C, MarksOf(ScoresOf(input)), r)
  {
    var s;
    ghost var index;
    s, C, index := Prepare(input, cg);
    Drain(s, C, index);
    TakenAreKnown(C, s.recs, s.sourceSet, s.entries, s.done);
    r := Unmerged(s.recs, s.entries, |s.entries|);
    MeansConclude(input, C, s.recs, s.sc, s.entries, r);
    KeptConclude(input, C, s.recs, s.owner, index, s.entries, s.done, r);
    if Consistent(C) && Numeric(s.sc) {
      ResultIsGrouped(C, s.recs, s.entries, s.done, s.sc, r);
    }
  }

  lemma MeansConclude(input: seq<Input>, C: set<Con>, recs: Recs, sc: Scores, D: seq<Node>, r: seq<Entry>)
    requires (forall v :: v in D ==> v in recs) && AllScored(recs, sc) && sc == ScoresOf(input)
      && r == Unmerged(recs, D, |D|)
    requires C == {} ==>
      forall k :: k in recs ==> recs[k].vs == [k] && !recs[k].merged && k in sc && recs[k].score == sc[k]
    ensures MeansOf(input, C, r)
  {
    UnmergedMeans(recs, sc, D, |D|);
    if C == {} { UnmergedSingles(recs, sc, D, |D|); }
  }

  lemma KeptConclude(input: seq<Input>, C: set<Con>, recs: Recs, owner: map<Node, Node>, index: map<Node, nat>,
                     D: seq<Node>, done: set<Con>, r: seq<Entry>)
    requires Queue(C, recs, [], D, done) && (forall c :: c in C ==> (c in done <==> c.v in D))
      && Owned(recs, owner, index, D)
    requires (forall v :: v in D ==> v in recs) && r == Unmerged(recs, D, |D|) && index.Keys == recs.Keys
    requires (forall v :: v in recs ==> index[v] < |input| && input[index[v]].v == v)
      && forall v :: v in recs <==> IsInput(input, v)
    ensures Resolved(input, r)
    ensures Consistent(C) <==> forall i :: 0 <= i < |input| ==> input[i].v in AllVs(r)
  {
    ResultIsResolved(input, recs, owner, index, D, r);
    AllKept(C, recs, owner, index, D, done, r);
    forall i | 0 <= i < |input| ensures input[i].v in recs { assert IsInput(input, input[i].v); }
  }

  lemma TakenAreKnown(C: set<Con>, recs: Recs, Q: seq<Node>, D: seq<Node>, done: set<Con>)
    requires Queue(C, recs, Q, D, done)
    ensures NoRepeats(D) && forall v :: v in D ==> v in recs
  {
  }
}
