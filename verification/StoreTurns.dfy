/** What restore and remove make of the elements, turn by turn. */
module StoreTurns {
  import opened Graphs
  import opened Sums
  import opened Elements

  // ----- the turn of one element -----

  /** The data of all elements, and which of them are pooled. */
  datatype Book = Book(info: Info, P: set<Ele>)

  /** Some pooled element has this id. */
  ghost predicate HasId(info: Info, P: set<Ele>, d: Id) {
    exists y :: y in P && y in info && info[y].id == d
  }

  ghost predicate EndMissing(info: Info, P: set<Ele>, d: Option<Id>) {
    d.None? || d.value == Empty || !HasId(info, P, AsText(d.value))
  }

  /** The id is unusable, or a text that is taken. Whether a number's text is taken is not asked. */
  ghost predicate BadId(info: Info, P: set<Ele>, d: Id) {
    d == Empty || (IsText(d) && HasId(info, P, d))
  }

  ghost predicate BadEnds(info: Info, P: set<Ele>, data: Data) {
    data.EdgeData? && (EndMissing(info, P, data.source) || EndMissing(info, P, data.target))
  }

  ghost predicate Refused(info: Info, P: set<Ele>, x: Ele)
    requires x in info
  {
    BadId(info, P, info[x].id) || BadEnds(info, P, info[x])
  }

  /** x is put in although the text of its id, a number, is taken. */
  ghost predicate Clash(info: Info, P: set<Ele>, x: Ele)
    requires x in info
  {
    info[x].id.Number? && HasId(info, P, AsText(info[x].id)) && !BadEnds(info, P, info[x])
  }

  ghost function Put(info: Info, P: set<Ele>, x: Ele): set<Ele>
    requires x in info
  {
    (set y | y in P && !(y in info && info[y].id == AsText(info[x].id))) + {x}
  }

  /** What one turn makes of the book: an id that is not bad becomes text, even if the ends are missing. */
  ghost function Turn(b: Book, x: Ele): Book {
    if x !in b.info || BadId(b.info, b.P, b.info[x].id) then b
    else Book(b.info[x := Texted(b.info[x])], if BadEnds(b.info, b.P, b.info[x]) then b.P else Put(b.info, b.P, x))
  }

  ghost function Turns(b: Book, elements: seq<Ele>, n: nat): Book
    requires n <= |elements|
  {
    if n == 0 then b else Turn(Turns(b, elements, n - 1), elements[n - 1])
  }

  ghost predicate ClashAt(b: Book, elements: seq<Ele>, i: nat)
    requires i < |elements|
  {
    var now := Turns(b, elements, i);
    elements[i] in now.info && Clash(now.info, now.P, elements[i])
  }

  ghost predicate Clashes(b: Book, elements: seq<Ele>, n: nat)
    requires n <= |elements|
  {
    exists i: nat :: i < n && ClashAt(b, elements, i)
  }

  // ----- the lists of what is to be restored or removed -----

  /** Of these elements the removed nodes, or the removed edges. */
  function Waiting(info: Info, removed: set<Ele>, self: seq<Ele>, edges: bool): seq<Ele>
    requires forall x :: x in self ==> x in info
  {
    if self == [] then [] else
      var x := self[|self| - 1];
      Waiting(info, removed, self[..|self| - 1], edges) + if x in removed && info[x].EdgeData? == edges then [x] else []
  }

  function WithEdge(R: seq<Ele>, e: Ele): seq<Ele> {
    if e in R then R else [e] + R
  }

  function WithEdges(R: seq<Ele>, edges: seq<Ele>, n: nat): seq<Ele>
    requires n <= |edges|
  {
    if n == 0 then R else WithEdge(WithEdges(R, edges, n - 1), edges[n - 1])
  }

  /** Nodes go to the end and their edges to the front, each once. */
  function WithOne(info: Info, lists: Lists, R: seq<Ele>, x: Ele): seq<Ele> {
    if x in R then R
    else if x in info && info[x].EdgeData? then [x] + R
    else if x in lists then WithEdges(R + [x], lists[x], |lists[x]|)
    else R + [x]
  }

  function ToRemove(info: Info, lists: Lists, self: seq<Ele>, n: nat): seq<Ele>
    requires n <= |self|
  {
    if n == 0 then [] else WithOne(info, lists, ToRemove(info, lists, self, n - 1), self[n - 1])
  }

  lemma {:induction false} WaitingMembers(info: Info, removed: set<Ele>, self: seq<Ele>, edges: bool)
    requires forall x :: x in self ==> x in info
    ensures forall x :: x in Waiting(info, removed, self, edges) <==>
      x in self && x in removed && info[x].EdgeData? == edges
  {
    if self != [] { WaitingMembers(info, removed, self[..|self| - 1], edges); }
  }

  lemma MoreClashes(b: Book, elements: seq<Ele>, i: nat)
    requires i < |elements|
    ensures Clashes(b, elements, i + 1) <==> Clashes(b, elements, i) || ClashAt(b, elements, i)
  {
  }

  // ----- what goes with what is removed -----

  ghost predicate EndsIn(info: Info, src: Ends, tgt: Ends, S: set<Ele>, e: Ele) {
    exists n :: n in S && IsNode(info, n) && Degree(src, tgt, e, n) > 0
  }

  /** The pooled edges at the nodes of S. */
  ghost function Incident(info: Info, P: set<Ele>, src: Ends, tgt: Ends, S: set<Ele>): set<Ele> {
    set e | e in EdgesOf(info, P) && EndsIn(info, src, tgt, S, e)
  }

  ghost predicate AllDiffer(R: seq<Ele>) {
    forall i, j :: 0 <= i < j < |R| ==> R[i] != R[j]
  }

  lemma {:induction false} EdgesAreAdded(R: seq<Ele>, edges: seq<Ele>, n: nat)
    requires n <= |edges| && AllDiffer(R)
    ensures AllDiffer(WithEdges(R, edges, n))
    ensures forall y :: y in WithEdges(R, edges, n) <==> y in R || y in edges[..n]
  {
    if n > 0 {
      EdgesAreAdded(R, edges, n - 1);
      assert edges[..n] == edges[..n - 1] + [edges[n - 1]];
    }
  }

  lemma {:induction false} RemovalIsClosure(info: Info, P: set<Ele>, lists: Lists, src: Ends, tgt: Ends, self: seq<Ele>,
                                            n: nat)
    requires n <= |self| && Listed(EdgesOf(info, P), lists, src, tgt) && lists.Keys == info.Keys
    requires forall x :: x in self ==> x in info
    ensures AllDiffer(ToRemove(info, lists, self, n))
    ensures Members(ToRemove(info, lists, self, n)) ==
      Members(self[..n]) + Incident(info, P, src, tgt, Members(self[..n]))
  {
    if n > 0 {
      var R, x, S, S' := ToRemove(info, lists, self, n - 1), self[n - 1], Members(self[..n - 1]), Members(self[..n]);
      RemovalIsClosure(info, P, lists, src, tgt, self, n - 1);
      assert self[..n] == self[..n - 1] + [x];
      assert x in self && S' == S + {x};
      OneIsAdded(info, P, lists, src, tgt, R, x, S, S');
    }
  }

  lemma OneIsAdded(info: Info, P: set<Ele>, lists: Lists, src: Ends, tgt: Ends, R: seq<Ele>, x: Ele, S: set<Ele>,
                   S': set<Ele>)
    requires Listed(EdgesOf(info, P), lists, src, tgt) && lists.Keys == info.Keys && x in info && S' == S + {x}
    requires AllDiffer(R) && Members(R) == S + Incident(info, P, src, tgt, S)
    ensures AllDiffer(WithOne(info, lists, R, x))
    ensures Members(WithOne(info, lists, R, x)) == S' + Incident(info, P, src, tgt, S')
  {
    var R' := WithOne(info, lists, R, x);
    if x !in R && IsNode(info, x) {
      EdgesAreAdded(R + [x], lists[x], |lists[x]|);
      assert lists[x][..|lists[x]|] == lists[x];
    }
    forall y ensures y in R' <==> y in S' || y in Incident(info, P, src, tgt, S') {
      IncidentGrows(info, P, src, tgt, S, x, S', y);
      InListIffAt(info, P, lists, src, tgt, x, y);
      assert y in R <==> y in Members(R);
      assert x in R <==> x in Members(R);
    }
    SameSet(Members(R'), S' + Incident(info, P, src, tgt, S'));
  }

  lemma InListIffAt(info: Info, P: set<Ele>, lists: Lists, src: Ends, tgt: Ends, x: Ele, y: Ele)
    requires Listed(EdgesOf(info, P), lists, src, tgt) && x in lists
    ensures y in lists[x] <==> y in EdgesOf(info, P) && Degree(src, tgt, y, x) > 0
  {
    assert ListedAt(EdgesOf(info, P), lists, src, tgt, x, y);
    assert y in lists[x] <==> multiset(lists[x])[y] > 0;
  }

  lemma IncidentGrows(info: Info, P: set<Ele>, src: Ends, tgt: Ends, S: set<Ele>, x: Ele, S': set<Ele>, y: Ele)
    requires S' == S + {x}
    ensures y in Incident(info, P, src, tgt, S') <==>
      y in Incident(info, P, src, tgt, S) || (IsNode(info, x) && y in EdgesOf(info, P) && Degree(src, tgt, y, x) > 0)
  {
    if EndsIn(info, src, tgt, S', y) {
      var n :| n in S' && IsNode(info, n) && Degree(src, tgt, y, n) > 0;
      assert n in S ==> EndsIn(info, src, tgt, S, y);
    }
    if EndsIn(info, src, tgt, S, y) {
      var n :| n in S && IsNode(info, n) && Degree(src, tgt, y, n) > 0;
      assert n in S';
    }
    if IsNode(info, x) && Degree(src, tgt, y, x) > 0 {
      assert x in S';
    }
  }

  ghost predicate Names(info: Info, e: Ele, f: Ele) {
    IsEdge(info, e) && f in info && (info[e].source == Some(info[f].id) || info[e].target == Some(info[f].id))
  }

  /** An edge of P that is not in R names an edge of R as its end. */
  ghost predicate LeavesNamed(info: Info, P: set<Ele>, R: seq<Ele>) {
    exists e, f :: e in P && e !in R && f in R && IsEdge(info, f) && Names(info, e, f)
  }

  ghost predicate IdsDiffer(info: Info, P: set<Ele>) {
    forall x, y :: x in P && y in P && x in info && y in info && info[x].id == info[y].id ==> x == y
  }

  lemma PooledIdsDiffer(info: Info, P: set<Ele>, pool: seq<Ele>, index: Index)
    requires Pooled(info, P, pool, index)
    ensures IdsDiffer(info, P)
  {
  }

  /** Once S and the edges at its nodes are gone, an end is missing exactly where an edge names an edge that is gone. */
  lemma CutIffNamed(info: Info, P: set<Ele>, src: Ends, tgt: Ends, S: set<Ele>, R: seq<Ele>, P': set<Ele>)
    requires AllEnded(info, P, src, tgt) && IdsDiffer(info, P) && (forall x :: x in R ==> x in P)
    requires Members(R) == S + Incident(info, P, src, tgt, S) && P' == P - Members(R)
    ensures AllEnded(info, P', src, tgt) <==> !LeavesNamed(info, P, R)
  {
    if !LeavesNamed(info, P, R) {
      forall e | e in P' && IsEdge(info, e) ensures Ended(info, P', src, tgt, e) {
        assert Ended(info, P, src, tgt, e);
        EndStays(info, P, src, tgt, S, R, e, src[e]);
        EndStays(info, P, src, tgt, S, R, e, tgt[e]);
      }
    }
    if AllEnded(info, P', src, tgt) {
      forall e, f | e in P && e !in R && f in R && IsEdge(info, f) ensures !Names(info, e, f) {
        if IsEdge(info, e) { assert Ended(info, P, src, tgt, e) && Ended(info, P', src, tgt, e); }
      }
    }
  }

  lemma StillKept(info: Info, P: set<Ele>, removed: set<Ele>, P': set<Ele>, removed': set<Ele>, R: seq<Ele>,
                  lists: Lists, src: Ends, tgt: Ends)
    requires (forall x :: x in info ==> (x in removed <==> x !in P)) && P' == P - Members(R)
    requires (forall x :: x in removed' <==> x in removed || x in R) && (forall x :: x in R ==> x in P)
    requires Listed(EdgesOf(info, P'), lists, src, tgt)
    ensures Kept(info, P', removed', lists, src, tgt)
  {
  }

  lemma EndStays(info: Info, P: set<Ele>, src: Ends, tgt: Ends, S: set<Ele>, R: seq<Ele>, e: Ele, n: Ele)
    requires !LeavesNamed(info, P, R) && Members(R) == S + Incident(info, P, src, tgt, S)
    requires e in P && e !in R && Ended(info, P, src, tgt, e) && (n == src[e] || n == tgt[e])
    ensures n !in R
  {
    assert n in R ==> n in Members(R);
    assert n in S && IsNode(info, n) ==> EndsIn(info, src, tgt, S, e);
    assert EndsIn(info, src, tgt, S, e) ==> e in Members(R);
  }

  // ----- what a turn does to the store -----

  lemma IndexHas(info: Info, P: set<Ele>, pool: seq<Ele>, index: Index, d: Id)
    requires Pooled(info, P, pool, index)
    ensures d in index <==> HasId(info, P, d)
    ensures d in index ==> index[d].ele in P && index[d].ele in info && info[index[d].ele].id == d
  {
    if d in index { assert pool[index[d].index] in P; }
  }

  /** An element was pushed out of the pool by another of the same id, and nothing says that it was removed. */
  ghost predicate Lost(info: Info, P: set<Ele>, removed: set<Ele>, y: Ele) {
    y in info && y !in P && y !in removed && IsText(info[y].id) && HasId(info, P, info[y].id)
  }

  lemma ClashLoses(info: Info, P: set<Ele>, removed: set<Ele>, x: Ele, b: Book, removed': set<Ele>) returns (y: Ele)
    requires AllText(info, P) && x in info && Clash(info, P, x) && b == Turn(Book(info, P), x) && removed' <= removed
    requires forall z :: z in P ==> z !in removed
    ensures Lost(b.info, b.P, removed', y)
  {
    y :| y in P && y in info && info[y].id == AsText(info[x].id);
    assert x in b.P && b.info[x].id == info[y].id;
  }

  lemma LostStaysLost(info: Info, P: set<Ele>, removed: set<Ele>, x: Ele, b: Book, removed': set<Ele>, y: Ele)
    requires x in info && b == Turn(Book(info, P), x) && removed' <= removed && Lost(info, P, removed, y)
    ensures Lost(b.info, b.P, removed', y)
  {
    var z :| z in P && z in info && info[z].id == info[y].id;
    if z !in b.P { assert x in b.P && b.info[x].id == info[z].id; }
    if z == x { assert BadId(info, P, info[x].id); }
    if y == x { assert BadId(info, P, info[x].id); }
  }

  /** The data of an element outside of the pool turns into text, and nothing else notices. */
  lemma TextedKeeps(info: Info, P: set<Ele>, removed: set<Ele>, lists: Lists, src: Ends, tgt: Ends, x: Ele, info': Info)
    requires x in info && x !in P && info' == info[x := Texted(info[x])]
    ensures EdgesOf(info', P) == EdgesOf(info, P) && info'.Keys == info.Keys
    ensures AllText(info, P) ==> AllText(info', P)
    ensures Kept(info, P, removed, lists, src, tgt) ==> Kept(info', P, removed, lists, src, tgt)
    ensures AllEnded(info, P, src, tgt) ==> AllEnded(info', P, src, tgt)
  {
    SameSet(EdgesOf(info', P), EdgesOf(info, P));
    SameSet(info'.Keys, info.Keys);
    if AllEnded(info, P, src, tgt) {
      forall e | e in P && IsEdge(info', e) ensures Ended(info', P, src, tgt, e) {
        assert Ended(info, P, src, tgt, e);
      }
    }
  }

  /** A node whose id is not taken joins the pool. */
  lemma RestoredNode(info: Info, P: set<Ele>, removed: set<Ele>, lists: Lists, src: Ends, tgt: Ends, x: Ele,
                     P': set<Ele>, removed': set<Ele>)
    requires IsNode(info, x) && x !in P && P' == P + {x} && removed' == removed - {x}
    ensures Kept(info, P, removed, lists, src, tgt) ==> Kept(info, P', removed', lists, src, tgt)
    ensures AllEnded(info, P, src, tgt) ==> AllEnded(info, P', src, tgt)
  {
    SameSet(EdgesOf(info, P'), EdgesOf(info, P));
    if AllEnded(info, P, src, tgt) {
      forall e | e in P' && IsEdge(info, e) ensures Ended(info, P', src, tgt, e) { assert Ended(info, P, src, tgt, e); }
    }
  }

  /** An edge whose id is not taken joins the pool between the pooled elements s and t. */
  lemma RestoredEdge(info: Info, P: set<Ele>, removed: set<Ele>, lists: Lists, src: Ends, tgt: Ends, x: Ele, s: Ele,
                     t: Ele,
                     P': set<Ele>, removed': set<Ele>, lists': Lists, src': Ends, tgt': Ends)
    requires IsEdge(info, x) && x !in P && P' == P + {x} && removed' == removed - {x}
    requires s in P && t in P && s in info && t in info && src' == src[x := s] && tgt' == tgt[x := t]
    requires info[x].source == Some(info[s].id) && info[x].target == Some(info[t].id)
      && Extended(lists, s, t, x, lists')
    ensures Kept(info, P, removed, lists, src, tgt) ==> Kept(info, P', removed', lists', src', tgt')
    ensures Ended(info, P', src', tgt', x)
    ensures AllEnded(info, P, src, tgt) ==> AllEnded(info, P', src', tgt')
  {
    SameSet(EdgesOf(info, P'), EdgesOf(info, P) + {x});
    if Kept(info, P, removed, lists, src, tgt) {
      AttachEdge(EdgesOf(info, P), lists, src, tgt, x, s, t, EdgesOf(info, P'), lists', src', tgt');
    }
    if AllEnded(info, P, src, tgt) {
      forall e | e in P' && IsEdge(info, e) ensures Ended(info, P', src', tgt', e) {
        if e != x { assert Ended(info, P, src, tgt, e); }
      }
    }
  }

  ghost predicate SameEnds(src: Ends, tgt: Ends, src': Ends, tgt': Ends, e: Ele) {
    && (e in src' <==> e in src) && (e in src ==> src'[e] == src[e])
    && (e in tgt' <==> e in tgt) && (e in tgt ==> tgt'[e] == tgt[e])
  }

  /** No element but x got other ends, and x only if it was restored. */
  ghost predicate KeepEnds(src: Ends, tgt: Ends, src': Ends, tgt': Ends, x: Ele, restored: bool) {
    forall e :: e != x || !restored ==> SameEnds(src, tgt, src', tgt', e)
  }

  lemma OthersKeepEnds(src: Ends, tgt: Ends, x: Ele, s: Ele, t: Ele)
    ensures KeepEnds(src, tgt, src[x := s], tgt[x := t], x, true)
  {
  }

  ghost predicate OthersKeep(src: Ends, tgt: Ends, src': Ends, tgt': Ends, elements: seq<Ele>) {
    forall e :: e !in elements ==> SameEnds(src, tgt, src', tgt', e)
  }

  lemma OthersStillKeep(src: Ends, tgt: Ends, src1: Ends, tgt1: Ends, src2: Ends, tgt2: Ends, elements: seq<Ele>,
                        x: Ele, restored: bool)
    requires OthersKeep(src, tgt, src1, tgt1, elements) && KeepEnds(src1, tgt1, src2, tgt2, x, restored)
      && x in elements
    ensures OthersKeep(src, tgt, src2, tgt2, elements)
  {
    forall e | e !in elements ensures SameEnds(src, tgt, src2, tgt2, e) {
      assert SameEnds(src, tgt, src1, tgt1, e) && SameEnds(src1, tgt1, src2, tgt2, e);
    }
  }

  /** Every edge that has joined the pool has its ends there. */
  ghost predicate NewEnded(info: Info, P0: set<Ele>, P: set<Ele>, src: Ends, tgt: Ends) {
    P0 <= P
      && forall e {:trigger Ended(info, P, src, tgt, e)} :: e in P && e !in P0 && IsEdge(info, e) ==>
        Ended(info, P, src, tgt, e)
  }

  lemma NewEndedGrows(info: Info, P0: set<Ele>, P: set<Ele>, src: Ends, tgt: Ends, x: Ele, restored: bool,
                      info': Info, P': set<Ele>, src': Ends, tgt': Ends)
    requires NewEnded(info, P0, P, src, tgt) && AllText(info, P) && x in info && !Clash(info, P, x)
    requires Book(info', P') == Turn(Book(info, P), x) && restored == !Refused(info, P, x)
    requires KeepEnds(src, tgt, src', tgt', x, restored)
      && (restored && IsEdge(info', x) ==> Ended(info', P', src', tgt', x))
    ensures NewEnded(info', P0, P', src', tgt')
  {
    if restored { PutIsNew(info, P, x); }
    forall e | e in P' && e !in P0 && IsEdge(info', e) ensures Ended(info', P', src', tgt', e) {
      if !(restored && e == x) {
        assert Ended(info, P, src, tgt, e);
        assert SameEnds(src, tgt, src', tgt', e);
        assert x in P ==> BadId(info, P, info[x].id);
      }
    }
  }

  /** Once the data is text the turn is decided by the ends and the id as it reads now. */
  lemma TextedTurn(info: Info, P: set<Ele>, x: Ele, info': Info)
    requires x in info && x !in P && info' == info[x := Texted(info[x])] && !BadId(info, P, info[x].id)
    ensures info'[x] == Texted(info'[x]) && (info[x].id == Empty || IsText(info'[x].id))
    ensures BadEnds(info', P, info'[x]) == BadEnds(info, P, info[x])
    ensures HasId(info', P, info'[x].id) == HasId(info, P, AsText(info[x].id))
    ensures Put(info', P, x) == Put(info, P, x)
  {
    forall d ensures HasId(info', P, d) == HasId(info, P, d) {
      if HasId(info, P, d) {
        var y :| y in P && y in info && info[y].id == d;
        assert y in info' && info'[y].id == d;
      }
    }
    SameSet(Put(info', P, x), Put(info, P, x));
  }

  lemma PutIsNew(info: Info, P: set<Ele>, x: Ele)
    requires x in info && !HasId(info, P, AsText(info[x].id))
    ensures Put(info, P, x) == P + {x}
  {
  }

  lemma PutReplaces(info: Info, P: set<Ele>, pool: seq<Ele>, index: Index, x: Ele)
    requires Pooled(info, P, pool, index) && x in info && AsText(info[x].id) in index
    ensures Put(info, P, x) == P - {index[AsText(info[x].id)].ele} + {x}
  {
    IndexHas(info, P, pool, index, AsText(info[x].id));
  }

  // ----- restoring what was removed -----

  /** The order in which these removed elements would be restored. */
  function RestoreOrder(info: Info, R: seq<Ele>): seq<Ele>
    requires forall x :: x in R ==> x in info
  {
    Waiting(info, Members(R), R, false) + Waiting(info, Members(R), R, true)
  }

  /** An element that is named as an end comes before the edge that names it. */
  ghost predicate EndsFirst(info: Info, W: seq<Ele>) {
    forall i, j :: 0 <= i < |W| && 0 <= j < |W| && Names(info, W[i], W[j]) ==> j < i
  }

  /** P1 and the elements of W, each once, make up the pool P0, which is in order. */
  ghost predicate Parted(info: Info, P0: set<Ele>, P1: set<Ele>, W: seq<Ele>, src: Ends, tgt: Ends) {
    && AllText(info, P0) && IdsDiffer(info, P0) && AllEnded(info, P0, src, tgt)
    && AllDiffer(W) && P1 == P0 - Members(W) && Members(W) <= P0
  }

  /** What is pooled after n turns. */
  ghost function After(info: Info, P: set<Ele>, W: seq<Ele>, n: nat): set<Ele>
    requires n <= |W|
  {
    Turns(Book(info, P), W, n).P
  }

  /** The turns only add: the n-th adds its element unless an end of it is missing. */
  lemma {:induction false} TurnsOnlyAdd(info: Info, P0: set<Ele>, P1: set<Ele>, W: seq<Ele>, src: Ends, tgt: Ends,
                                        n: nat)
    requires Parted(info, P0, P1, W, src, tgt) && n <= |W|
    ensures Turns(Book(info, P1), W, n).info == info && P1 <= After(info, P1, W, n) <= P1 + Members(W[..n])
    ensures n > 0 ==> Added(info, After(info, P1, W, n - 1), W[n - 1], After(info, P1, W, n))
  {
    if n > 0 {
      TurnsOnlyAdd(info, P0, P1, W, src, tgt, n - 1);
      assert W[..n] == W[..n - 1] + [W[n - 1]];
      var x, Q := W[n - 1], After(info, P1, W, n - 1);
      assert x in Members(W) && x !in W[..n - 1] && x !in Q;
      TurnAdds(info, P0, Q, src, tgt, x);
    }
  }

  lemma TurnAdds(info: Info, P0: set<Ele>, Q: set<Ele>, src: Ends, tgt: Ends, x: Ele)
    requires AllText(info, P0) && IdsDiffer(info, P0) && AllEnded(info, P0, src, tgt) && Q <= P0 && x in P0 && x !in Q
    ensures Turn(Book(info, Q), x).info == info && Added(info, Q, x, Turn(Book(info, Q), x).P)
  {
    assert !HasId(info, Q, info[x].id);
    if IsEdge(info, x) { assert Ended(info, P0, src, tgt, x); }
    assert Texted(info[x]) == info[x] && info[x := info[x]] == info;
    PutIsNew(info, Q, x);
  }

  ghost predicate Added(info: Info, Q: set<Ele>, x: Ele, Q': set<Ele>) {
    x in info && Q' == if BadEnds(info, Q, info[x]) then Q else Q + {x}
  }

  /** With ends first every turn adds its element. */
  lemma {:induction false} AllAreAdded(info: Info, P0: set<Ele>, P1: set<Ele>, W: seq<Ele>, src: Ends, tgt: Ends,
                                       n: nat)
    requires Parted(info, P0, P1, W, src, tgt) && EndsFirst(info, W) && n <= |W|
    ensures After(info, P1, W, n) == P1 + Members(W[..n])
  {
    if n > 0 {
      var x, Q := W[n - 1], After(info, P1, W, n - 1);
      AllAreAdded(info, P0, P1, W, src, tgt, n - 1);
      TurnsOnlyAdd(info, P0, P1, W, src, tgt, n);
      assert W[..n] == W[..n - 1] + [x];
      assert x in Members(W) && x in P0;
      if IsEdge(info, x) {
        assert Ended(info, P0, src, tgt, x);
        EndIsBack(info, P0, P1, W, src, tgt, n - 1, src[x]);
        EndIsBack(info, P0, P1, W, src, tgt, n - 1, tgt[x]);
      }
      SameSet(P1 + Members(W[..n]), Q + {x});
    }
  }

  lemma EndIsBack(info: Info, P0: set<Ele>, P1: set<Ele>, W: seq<Ele>, src: Ends, tgt: Ends, i: nat, y: Ele)
    requires Parted(info, P0, P1, W, src, tgt) && EndsFirst(info, W) && i < |W|
    requires y in P0 && y in info && Names(info, W[i], y)
    ensures y in P1 + Members(W[..i]) && !EndMissing(info, P1 + Members(W[..i]), Some(info[y].id))
  {
    if y !in P1 {
      var j :| 0 <= j < |W| && W[j] == y;
      assert W[..i][j] == y;
    }
  }

  /** What is not in after its turn is not in later. */
  lemma {:induction false} NotAddedLater(info: Info, P0: set<Ele>, P1: set<Ele>, W: seq<Ele>, src: Ends, tgt: Ends,
                                         i: nat, n: nat)
    requires Parted(info, P0, P1, W, src, tgt) && i < n <= |W| && W[i] !in After(info, P1, W, i + 1)
    ensures W[i] !in After(info, P1, W, n)
    decreases n
  {
    if i + 1 < n {
      NotAddedLater(info, P0, P1, W, src, tgt, i, n - 1);
      TurnsOnlyAdd(info, P0, P1, W, src, tgt, n);
    }
  }

  /** An edge whose turn comes before that of its end stays out. */
  lemma EarlyStaysOut(info: Info, P0: set<Ele>, P1: set<Ele>, W: seq<Ele>, src: Ends, tgt: Ends, i: nat, j: nat)
    requires Parted(info, P0, P1, W, src, tgt) && i <= j < |W| && Names(info, W[i], W[j])
    ensures W[i] !in After(info, P1, W, |W|)
  {
    var Q := After(info, P1, W, i);
    TurnsOnlyAdd(info, P0, P1, W, src, tgt, i);
    TurnsOnlyAdd(info, P0, P1, W, src, tgt, i + 1);
    assert W[i] in Members(W) && W[j] in Members(W);
    assert W[i] !in W[..i] && W[j] !in W[..i] && Q <= P0;
    assert !HasId(info, Q, info[W[j]].id);
    NotAddedLater(info, P0, P1, W, src, tgt, i, |W|);
  }

  lemma {:induction false} NoClashOfText(info: Info, P0: set<Ele>, P1: set<Ele>, W: seq<Ele>, src: Ends, tgt: Ends)
    requires Parted(info, P0, P1, W, src, tgt)
    ensures !Clashes(Book(info, P1), W, |W|)
  {
    forall i: nat | i < |W| ensures !ClashAt(Book(info, P1), W, i) {
      TurnsOnlyAdd(info, P0, P1, W, src, tgt, i);
      assert W[i] in Members(W);
    }
  }

  /** Everything comes back exactly if every edge that is named as an end comes before those that name it. */
  lemma AllComeBackIffEndsFirst(info: Info, P0: set<Ele>, P1: set<Ele>, W: seq<Ele>, src: Ends, tgt: Ends)
    requires Parted(info, P0, P1, W, src, tgt)
    ensures After(info, P1, W, |W|) == P0 <==> EndsFirst(info, W)
  {
    assert W[..|W|] == W;
    if EndsFirst(info, W) {
      AllAreAdded(info, P0, P1, W, src, tgt, |W|);
    }
    if After(info, P1, W, |W|) == P0 {
      forall i, j | 0 <= i < |W| && 0 <= j < |W| && Names(info, W[i], W[j]) ensures j < i {
        if i <= j { EarlyStaysOut(info, P0, P1, W, src, tgt, i, j); }
        assert W[i] in Members(W);
      }
    }
  }

  lemma {:induction false} WaitingIs(info: Info, removed: set<Ele>, R: seq<Ele>, S: set<Ele>, edges: bool)
    requires (forall x :: x in R ==> x in info && x in removed && x in S) && AllDiffer(R)
    ensures Waiting(info, removed, R, edges) == Waiting(info, S, R, edges) && AllDiffer(Waiting(info, S, R, edges))
    ensures forall x :: x in Waiting(info, S, R, edges) <==> x in R && info[x].EdgeData? == edges
  {
    if R != [] {
      WaitingIs(info, removed, R[..|R| - 1], S, edges);
      assert R == R[..|R| - 1] + [R[|R| - 1]];
      assert R[|R| - 1] !in R[..|R| - 1];
    }
  }

  lemma RestoreOrderIs(info: Info, removed: set<Ele>, R: seq<Ele>)
    requires (forall x :: x in R ==> x in info && x in removed) && AllDiffer(R)
    ensures Waiting(info, removed, R, false) + Waiting(info, removed, R, true) == RestoreOrder(info, R)
    ensures AllDiffer(RestoreOrder(info, R)) && Members(RestoreOrder(info, R)) == Members(R)
  {
    var S := Members(R);
    WaitingIs(info, removed, R, S, false);
    WaitingIs(info, removed, R, S, true);
    var nodes, edges := Waiting(info, S, R, false), Waiting(info, S, R, true);
    forall x ensures x in nodes + edges <==> x in R {}
    forall i, j | 0 <= i < |nodes| && 0 <= j < |edges| ensures nodes[i] != edges[j] {
      assert nodes[i] in nodes && edges[j] in edges;
    }
  }

  /** What has come back has its ends, and what has stayed has kept them. */
  lemma BackInOrder(info: Info, P0: set<Ele>, P1: set<Ele>, W: seq<Ele>, src: Ends, tgt: Ends, src': Ends, tgt': Ends)
    requires Parted(info, P0, P1, W, src, tgt) && NewEnded(info, P1, P0, src', tgt')
      && OthersKeep(src, tgt, src', tgt', W)
    ensures AllEnded(info, P0, src', tgt')
  {
    forall e | e in P0 && IsEdge(info, e) ensures Ended(info, P0, src', tgt', e) {
      if e in P1 {
        assert Ended(info, P0, src, tgt, e);
        assert e !in Members(W) && SameEnds(src, tgt, src', tgt', e);
      }
    }
  }
}
