/** The store of graph elements, through restore and remove. */
module GraphStore {
  import opened Graphs
  import opened Sums
  import opened Elements
  import opened StoreTurns

  // ----- the store -----

  class Store {
    var info: Info
    var pool: seq<Ele>
    var index: Index
    var removed: set<Ele>
    var lists: Lists
    var src: Ends
    var tgt: Ends
    ghost var P: set<Ele>

    /** All elements have been made, and none has been put in yet. */
    constructor (info: Info)
      ensures Valid() && P == {} && this.info == info && removed == info.Keys
    {
      this.info, pool, index, removed, src, tgt, P := info, [], map[], info.Keys, map[], map[], {};
      lists := map x | x in info :: [];
      new;
      assert EdgesOf(info, P) == {};
      forall n, e | n in lists ensures ListedAt({}, lists, src, tgt, n, e) {}
      SameSet(lists.Keys, info.Keys);
    }

    /** What holds throughout: the pool is in order. */
    ghost predicate Sound()
      reads this
    {
      Pooled(info, P, pool, index) && AllText(info, P) && lists.Keys == info.Keys
    }

    /** The marks and the edge lists agree with the pool. */
    ghost predicate Tidy()
      reads this
    {
      Sound() && AllKept()
    }

    ghost predicate AllKept()
      reads this
    {
      Kept(info, P, removed, lists, src, tgt)
    }

    ghost predicate NoneCut()
      reads this
    {
      AllEnded(info, P, src, tgt)
    }

    /** The whole store is consistent: no pooled edge has an end that is not pooled. */
    ghost predicate Valid()
      reads this
    {
      Tidy() && NoneCut()
    }

    /** merge, for one element. */
    method AddToPool(x: Ele)
      requires x in info && Pooled(info, P, pool, index)
      modifies this`pool, this`index, this`P
      ensures Pooled(info, P, pool, index)
      ensures if info[x].id in old(index) then P == old(P) - {old(index)[info[x].id].ele} + {x}
        else P == old(P) + {x} && pool == old(pool) + [x]
    {
      var id := info[x].id;
      ghost var P0, pool0, index0 := P, pool, index;
      if id !in index {
        var i := |pool|;
        pool := pool + [x];
        index := index[id := Slot(x, i)];
        P := P + {x};
        Append(info, P0, pool0, index0, x, P, pool, index);
      } else {
        var i := index[id].index;
        pool := pool[i := x];
        index := index[id := Slot(x, i)];
        P := P - {index0[id].ele} + {x};
        Replace(info, P0, pool0, index0, x, index0[id].ele, i, P, pool, index);
      }
    }

    /** Takes out the element that has y's id. */
    method UnmergeOne(y: Ele)
      requires y in info && Pooled(info, P, pool, index)
      modifies this`pool, this`index, this`P
      ensures Pooled(info, P, pool, index)
      ensures P == if info[y].id in old(index) then old(P) - {old(index)[info[y].id].ele} else old(P)
    {
      var id := info[y].id;
      if id !in index { return; }
      ghost var P0, pool0, index0 := P, pool, index;
      var i := index[id].index;
      ghost var out := index[id].ele;
      IndexHas(info, P, pool, index, id);
      index := index - {id};
      var lastI := |pool| - 1;
      if |pool| > 1 && i != lastI {
        var lastEle := pool[lastI];
        pool := pool[i := lastEle];
        index := index[info[lastEle].id := Slot(lastEle, i)];
      }
      pool := pool[..lastI];
      P := P - {out};
      assert pool == WithoutLast(pool0, i);
      SwapOut(info, P0, pool0, index0, out, i, P, pool, index);
    }

    method FindEnd(d: Option<Id>) returns (r: Option<Ele>)
      requires Sound() == true
      ensures r.None? <==> EndMissing(info, P, d)
      ensures r.Some? ==> r.value in P && r.value in info && EndAsText(d) == Some(info[r.value].id)
    {
      if d.None? || d.value == Empty { return None; }
      IndexHas(info, P, pool, index, AsText(d.value));
      if AsText(d.value) !in index { return None; }
      r := Some(index[AsText(d.value)].ele);
    }

    /** Puts an element in whose data is text, in the place of the one with its id if there is one. */
    method PutIn(x: Ele)
      requires Sound() == true && x in info && x !in P && IsText(info[x].id)
      modifies this`removed, this`pool, this`index, this`P
      ensures Sound() == true && P == Put(info, old(P), x) && removed == old(removed) - {x}
      ensures !HasId(info, old(P), info[x].id) ==> P == old(P) + {x}
    {
      IndexHas(info, P, pool, index, info[x].id);
      if info[x].id in index { PutReplaces(info, P, pool, index, x); } else { PutIsNew(info, P, x); }
      removed := removed - {x};
      AddToPool(x);
    }

    /** x is entered in the lists of its ends. */
    method Attach(x: Ele, s: Ele, t: Ele)
      requires s in lists && t in lists
      modifies this`lists, this`src, this`tgt
      ensures Extended(old(lists), s, t, x, lists) && lists.Keys == old(lists).Keys
      ensures src == old(src)[x := s] && tgt == old(tgt)[x := t]
    {
      ghost var lists0 := lists;
      lists := lists[s := lists[s] + [x]];
      lists := lists[t := lists[t] + [x]];
      src, tgt := src[x := s], tgt[x := t];
      SameSet(lists.Keys, lists0.Keys);
    }

    method PutEdgeIn(x: Ele, s: Ele, t: Ele)
      requires Sound() == true && IsEdge(info, x) && x !in P && IsText(info[x].id) && s in P && t in P && s in info
        && t in info
      requires info[x].source == Some(info[s].id) && info[x].target == Some(info[t].id)
      modifies this`removed, this`pool, this`index, this`P, this`lists, this`src, this`tgt
      ensures Sound() == true && P == Put(info, old(P), x) && removed == old(removed) - {x}
      ensures src == old(src)[x := s] && tgt == old(tgt)[x := t]
      ensures !HasId(info, old(P), info[x].id) ==> Ended(info, P, src, tgt, x)
      ensures !HasId(info, old(P), info[x].id) && old(AllKept()) ==> AllKept()
      ensures !HasId(info, old(P), info[x].id) && old(NoneCut()) ==> NoneCut()
    {
      ghost var P0, removed0, lists0, src0, tgt0 := P, removed, lists, src, tgt;
      Attach(x, s, t);
      PutIn(x);
      if !HasId(info, P0, info[x].id) {
        RestoredEdge(info, P0, removed0, lists0, src0, tgt0, x, s, t, P, removed, lists, src, tgt);
      }
    }

    method PutNodeIn(x: Ele)
      requires Sound() == true && IsNode(info, x) && x !in P && IsText(info[x].id)
      modifies this`removed, this`pool, this`index, this`P
      ensures Sound() == true && P == Put(info, old(P), x) && removed == old(removed) - {x}
      ensures !HasId(info, old(P), info[x].id) ==> (old(AllKept()) ==> AllKept()) && (old(NoneCut()) ==> NoneCut())
    {
      ghost var P0, removed0 := P, removed;
      PutIn(x);
      if !HasId(info, P0, info[x].id) { RestoredNode(info, P0, removed0, lists, src, tgt, x, P, removed); }
    }

    /** Turns the data into text. */
    method TextIt(x: Ele)
      requires Sound() == true && x in info && x !in P
      modifies this`info
      ensures Sound() == true && info == old(info)[x := Texted(old(info)[x])]
      ensures (old(AllKept()) ==> AllKept()) && (old(NoneCut()) ==> NoneCut())
      ensures forall d :: HasId(info, P, d) <==> HasId(old(info), P, d)
    {
      ghost var info0 := info;
      info := info[x := Texted(info[x])];
      PooledStill(info0, P, pool, index, x, Texted(info0[x]), info);
      TextedKeeps(info0, P, removed, lists, src, tgt, x, info);
    }

    /** Puts an edge in unless an end of it is missing. All is text by now. */
    method TryEdge(x: Ele) returns (restored: bool)
      requires Sound() == true && IsEdge(info, x) && x !in P && info[x] == Texted(info[x]) && IsText(info[x].id)
      modifies this`removed, this`pool, this`index, this`P, this`lists, this`src, this`tgt
      ensures Sound() == true && restored == !BadEnds(info, old(P), info[x])
      ensures removed == if restored then old(removed) - {x} else old(removed)
      ensures P == if restored then Put(info, old(P), x) else old(P)
      ensures KeepEnds(old(src), old(tgt), src, tgt, x, restored)
      ensures restored && !HasId(info, old(P), info[x].id) ==> Ended(info, P, src, tgt, x)
      ensures !restored || !HasId(info, old(P), info[x].id) ==> old(AllKept()) ==> AllKept()
      ensures !restored || !HasId(info, old(P), info[x].id) ==> old(NoneCut()) ==> NoneCut()
    {
      var s := FindEnd(info[x].source);
      var t := FindEnd(info[x].target);
      if s.None? || t.None? { return false; }
      OthersKeepEnds(src, tgt, x, s.value, t.value);
      PutEdgeIn(x, s.value, t.value);
      restored := true;
    }

    /** The same for any element; a node has no ends. */
    method PutUnlessBad(x: Ele) returns (restored: bool)
      requires Sound() == true && x in info && x !in P && info[x] == Texted(info[x]) && IsText(info[x].id)
      modifies this`removed, this`pool, this`index, this`P, this`lists, this`src, this`tgt
      ensures Sound() == true && restored == !BadEnds(info, old(P), info[x])
      ensures removed == if restored then old(removed) - {x} else old(removed)
      ensures P == if restored then Put(info, old(P), x) else old(P)
      ensures KeepEnds(old(src), old(tgt), src, tgt, x, restored)
      ensures restored && IsEdge(info, x) && !HasId(info, old(P), info[x].id) ==> Ended(info, P, src, tgt, x)
      ensures !restored || !HasId(info, old(P), info[x].id) ==> old(AllKept()) ==> AllKept()
      ensures !restored || !HasId(info, old(P), info[x].id) ==> old(NoneCut()) ==> NoneCut()
    {
      if info[x].EdgeData? {
        restored := TryEdge(x);
      } else {
        PutNodeIn(x);
        restored := true;
      }
    }

    /** The turn of an element whose id is not bad. */
    method RestoreWith(x: Ele) returns (restored: bool)
      requires Sound() == true && x in info && !BadId(info, P, info[x].id)
      modifies this
      ensures Sound() == true && Book(info, P) == Turn(Book(old(info), old(P)), x)
        && restored == !Refused(old(info), old(P), x)
      ensures removed == if restored then old(removed) - {x} else old(removed)
      ensures KeepEnds(old(src), old(tgt), src, tgt, x, restored)
      ensures !Clash(old(info), old(P), x) ==> (old(AllKept()) ==> AllKept()) && (old(NoneCut()) ==> NoneCut())
      ensures !Clash(old(info), old(P), x) && restored && IsEdge(info, x) ==> Ended(info, P, src, tgt, x)
    {
      ghost var info0, P0 := info, P;
      TextIt(x);
      TextedTurn(info0, P0, x, info);
      restored := PutUnlessBad(x);
    }

    /** Puts one element in, unless it is refused. The store stays in order exactly unless the id is a number
        whose text is taken. */
    method RestoreOne(x: Ele) returns (restored: bool)
      requires Sound() && x in info
      modifies this
      ensures Sound() && Book(info, P) == Turn(Book(old(info), old(P)), x) && restored == !Refused(old(info), old(P), x)
      ensures removed == if restored then old(removed) - {x} else old(removed)
      ensures KeepEnds(old(src), old(tgt), src, tgt, x, restored)
      ensures old(Tidy()) ==> (Tidy() <==> !Clash(old(info), old(P), x))
      ensures old(Valid()) ==> (Valid() <==> !Clash(old(info), old(P), x))
      ensures !Clash(old(info), old(P), x) && restored && IsEdge(info, x) ==> Ended(info, P, src, tgt, x)
    {
      IndexHas(info, P, pool, index, info[x].id);
      if info[x].id == Empty { return false; }
      if !info[x].id.Number? && info[x].id in index { return false; }
      ghost var info0, P0, removed0 := info, P, removed;
      ghost var tidy := Tidy();
      restored := RestoreWith(x);
      if tidy && Clash(info0, P0, x) {
        ghost var y := ClashLoses(info0, P0, removed0, x, Book(info, P), removed);
      }
    }

    /** After the first i turns the store is in order exactly if none of them was a clash. Below it is equated with
        true, so that the verifier takes it whole and does not go through its parts one by one. */
    ghost predicate TurnedBy(b: Book, elements: seq<Ele>, i: nat, valid: bool)
      requires i <= |elements|
      reads this
    {
      && Sound() && Book(info, P) == Turns(b, elements, i)
      && (!Clashes(b, elements, i) ==>
          AllKept() && (valid ==> NoneCut()) && NewEnded(info, b.P, P, src, tgt))
      && (Clashes(b, elements, i) ==> exists y :: Lost(info, P, removed, y))
    }

    method TakeTurn(ghost b: Book, elements: seq<Ele>, i: nat, ghost valid: bool, ghost src0: Ends, ghost tgt0: Ends)
      requires i < |elements| && elements[i] in info && TurnedBy(b, elements, i, valid) == true
      requires OthersKeep(src0, tgt0, src, tgt, elements)
      modifies this
      ensures TurnedBy(b, elements, i + 1, valid) && info.Keys == old(info).Keys
      ensures OthersKeep(src0, tgt0, src, tgt, elements)
    {
      ghost var info1, P1, removed1, src1, tgt1 := info, P, removed, src, tgt;
      var x := elements[i];
      MoreClashes(b, elements, i);
      assert ClashAt(b, elements, i) == Clash(info, P, x);
      assert x in elements;
      var restored := RestoreOne(x);
      SameSet(info.Keys, info1.Keys);
      OthersStillKeep(src0, tgt0, src1, tgt1, src, tgt, elements, x, restored);
      if Clashes(b, elements, i) {
        ghost var y :| Lost(info1, P1, removed1, y);
        LostStaysLost(info1, P1, removed1, x, Book(info, P), removed, y);
      } else if Clash(info1, P1, x) {
        ghost var y := ClashLoses(info1, P1, removed1, x, Book(info, P), removed);
      } else {
        NewEndedGrows(info1, b.P, P1, src1, tgt1, x, restored, info, P, src, tgt);
      }
    }

    /** The store stays in order exactly if no turn was a clash. */
    lemma OrderIffNoClash(b: Book, elements: seq<Ele>, valid: bool)
      requires TurnedBy(b, elements, |elements|, valid)
      ensures Tidy() <==> !Clashes(b, elements, |elements|)
      ensures Tidy() ==> NewEnded(info, b.P, P, src, tgt)
      ensures valid ==> (Valid() <==> !Clashes(b, elements, |elements|))
    {
      if Clashes(b, elements, |elements|) {
        var y :| Lost(info, P, removed, y);
      }
    }

    /** The turns one after the other. */
    method RestoreAll(elements: seq<Ele>)
      requires Tidy() && forall x :: x in elements ==> x in info
      modifies this
      ensures TurnedBy(Book(old(info), old(P)), elements, |elements|, old(Valid())) == true
      ensures OthersKeep(old(src), old(tgt), src, tgt, elements)
    {
      ghost var b, src0, tgt0, valid := Book(info, P), src, tgt, Valid();
      for i := 0 to |elements|
        invariant TurnedBy(b, elements, i, valid) == true && info.Keys == b.info.Keys
        invariant OthersKeep(src0, tgt0, src, tgt, elements)
      {
        assert elements[i] in elements;
        TakeTurn(b, elements, i, valid, src0, tgt0);
      }
    }

    /** Puts the removed ones among these elements in, nodes first. The store stays in order exactly if none of
        them comes while its id is a number whose text is taken. */
    method Restore(self: seq<Ele>)
      requires Tidy() && forall x :: x in self ==> x in info
      modifies this
      ensures Sound() && Book(info, P) == Turns(Book(old(info), old(P)), old(InOrder(self)), |old(InOrder(self))|)
      ensures Tidy() <==> !Clashes(Book(old(info), old(P)), old(InOrder(self)), |old(InOrder(self))|)
      ensures old(Valid()) ==>
        (Valid() <==> !Clashes(Book(old(info), old(P)), old(InOrder(self)), |old(InOrder(self))|))
      ensures Tidy() ==> NewEnded(info, old(P), P, src, tgt)
      ensures OthersKeep(old(src), old(tgt), src, tgt, old(InOrder(self)))
    {
      var nodes, edges := SplitRemoved(self);
      WaitingMembers(info, removed, self, false);
      WaitingMembers(info, removed, self, true);
      ghost var b, valid := Book(info, P), Valid();
      RestoreAll(nodes + edges);
      OrderIffNoClash(b, nodes + edges, valid);
    }

    ghost function InOrder(self: seq<Ele>): seq<Ele>
      requires forall x :: x in self ==> x in info
      reads this
    {
      Waiting(info, removed, self, false) + Waiting(info, removed, self, true)
    }

    /** The removed nodes, and the removed edges, among these elements. */
    method SplitRemoved(self: seq<Ele>) returns (nodes: seq<Ele>, edges: seq<Ele>)
      requires forall x :: x in self ==> x in info
      ensures nodes == Waiting(info, removed, self, false) && edges == Waiting(info, removed, self, true)
    {
      nodes, edges := [], [];
      for i := 0 to |self|
        invariant nodes == Waiting(info, removed, self[..i], false) && edges == Waiting(info, removed, self[..i], true)
      {
        assert self[..i + 1][..i] == self[..i];
        if self[i] in removed {
          if info[self[i]].NodeData? { nodes := nodes + [self[i]]; } else { edges := edges + [self[i]]; }
        }
      }
      assert self[..|self|] == self;
    }

    /** Adds e to what is to be removed, once. */
    method Mark(e: Ele, R: seq<Ele>) returns (R': seq<Ele>)
      ensures R' == WithEdge(R, e)
    {
      if e in R { R' := R; } else { R' := [e] + R; }
    }

    /** Adds x, and with a node all its edges; edges go to the front. */
    method MarkWithEdges(x: Ele, R: seq<Ele>) returns (R': seq<Ele>)
      requires Sound() && x in info
      ensures R' == WithOne(info, lists, R, x)
    {
      if x in R { return R; }
      if info[x].EdgeData? {
        R' := [x] + R;
      } else {
        R' := R + [x];
        var edges := lists[x];
        for i := 0 to |edges|
          invariant R' == WithEdges(R + [x], edges, i)
        {
          R' := Mark(edges[i], R');
        }
      }
    }

    /** What goes when the elements of S go: they and the edges that end in nodes among them. */
    ghost function Closure(S: set<Ele>): set<Ele>
      reads this
    {
      S + Incident(info, P, src, tgt, S)
    }

    method MarkAll(self: seq<Ele>) returns (R: seq<Ele>)
      requires Tidy() && forall x :: x in self ==> x in info
      ensures R == ToRemove(info, lists, self, |self|)
      ensures AllDiffer(R) && Members(R) == Closure(Members(self))
    {
      R := [];
      for i := 0 to |self|
        invariant R == ToRemove(info, lists, self, i)
      {
        R := MarkWithEdges(self[i], R);
      }
      RemovalIsClosure(info, P, lists, src, tgt, self, |self|);
      assert self[..|self|] == self;
    }

    method RemoveFromPool(R: seq<Ele>)
      requires Pooled(info, P, pool, index) && forall x :: x in R ==> x in P
      requires forall i, j :: 0 <= i < j < |R| ==> R[i] != R[j]
      modifies this`pool, this`index, this`P
      ensures Pooled(info, P, pool, index) && forall x :: x in P <==> x in old(P) && x !in R
    {
      ghost var P0 := P;
      for i := 0 to |R|
        invariant Pooled(info, P, pool, index) && forall x :: x in P <==> x in P0 && x !in R[..i]
      {
        assert R[..i + 1] == R[..i] + [R[i]];
        assert R[i] in R && R[i] in P;
        UnmergeOne(R[i]);
      }
      assert R[..|R|] == R;
    }

    /** Marks the elements as removed and takes the edges among them out of the lists of their ends. */
    method DetachAll(R: seq<Ele>, ghost P0: set<Ele>)
      requires (forall x :: x in R ==> x in P0) && AllEnded(info, P0, src, tgt)
        && Listed(EdgesOf(info, P0), lists, src, tgt)
      requires (forall x :: x in P0 ==> x in info) && lists.Keys == info.Keys
      requires forall i, j :: 0 <= i < j < |R| ==> R[i] != R[j]
      modifies this`removed, this`lists
      ensures forall x :: x in removed <==> x in old(removed) || x in R
      ensures Listed(EdgesOf(info, P0) - Members(R), lists, src, tgt) && lists.Keys == info.Keys
    {
      ghost var A := EdgesOf(info, P0);
      assert A - Members(R[..0]) == A;
      for i := 0 to |R|
        invariant forall x :: x in removed <==> x in old(removed) || x in R[..i]
        invariant Listed(A - Members(R[..i]), lists, src, tgt) && lists.Keys == info.Keys
      {
        var e := R[i];
        assert R[..i + 1] == R[..i] + [e] && e in R && e !in R[..i];
        ghost var A1, A2 := A - Members(R[..i]), A - Members(R[..i + 1]);
        removed := removed + {e};
        if info[e].EdgeData? {
          assert Ended(info, P0, src, tgt, e);
          ghost var lists0 := lists;
          lists := lists[src[e] := RemoveLast(lists[src[e]], e)];
          lists := lists[tgt[e] := RemoveLast(lists[tgt[e]], e)];
          SameSet(lists.Keys, lists0.Keys);
          SameSet(A2, A1 - {e});
          DetachEdge(A1, lists0, src, tgt, e, src[e], tgt[e], A2, lists);
        } else {
          SameSet(A2, A1);
        }
      }
      assert R[..|R|] == R;
    }

    /** Takes these out of the pool and of the lists. */
    method TakeOut(R: seq<Ele>)
      requires Valid() && (forall x :: x in R ==> x in P) && AllDiffer(R)
      modifies this`pool, this`index, this`P, this`removed, this`lists
      ensures Tidy() && P == old(P) - Members(R)
    {
      ghost var P0, removed0, gone := P, removed, Members(R);
      RemoveFromPool(R);
      SameSet(P, P0 - gone);
      DetachAll(R, P0);
      SameSet(EdgesOf(info, P), EdgesOf(info, P0) - gone);
      StillKept(info, P0, removed0, P, removed, R, lists, src, tgt);
    }

    /** Takes pooled elements out, with the edges at the nodes among them. The store stays consistent exactly if no
        edge that goes is named as an end by an edge that stays. */
    method Remove(self: seq<Ele>) returns (R: seq<Ele>)
      requires Valid() && forall x :: x in self ==> x in P
      modifies this`pool, this`index, this`P, this`removed, this`lists
      ensures R == ToRemove(info, old(lists), self, |self|) && Members(R) == old(Closure(Members(self)))
      ensures AllDiffer(R) && P == old(P) - Members(R) && Tidy()
      ensures Valid() <==> !LeavesNamed(info, old(P), R)
    {
      R := MarkAll(self);
      ghost var P0, S := P, Members(self);
      PooledIdsDiffer(info, P, pool, index);
      forall x | x in R ensures x in P { assert x in Members(R); }
      TakeOut(R);
      CutIffNamed(info, P0, src, tgt, S, R, P);
    }
  }

  /** Restoring what was removed gives back the pool, element for element, exactly if the edges that are named as
      ends come before those that name them. */
  method RemoveThenRestore(s: Store, self: seq<Ele>) returns (R: seq<Ele>)
    requires s.Valid() && forall x :: x in self ==> x in s.P
    modifies s
    ensures R == ToRemove(old(s.info), old(s.lists), self, |self|) && s.Tidy() && s.info == old(s.info)
    ensures forall x :: x in R ==> x in s.info
    ensures s.P == old(s.P) <==> EndsFirst(s.info, RestoreOrder(s.info, R))
    ensures s.P == old(s.P) ==> s.Valid()
  {
    ghost var info, P0, src0, tgt0 := s.info, s.P, s.src, s.tgt;
    PooledIdsDiffer(info, P0, s.pool, s.index);
    R := s.Remove(self);
    forall x | x in R ensures x in P0 && x in info && x in s.removed { assert x in Members(R); }
    ghost var P1, W := s.P, RestoreOrder(info, R);
    RestoreOrderIs(info, s.removed, R);
    assert Parted(info, P0, P1, W, src0, tgt0);
    NoClashOfText(info, P0, P1, W, src0, tgt0);
    AllComeBackIffEndsFirst(info, P0, P1, W, src0, tgt0);
    TurnsOnlyAdd(info, P0, P1, W, src0, tgt0, |W|);
    s.Restore(R);
    if s.P == P0 { BackInOrder(info, P0, P1, W, src0, tgt0, s.src, s.tgt); }
  }

  // ----- stores that do not stay in order -----

  /** x is text throughout, its id is free, and its ends are there. */
  ghost predicate Joins(info: Info, P: set<Ele>, x: Ele) {
    x in info && Texted(info[x]) == info[x] && !Refused(info, P, x)
  }

  method Join(s: Store, x: Ele)
    requires s.Valid() && Joins(s.info, s.P, x)
    modifies s
    ensures s.Valid() && s.info == old(s.info) && s.P == old(s.P) + {x} && s.removed == old(s.removed) - {x}
  {
    assert AsText(s.info[x].id) == s.info[x].id && s.info[x := s.info[x]] == s.info;
    PutIsNew(s.info, s.P, x);
    var restored := s.RestoreOne(x);
  }

  /** The number 5 as an id takes the place of the text "5"; the element that had it is neither pooled nor marked. */
  method NumberTakesPlace(x: Ele, y: Ele) returns (s: Store)
    requires x != y
    ensures s.P == {x} && y in s.info && y !in s.removed && !s.Tidy()
  {
    s := new Store(map[x := NodeData(Number(5)), y := NodeData(Numeral(5))]);
    Join(s, y);
    assert s.P == {y} && y !in s.removed;
    assert HasId(s.info, s.P, Numeral(5));
    var restored := s.RestoreOne(x);
    assert s.P == {x};
  }

  ghost predicate IsThree(info: Info, a: Ele, f: Ele, e: Ele) {
    && info.Keys == {a, f, e} && info[a] == NodeData(Word(0))
      && info[f] == EdgeData(Word(1), Some(Word(0)), Some(Word(0)))
    && info[e] == EdgeData(Word(2), Some(Word(1)), Some(Word(0)))
  }

  lemma ThreeJoin(info: Info, a: Ele, f: Ele, e: Ele)
    requires a != f && a != e && f != e && IsThree(info, a, f, e)
    ensures Joins(info, {}, a) && Joins(info, {a}, f) && Joins(info, {a, f}, e)
  {
    assert info[a].id == Word(0) && info[f].id == Word(1);
    assert HasId(info, {a}, Word(0)) && HasId(info, {a, f}, Word(0)) && HasId(info, {a, f}, Word(1));
  }

  /** A node, a loop f at it, and an edge e that leads from f to the node: all three are taken. */
  method WithEdgeAtEdge(a: Ele, f: Ele, e: Ele) returns (s: Store)
    requires a != f && a != e && f != e
    ensures fresh(s) && s.Valid() && s.P == {a, f, e} && IsThree(s.info, a, f, e)
  {
    s := new Store(map[a := NodeData(Word(0)), f := EdgeData(Word(1), Some(Word(0)), Some(Word(0))),
                       e := EdgeData(Word(2), Some(Word(1)), Some(Word(0)))]);
    ThreeJoin(s.info, a, f, e);
    Join(s, a);
    SameSet(s.P, {a});
    Join(s, f);
    SameSet(s.P, {a, f});
    Join(s, e);
    SameSet(s.P, {a, f, e});
  }

  lemma SourceIs(info: Info, P: set<Ele>, src: Ends, tgt: Ends, a: Ele, f: Ele, e: Ele)
    requires a != f && a != e && f != e && IsThree(info, a, f, e) && P == {a, f, e} && AllEnded(info, P, src, tgt)
    ensures e in src && src[e] == f
  {
    assert Ended(info, P, src, tgt, e);
  }

  /** Removing the edge f leaves e in the pool, with an end that is not. */
  method EdgeLosesEnd(a: Ele, f: Ele, e: Ele) returns (s: Store)
    requires a != f && a != e && f != e
    ensures s.P == {a, e} && e in s.src && s.src[e] == f && s.Tidy() && !s.Valid()
  {
    s := WithEdgeAtEdge(a, f, e);
    SourceIs(s.info, s.P, s.src, s.tgt, a, f, e);
    ghost var info, P0 := s.info, s.P;
    OneEdgeGoes(info, s.lists, f);
    var R := s.Remove([f]);
    assert R == [f] && Members(R) == {f};
    LessOne(a, f, e);
    assert Names(info, e, f) && LeavesNamed(info, P0, R);
  }

  lemma LessOne(a: Ele, f: Ele, e: Ele)
    requires a != f && f != e
    ensures {a, f, e} - {f} == {a, e}
  {
  }

  lemma OneEdgeGoes(info: Info, lists: Lists, f: Ele)
    requires IsEdge(info, f)
    ensures ToRemove(info, lists, [f], 1) == [f]
  {
    assert ToRemove(info, lists, [f], 0) == [];
  }

  lemma OneEdgeWaits(info: Info, S: set<Ele>, f: Ele, edges: bool)
    requires IsEdge(info, f) && f in S
    ensures Waiting(info, S, [f], edges) == if edges then [f] else []
  {
    assert [f][..0] == [] && Waiting(info, S, [f][..0], edges) == [];
  }

  lemma TwoEdgesWait(info: Info, S: set<Ele>, f: Ele, g: Ele, edges: bool)
    requires IsEdge(info, f) && IsEdge(info, g) && f in S && g in S
    ensures Waiting(info, S, [g, f], edges) == if edges then [g, f] else []
  {
    OneEdgeWaits(info, S, g, edges);
    assert [g, f][..1] == [g] && Waiting(info, S, [g, f][..1], edges) == if edges then [g] else [];
  }

  /** The edge that is marked last comes first. */
  lemma TwoEdgesGo(info: Info, lists: Lists, f: Ele, g: Ele)
    requires IsEdge(info, f) && IsEdge(info, g) && f != g
    ensures ToRemove(info, lists, [f, g], 2) == [g, f] && RestoreOrder(info, [g, f]) == [g, f]
  {
    assert ToRemove(info, lists, [f, g], 0) == [] && ToRemove(info, lists, [f, g], 1) == [f];
    TwoEdgesWait(info, Members([g, f]), f, g, false);
    TwoEdgesWait(info, Members([g, f]), f, g, true);
  }

  /** Removing f before e puts e in front, and so it is refused when both are restored; the other way round both
      come back. */
  method OrderDecides(a: Ele, f: Ele, e: Ele, edgeFirst: bool) returns (s: Store)
    requires a != f && a != e && f != e
    ensures s.P == {a, f, e} <==> edgeFirst
  {
    s := WithEdgeAtEdge(a, f, e);
    var self := if edgeFirst then [e, f] else [f, e];
    ghost var info := s.info;
    TwoEdgesGo(info, s.lists, self[0], self[1]);
    var R := RemoveThenRestore(s, self);
    assert R == [self[1], self[0]];
    NamedAfter(info, a, f, e, R);
  }

  lemma NamedAfter(info: Info, a: Ele, f: Ele, e: Ele, W: seq<Ele>)
    requires a != f && a != e && f != e && IsThree(info, a, f, e) && (W == [f, e] || W == [e, f])
    ensures EndsFirst(info, W) <==> W == [f, e]
  {
    assert Names(info, e, f) && !Names(info, f, e) && !Names(info, f, f) && !Names(info, e, e);
    assert W == [e, f] ==> Names(info, W[0], W[1]);
  }
}
