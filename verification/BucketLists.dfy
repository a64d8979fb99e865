/** Circular doubly linked lists with a sentinel each, sharing one pool of links: an entry sits in at most one. */
module BucketLists {
  import opened Graphs

  datatype Cell = Sentinel(i: nat) | Entry(v: Node)

  type Links = map<Cell, Cell>

  type Queues = seq<seq<Node>>

  /** The k-th cell of ring i, oldest entry first; the sentinel comes before and after the entries. */
  function Ring(q: Queues, i: nat, k: int): Cell
    requires i < |q|
  {
    if 0 < k <= |q[i]| then Entry(q[i][k - 1]) else Sentinel(i)
  }

  ghost predicate Tied(q: Queues, next: Links, prev: Links, i: nat, k: int)
    requires i < |q|
  {
    && Ring(q, i, k) in prev && prev[Ring(q, i, k)] == Ring(q, i, k + 1)
    && Ring(q, i, k + 1) in next && next[Ring(q, i, k + 1)] == Ring(q, i, k)
  }

  ghost predicate At(q: Queues, i: int, k: int, v: Node) {
    0 <= i < |q| && 0 <= k < |q[i]| && q[i][k] == v
  }

  ghost predicate Distinct(q: Queues) {
    forall i, k, j, m {:trigger q[i][k], q[j][m]} ::
      0 <= i < |q| && 0 <= k < |q[i]| && 0 <= j < |q| && 0 <= m < |q[j]| && q[i][k] == q[j][m] ==> i == j && k == m
  }

  /** The links form exactly the rings of q. */
  ghost predicate Linked(q: Queues, next: Links, prev: Links) {
    && Distinct(q)
    && (forall i, k {:trigger Tied(q, next, prev, i, k)} :: 0 <= i < |q| && 0 <= k <= |q[i]| ==>
        Tied(q, next, prev, i, k))
    && next.Keys == prev.Keys
    && (forall v {:trigger Entry(v)} :: Entry(v) in next <==> Queued(q, v))
  }

  ghost predicate Queued(q: Queues, v: Node) {
    exists i, k :: At(q, i, k, v)
  }

  // ----- the abstract queues -----

  function Cut(s: seq<Node>, k: nat): seq<Node>
    requires k < |s|
  {
    s[..k] + s[k + 1..]
  }

  function Remove(s: seq<Node>, v: Node): seq<Node> {
    if s == [] then [] else if s[0] == v then Remove(s[1..], v) else [s[0]] + Remove(s[1..], v)
  }

  /** v taken out of all queues. */
  function Without(q: Queues, v: Node): Queues {
    seq(|q|, i requires 0 <= i < |q| => Remove(q[i], v))
  }

  lemma {:induction false} RemoveNothing(s: seq<Node>, v: Node)
    requires v !in s
    ensures Remove(s, v) == s
  {
    if s != [] { RemoveNothing(s[1..], v); }
  }

  lemma {:induction false} RemoveIsCut(s: seq<Node>, k: nat)
    requires k < |s| && forall a, b :: 0 <= a < b < |s| ==> s[a] != s[b]
    ensures Remove(s, s[k]) == Cut(s, k)
  {
    if k == 0 {
      RemoveNothing(s[1..], s[0]);
    } else {
      RemoveIsCut(s[1..], k - 1);
    }
  }

  lemma CutOneQueue(q: Queues, i: nat, k: nat)
    requires Distinct(q) && i < |q| && k < |q[i]|
    ensures Without(q, q[i][k]) == q[i := Cut(q[i], k)]
  {
    var q', v := Without(q, q[i][k]), q[i][k];
    forall j | 0 <= j < |q| ensures q'[j] == q[i := Cut(q[i], k)][j] {
      if j == i { RemoveIsCut(q[i], k); } else { RemoveNothing(q[j], v); }
    }
  }

  lemma CutNothing(q: Queues, v: Node)
    requires !Queued(q, v)
    ensures Without(q, v) == q
  {
    forall j | 0 <= j < |q| ensures Remove(q[j], v) == q[j] {
      forall k | 0 <= k < |q[j]| ensures q[j][k] != v { assert !At(q, j, k, v); }
      RemoveNothing(q[j], v);
    }
  }

  lemma {:induction false} RemovedMembers(s: seq<Node>, v: Node, u: Node)
    ensures u in Remove(s, v) <==> u in s && u != v
  {
    if s != [] { RemovedMembers(s[1..], v, u); }
  }

  /** v is in queue i alone, and all others are where they were. */
  lemma MovedMembers(q: Queues, i: nat, v: Node, q': Queues)
    requires i < |q| && q' == Without(q, v)[i := Without(q, v)[i] + [v]]
    ensures forall b, u :: 0 <= b < |q| ==> (u in q'[b] <==> if u == v then b == i else u in q[b])
  {
    forall b, u | 0 <= b < |q| ensures u in q'[b] <==> if u == v then b == i else u in q[b] {
      RemovedMembers(q[b], v, u);
    }
  }

  /** The oldest of queue i is in no queue any more, and all others are where they were. */
  lemma TakenMembers(q: Queues, i: nat, q': Queues)
    requires Distinct(q) && i < |q| && q[i] != [] && q' == q[i := q[i][1..]]
    ensures forall b, u :: 0 <= b < |q| ==> (u in q'[b] <==> u != q[i][0] && u in q[b])
  {
    forall b, u | 0 <= b < |q| ensures u in q'[b] <==> u != q[i][0] && u in q[b] {
      assert q[i] == [q[i][0]] + q[i][1..];
    }
  }

  // ----- the links -----

  lemma CellsDiffer(q: Queues, i: nat, k: int, j: nat, m: int)
    requires Distinct(q) && i < |q| && j < |q| && 0 <= k <= |q[i]| && 0 <= m <= |q[j]| && (i != j || k != m)
    ensures Ring(q, i, k) != Ring(q, j, m)
  {
  }

  lemma CutIsDistinct(q: Queues, i: nat, k: nat, q': Queues)
    requires Distinct(q) && i < |q| && k < |q[i]| && q' == q[i := Cut(q[i], k)]
    ensures Distinct(q') && forall w :: Queued(q', w) <==> Queued(q, w) && w != q[i][k]
  {
    forall j, m | 0 <= j < |q'| && 0 <= m < |q'[j]| ensures At(q, j, if j == i && m >= k then m + 1 else m, q'[j][m]) {}
    forall a, b, j, m | 0 <= a < |q'| && 0 <= b < |q'[a]| && 0 <= j < |q'| && 0 <= m < |q'[j]| && q'[a][b] == q'[j][m]
      ensures a == j && b == m {
      var b0, m0 := if a == i && b >= k then b + 1 else b, if j == i && m >= k then m + 1 else m;
      assert At(q, a, b0, q'[a][b]) && At(q, j, m0, q'[j][m]);
    }
    forall w ensures Queued(q', w) <==> Queued(q, w) && w != q[i][k] {
      if Queued(q', w) {
        var j, m :| At(q', j, m, w);
        assert At(q, j, if j == i && m >= k then m + 1 else m, w);
      }
      if Queued(q, w) && w != q[i][k] {
        var j, m :| At(q, j, m, w);
        assert At(q', j, if j == i && m > k then m - 1 else m, w);
      }
    }
  }

  function NextWithout(next: Links, prev: Links, c: Cell): Links
    requires c in next && c in prev
  {
    next[prev[c] := next[c]] - {c}
  }

  lemma TiedAfterCut(q: Queues, next: Links, prev: Links, i: nat, k: nat, q': Queues, next': Links, prev': Links,
                     j: nat, m: int)
    requires Linked(q, next, prev) && i < |q| && k < |q[i]| && q' == q[i := Cut(q[i], k)]
    requires Tied(q, next, prev, i, k) && Tied(q, next, prev, i, k + 1)
    requires next' == NextWithout(next, prev, Entry(q[i][k])) && prev' == NextWithout(prev, next, Entry(q[i][k]))
    requires j < |q'| && 0 <= m <= |q'[j]|
    ensures Tied(q', next', prev', j, m)
  {
    var c := Entry(q[i][k]);
    assert c == Ring(q, i, k + 1) && prev[c] == Ring(q, i, k + 2) && next[c] == Ring(q, i, k);
    var m0 := if j == i && m > k then m + 1 else m;
    assert Ring(q', j, m) == Ring(q, j, m0);
    if j == i && m == k {
      assert Ring(q', j, m + 1) == Ring(q, j, k + 2);
    } else {
      assert Ring(q', j, m + 1) == Ring(q, j, m0 + 1);
      assert Tied(q, next, prev, j, m0);
      CellsDiffer(q, j, m0, i, k);
      CellsDiffer(q, j, m0, i, k + 1);
    }
  }

  lemma CutIsLinked(q: Queues, next: Links, prev: Links, i: nat, k: nat, q': Queues, next': Links, prev': Links)
    requires Linked(q, next, prev) && i < |q| && k < |q[i]| && q' == q[i := Cut(q[i], k)]
    requires Tied(q, next, prev, i, k) && Tied(q, next, prev, i, k + 1)
    requires next' == NextWithout(next, prev, Entry(q[i][k])) && prev' == NextWithout(prev, next, Entry(q[i][k]))
    ensures Linked(q', next', prev')
  {
    CutIsDistinct(q, i, k, q');
    forall j, m | 0 <= j < |q'| && 0 <= m <= |q'[j]| ensures Tied(q', next', prev', j, m) {
      TiedAfterCut(q, next, prev, i, k, q', next', prev', j, m);
    }
  }

  lemma TiedAfterAppend(q: Queues, next: Links, prev: Links, i: nat, v: Node, q': Queues, next': Links, prev': Links,
                        j: nat, m: int)
    requires Linked(q, next, prev) && i < |q| && !Queued(q, v) && q' == q[i := q[i] + [v]]
    requires Tied(q, next, prev, i, |q[i]|)
    requires next' == next[Entry(v) := next[Sentinel(i)]][Sentinel(i) := Entry(v)]
    requires prev' == prev[next[Sentinel(i)] := Entry(v)][Entry(v) := Sentinel(i)]
    requires j < |q'| && 0 <= m <= |q'[j]|
    ensures Tied(q', next', prev', j, m)
  {
    var n := |q[i]|;
    assert next[Sentinel(i)] == Ring(q, i, n);
    assert Entry(v) !in next;
    if j != i || m < n {
      assert Tied(q, next, prev, j, m);
      assert Ring(q', j, m) == Ring(q, j, m) && Ring(q', j, m + 1) == Ring(q, j, m + 1);
      CellsDiffer(q, j, m, i, n);
      assert Ring(q, j, m + 1) != Sentinel(i);
    } else {
      assert Ring(q', i, n) == Ring(q, i, n) && Ring(q', i, n + 1) == Entry(v) && Ring(q', i, n + 2) == Sentinel(i);
    }
  }

  lemma AppendIsLinked(q: Queues, next: Links, prev: Links, i: nat, v: Node, q': Queues, next': Links, prev': Links)
    requires Linked(q, next, prev) && i < |q| && !Queued(q, v) && q' == q[i := q[i] + [v]]
    requires Tied(q, next, prev, i, |q[i]|)
    requires next' == next[Entry(v) := next[Sentinel(i)]][Sentinel(i) := Entry(v)]
    requires prev' == prev[next[Sentinel(i)] := Entry(v)][Entry(v) := Sentinel(i)]
    ensures Linked(q', next', prev')
  {
    forall a, b, j, m | 0 <= a < |q'| && 0 <= b < |q'[a]| && 0 <= j < |q'| && 0 <= m < |q'[j]| && q'[a][b] == q'[j][m]
      ensures a == j && b == m {
      assert q'[a][b] != v ==> At(q, a, b, q'[a][b]);
      assert q'[j][m] != v ==> At(q, j, m, q'[j][m]);
      assert !(a == i && b == |q[i]|) ==> At(q, a, b, q'[a][b]);
      assert !(j == i && m == |q[i]|) ==> At(q, j, m, q'[j][m]);
    }
    forall j, m | 0 <= j < |q'| && 0 <= m <= |q'[j]| ensures Tied(q', next', prev', j, m) {
      TiedAfterAppend(q, next, prev, i, v, q', next', prev', j, m);
    }
    forall w ensures Queued(q', w) <==> Queued(q, w) || w == v {
      if Queued(q', w) {
        var j, m :| At(q', j, m, w);
        assert w != v ==> At(q, j, m, w);
      }
      if Queued(q, w) {
        var j, m :| At(q, j, m, w);
        assert At(q', j, m, w);
      }
      assert At(q', i, |q[i]|, v);
    }
  }

  lemma AddRing(q: Queues, next: Links, prev: Links, i: nat, q': Queues, next': Links, prev': Links)
    requires Linked(q, next, prev) && i == |q| && q' == q + [[]] && Sentinel(i) !in next
    requires next' == next[Sentinel(i) := Sentinel(i)] && prev' == prev[Sentinel(i) := Sentinel(i)]
    requires forall j :: 0 <= j < |q| ==> q[j] == []
    ensures Linked(q', next', prev')
  {
    forall j, m | 0 <= j < |q'| && 0 <= m <= |q'[j]| ensures Tied(q', next', prev', j, m) {
      if j < i { assert Tied(q, next, prev, j, m); }
    }
  }

  class Lists {
    var next: Links
    var prev: Links
    ghost var q: Queues

    ghost predicate Valid()
      reads this
    {
      Linked(q, next, prev)
    }

    constructor (n: nat)
      ensures Valid() && |q| == n && forall i :: 0 <= i < n ==> q[i] == []
    {
      next, prev, q := map[], map[], [];
      new;
      for i := 0 to n
        invariant Valid() && |q| == i && forall j :: 0 <= j < i ==> q[j] == []
        invariant forall c :: c in next ==> c.Sentinel? && c.i < i
      {
        ghost var q0, next0, prev0 := q, next, prev;
        next := next[Sentinel(i) := Sentinel(i)];
        prev := prev[Sentinel(i) := Sentinel(i)];
        q := q + [[]];
        AddRing(q0, next0, prev0, i, q, next, prev);
      }
    }

    /** Takes the entry out of its list. */
    method Unlink(v: Node)
      requires Valid() && Queued(q, v)
      modifies this
      ensures Valid() && q == Without(old(q), v) && !Queued(q, v) && |q| == |old(q)|
      ensures forall w :: w != v ==> (Queued(q, w) <==> Queued(old(q), w))
    {
      ghost var i: nat, k: nat :| At(q, i, k, v);
      assert Tied(q, next, prev, i, k) && Tied(q, next, prev, i, k + 1);
      ghost var q0, next0, prev0 := q, next, prev;
      CutOneQueue(q, i, k);
      CutIsDistinct(q, i, k, q[i := Cut(q[i], k)]);
      var c := Entry(v);
      next := next[prev[c] := next[c]];
      prev := prev[next[c] := prev[c]];
      next := next - {c};
      prev := prev - {c};
      q := q[i := Cut(q[i], k)];
      CutIsLinked(q0, next0, prev0, i, k, q, next, prev);
    }

    /** The entry leaves the list it is in, if any, and becomes the newest of list i. */
    method Enqueue(i: nat, v: Node)
      requires Valid() && i < |q|
      modifies this
      ensures Valid() && |q| == |old(q)| && q == Without(old(q), v)[i := Without(old(q), v)[i] + [v]]
    {
      if Entry(v) in prev && Entry(v) in next {
        Unlink(v);
      } else {
        CutNothing(q, v);
      }
      ghost var q0, next0, prev0 := q, next, prev;
      assert Tied(q, next, prev, i, |q[i]|);
      var newest := next[Sentinel(i)];
      next := next[Entry(v) := newest];
      prev := prev[newest := Entry(v)];
      next := next[Sentinel(i) := Entry(v)];
      prev := prev[Entry(v) := Sentinel(i)];
      q := q[i := q[i] + [v]];
      AppendIsLinked(q0, next0, prev0, i, v, q, next, prev);
    }

    /** Takes out the oldest entry of list i. */
    method Dequeue(i: nat) returns (r: Option<Node>)
      requires Valid() && i < |q|
      modifies this
      ensures Valid() && |q| == |old(q)|
      ensures if old(q)[i] == [] then r.None? && q == old(q)
        else r == Some(old(q)[i][0]) && q == old(q)[i := old(q)[i][1..]]
    {
      assert Tied(q, next, prev, i, 0);
      var c := prev[Sentinel(i)];
      if c == Sentinel(i) { return None; }
      assert At(q, i, 0, c.v);
      CutOneQueue(q, i, 0);
      assert Cut(q[i], 0) == q[i][1..];
      Unlink(c.v);
      r := Some(c.v);
    }
  }
}
