/** The elements of a graph, the array and the map that hold the pooled ones, and the lists of their edges. */
module Elements {
  import opened Graphs
  import opened Sums

  /** An element object; being the same object is being equal. */
  datatype Ele = Ele(ref: nat)

  /** An id: nothing usable, a text that is no number's, a number's text, or a number. */
  datatype Id = Empty | Word(k: nat) | Numeral(n: int) | Number(n: int)

  function AsText(d: Id): Id {
    if d.Number? then Numeral(d.n) else d
  }

  predicate IsText(d: Id) {
    d.Word? || d.Numeral?
  }

  /** The data of an element; an edge may lack an end. */
  datatype Data = NodeData(id: Id) | EdgeData(id: Id, source: Option<Id>, target: Option<Id>)

  function EndAsText(d: Option<Id>): Option<Id> {
    if d.Some? then Some(AsText(d.value)) else None
  }

  /** All numbers turned into text. */
  function Texted(data: Data): Data {
    match data
    case NodeData(id) => NodeData(AsText(id))
    case EdgeData(id, source, target) => EdgeData(AsText(id), EndAsText(source), EndAsText(target))
  }

  function Members(s: seq<Ele>): set<Ele> {
    set x | x in s
  }

  type Info = map<Ele, Data>

  /** What the collection's map keeps for an id. */
  datatype Slot = Slot(ele: Ele, index: nat)

  type Index = map<Id, Slot>

  ghost predicate IsNode(info: Info, x: Ele) {
    x in info && info[x].NodeData?
  }

  ghost predicate IsEdge(info: Info, x: Ele) {
    x in info && info[x].EdgeData?
  }

  // ----- the collection -----

  /** The array holds exactly the elements of P, once each, and the map is its exact inverse. */
  ghost predicate Pooled(info: Info, P: set<Ele>, pool: seq<Ele>, index: Index) {
    && (forall i :: 0 <= i < |pool| ==> pool[i] in P && pool[i] in info)
    && (forall i :: 0 <= i < |pool| ==> info[pool[i]].id in index && index[info[pool[i]].id] == Slot(pool[i], i))
    && (forall d :: d in index ==>
        index[d].index < |pool| && pool[index[d].index] == index[d].ele && info[index[d].ele].id == d)
    && (forall x :: x in P ==> x in info && info[x].id in index && index[info[x].id].ele == x)
  }

  lemma Append(info: Info, P: set<Ele>, pool: seq<Ele>, index: Index, x: Ele, P': set<Ele>, pool': seq<Ele>,
               index': Index)
    requires Pooled(info, P, pool, index) && x in info && info[x].id !in index
    requires P' == P + {x} && pool' == pool + [x] && index' == index[info[x].id := Slot(x, |pool|)]
    ensures Pooled(info, P', pool', index') && x !in P
  {
  }

  /** An element takes the place of the one with its id. */
  lemma Replace(info: Info, P: set<Ele>, pool: seq<Ele>, index: Index, x: Ele, y: Ele, i: nat, P': set<Ele>,
                pool': seq<Ele>, index': Index)
    requires Pooled(info, P, pool, index) && x in info && info[x].id in index && index[info[x].id] == Slot(y, i)
    requires P' == P - {y} + {x} && pool' == pool[i := x] && index' == index[info[x].id := Slot(x, i)]
    ensures Pooled(info, P', pool', index')
  {
    forall j | 0 <= j < |pool| && j != i ensures info[pool[j]].id != info[x].id {
      assert index[info[pool[j]].id].index == j;
    }
    forall z | z in P && z != y ensures info[z].id != info[x].id {}
  }

  function WithoutLast(pool: seq<Ele>, i: nat): seq<Ele>
    requires i < |pool|
  {
    pool[i := pool[|pool| - 1]][..|pool| - 1]
  }

  /** The last element moves into the place that is freed. */
  lemma SwapOut(info: Info, P: set<Ele>, pool: seq<Ele>, index: Index, y: Ele, i: nat, P': set<Ele>, pool': seq<Ele>,
                index': Index)
    requires Pooled(info, P, pool, index) && y in info && info[y].id in index && index[info[y].id] == Slot(y, i)
    requires P' == P - {y} && pool' == WithoutLast(pool, i)
    requires var last := pool[|pool| - 1]; var rest := index - {info[y].id};
      index' == if i == |pool| - 1 then rest else rest[info[last].id := Slot(last, i)]
    ensures Pooled(info, P', pool', index')
  {
    var last, k := pool[|pool| - 1], |pool| - 1;
    forall j | 0 <= j < |pool| && j != i ensures info[pool[j]].id != info[y].id {
      assert index[info[pool[j]].id].index == j;
    }
    forall j | 0 <= j < k ensures info[pool[j]].id != info[last].id {
      assert index[info[pool[j]].id].index == j;
    }
    forall j | 0 <= j < |pool'|
      ensures pool'[j] in P' && pool'[j] in info && info[pool'[j]].id in index'
        && index'[info[pool'[j]].id] == Slot(pool'[j], j)
    {
      assert pool'[j] == if j == i then last else pool[j];
    }
    forall x | x in P' ensures info[x].id in index' && index'[info[x].id].ele == x {
      assert info[x].id != info[y].id;
    }
    forall d | d in index'
      ensures index'[d].index < |pool'| && pool'[index'[d].index] == index'[d].ele && info[index'[d].ele].id == d {
      if d != info[last].id || i == k { assert index'[d] == index[d] && d != info[y].id; }
    }
  }

  /** The data of an element outside of the pool may change. */
  lemma PooledStill(info: Info, P: set<Ele>, pool: seq<Ele>, index: Index, x: Ele, data: Data, info': Info)
    requires Pooled(info, P, pool, index) && x in info && x !in P && info' == info[x := data]
    ensures Pooled(info', P, pool, index)
  {
  }

  // ----- the edge lists -----

  type Lists = map<Ele, seq<Ele>>

  type Ends = map<Ele, Ele>

  /** How often e ends in n: twice for a loop. */
  ghost function Degree(src: Ends, tgt: Ends, e: Ele, n: Ele): nat {
    (if e in src && src[e] == n then 1 else 0) + (if e in tgt && tgt[e] == n then 1 else 0)
  }

  /** Every element's list holds the edges of A that end in it, once for each end, and nothing else. */
  ghost predicate Listed(A: set<Ele>, lists: Lists, src: Ends, tgt: Ends) {
    forall n, e {:trigger ListedAt(A, lists, src, tgt, n, e)} :: n in lists ==> ListedAt(A, lists, src, tgt, n, e)
  }

  ghost predicate ListedAt(A: set<Ele>, lists: Lists, src: Ends, tgt: Ends, n: Ele, e: Ele) {
    n in lists && multiset(lists[n])[e] == if e in A then Degree(src, tgt, e, n) else 0
  }

  ghost predicate Ended(info: Info, P: set<Ele>, src: Ends, tgt: Ends, e: Ele) {
    && IsEdge(info, e) && e in src && e in tgt && src[e] in P && tgt[e] in P && src[e] in info && tgt[e] in info
    && info[e].source == Some(info[src[e]].id) && info[e].target == Some(info[tgt[e]].id)
  }

  /** All ends of pooled edges are pooled elements with the right ids. */
  ghost predicate AllEnded(info: Info, P: set<Ele>, src: Ends, tgt: Ends) {
    forall e {:trigger Ended(info, P, src, tgt, e)} :: e in P && IsEdge(info, e) ==> Ended(info, P, src, tgt, e)
  }

  ghost function EdgesOf(info: Info, P: set<Ele>): set<Ele> {
    set e | e in P && IsEdge(info, e)
  }

  ghost predicate AllText(info: Info, P: set<Ele>) {
    forall x :: x in P ==> x in info && IsText(info[x].id)
  }

  /** What is pooled is exactly what is not marked as removed, and stands in the right lists. */
  ghost predicate Kept(info: Info, P: set<Ele>, removed: set<Ele>, lists: Lists, src: Ends, tgt: Ends) {
    && (forall x :: x in info ==> (x in removed <==> x !in P))
    && Listed(EdgesOf(info, P), lists, src, tgt)
  }

  lemma AppendCount(s: seq<Ele>, e: Ele, f: Ele)
    ensures multiset(s + [e])[f] == multiset(s)[f] + if e == f then 1 else 0
  {
  }

  /** n's list once e has been added for each end. */
  ghost predicate Extended(lists: Lists, s: Ele, t: Ele, e: Ele, lists': Lists) {
    s in lists && t in lists && lists' == lists[s := lists[s] + [e]][t := lists[s := lists[s] + [e]][t] + [e]]
  }

  lemma AttachAt(A: set<Ele>, lists: Lists, src: Ends, tgt: Ends, e: Ele, s: Ele, t: Ele,
                 A': set<Ele>, lists': Lists, src': Ends, tgt': Ends, n: Ele, f: Ele)
    requires ListedAt(A, lists, src, tgt, n, f) && e !in A && A' == A + {e} && Extended(lists, s, t, e, lists')
    requires src' == src[e := s] && tgt' == tgt[e := t]
    ensures ListedAt(A', lists', src', tgt', n, f)
  {
    AppendCount(lists[n], e, f);
    AppendCount(lists[n] + [e], e, f);
  }

  /** An edge is entered in the lists of its ends. */
  lemma AttachEdge(A: set<Ele>, lists: Lists, src: Ends, tgt: Ends, e: Ele, s: Ele, t: Ele,
                   A': set<Ele>, lists': Lists, src': Ends, tgt': Ends)
    requires Listed(A, lists, src, tgt) && e !in A && A' == A + {e} && Extended(lists, s, t, e, lists')
    requires src' == src[e := s] && tgt' == tgt[e := t]
    ensures Listed(A', lists', src', tgt')
  {
    forall n, f | n in lists' ensures ListedAt(A', lists', src', tgt', n, f) {
      assert ListedAt(A, lists, src, tgt, n, f);
      AttachAt(A, lists, src, tgt, e, s, t, A', lists', src', tgt', n, f);
    }
  }

  /** The list without the last occurrence of e. */
  function RemoveLast(s: seq<Ele>, e: Ele): seq<Ele> {
    if s == [] then [] else if s[|s| - 1] == e then s[..|s| - 1] else RemoveLast(s[..|s| - 1], e) + [s[|s| - 1]]
  }

  lemma {:induction false} RemoveLastCount(s: seq<Ele>, e: Ele, f: Ele)
    ensures multiset(RemoveLast(s, e))[f] == multiset(s)[f] - (if e == f && e in s then 1 else 0)
    decreases |s|
  {
    if s != [] {
      var k := |s| - 1;
      assert s == s[..k] + [s[k]];
      if s[k] != e { RemoveLastCount(s[..k], e, f); }
    }
  }

  ghost predicate Reduced(lists: Lists, s: Ele, t: Ele, e: Ele, lists': Lists) {
    s in lists && t in lists &&
    lists' == lists[s := RemoveLast(lists[s], e)][t := RemoveLast(lists[s := RemoveLast(lists[s], e)][t], e)]
  }

  lemma DetachAt(A: set<Ele>, lists: Lists, src: Ends, tgt: Ends, e: Ele, s: Ele, t: Ele,
                 A': set<Ele>, lists': Lists, n: Ele, f: Ele)
    requires ListedAt(A, lists, src, tgt, n, f) && ListedAt(A, lists, src, tgt, n, e) && e in A && A' == A - {e}
    requires Reduced(lists, s, t, e, lists') && e in src && e in tgt && src[e] == s && tgt[e] == t
    ensures ListedAt(A', lists', src, tgt, n, f)
  {
    var one := RemoveLast(lists[n], e);
    RemoveLastCount(lists[n], e, f);
    RemoveLastCount(lists[n], e, e);
    RemoveLastCount(one, e, f);
    assert e in lists[n] <==> e in multiset(lists[n]);
    assert e in one <==> e in multiset(one);
  }

  /** Both ends of e are taken out of the lists. */
  lemma DetachEdge(A: set<Ele>, lists: Lists, src: Ends, tgt: Ends, e: Ele, s: Ele, t: Ele, A': set<Ele>, lists': Lists)
    requires Listed(A, lists, src, tgt) && e in A && A' == A - {e} && Reduced(lists, s, t, e, lists')
    requires e in src && e in tgt && src[e] == s && tgt[e] == t
    ensures Listed(A', lists', src, tgt)
  {
    forall n, f | n in lists' ensures ListedAt(A', lists', src, tgt, n, f) {
      assert ListedAt(A, lists, src, tgt, n, f) && ListedAt(A, lists, src, tgt, n, e);
      DetachAt(A, lists, src, tgt, e, s, t, A', lists', n, f);
    }
  }
}
