/** The indexed binary heap: a priority queue that can lower the priority of a key it holds. */
module PriorityQueues {
  import opened Graphs
  import opened Walks

  datatype Entry = Entry(key: Node, priority: Dist)

  type Indices = map<Node, nat>

  /** idx is the exact inverse of the array. */
  ghost predicate Indexed(arr: seq<Entry>, idx: Indices) {
    && (forall i :: 0 <= i < |arr| ==> arr[i].key in idx && idx[arr[i].key] == i)
    && (forall k :: k in idx ==> idx[k] < |arr| && arr[idx[k]].key == k)
  }

  /** The place i > 0 is in order with its parent i / 2. The root is its own child 0. */
  ghost predicate InOrder(arr: seq<Entry>, i: int) {
    0 < i < |arr| ==> !Less(arr[i].priority, arr[i / 2].priority)
  }

  ghost predicate Heap(arr: seq<Entry>) {
    forall i {:trigger InOrder(arr, i)} :: InOrder(arr, i)
  }

  /** What the queue holds. */
  ghost function Held(arr: seq<Entry>, idx: Indices): map<Node, Dist> {
    map k | k in idx && idx[k] < |arr| :: arr[idx[k]].priority
  }

  lemma {:induction false} RootIsLeast(arr: seq<Entry>, i: nat)
    requires Heap(arr) && i < |arr|
    ensures !Less(arr[i].priority, arr[0].priority)
  {
    if i > 0 {
      assert InOrder(arr, i);
      RootIsLeast(arr, i / 2);
    }
  }

  function Exchanged(arr: seq<Entry>, i: nat, j: nat): seq<Entry>
    requires i < |arr| && j < |arr|
  {
    arr[i := arr[j]][j := arr[i]]
  }

  function Reindexed(arr: seq<Entry>, idx: Indices, i: nat, j: nat): Indices
    requires i < |arr| && j < |arr|
  {
    idx[arr[j].key := i][arr[i].key := j]
  }

  lemma ExchangeKeepsIndices(arr: seq<Entry>, idx: Indices, i: nat, j: nat)
    requires Indexed(arr, idx) && i < |arr| && j < |arr|
    ensures Indexed(Exchanged(arr, i, j), Reindexed(arr, idx, i, j))
    ensures Held(Exchanged(arr, i, j), Reindexed(arr, idx, i, j)) == Held(arr, idx)
  {
    var arr', idx' := Exchanged(arr, i, j), Reindexed(arr, idx, i, j);
    forall k ensures k in idx' <==> k in idx {}
    forall k | k in idx ensures idx'[k] < |arr'| && arr'[idx'[k]] == arr[idx[k]] {
      assert arr[idx[k]].key == k;
    }
    forall m | 0 <= m < |arr'| ensures arr'[m].key in idx' && idx'[arr'[m].key] == m {
      assert m != i && m != j ==> arr'[m] == arr[m];
    }
  }

  /** In order everywhere but at place i, whose children are in order with its parent. */
  ghost predicate HeapButAt(arr: seq<Entry>, i: nat) {
    && (forall j {:trigger InOrder(arr, j)} :: j != i ==> InOrder(arr, j))
    && (forall j {:trigger SkipsUp(arr, j, i)} :: SkipsUp(arr, j, i))
  }

  /** In order everywhere but at the children of place i, which are in order with its parent. */
  ghost predicate HeapButBelow(arr: seq<Entry>, i: nat) {
    && (forall j {:trigger InOrder(arr, j)} :: j / 2 != i || j == i ==> InOrder(arr, j))
    && (forall j {:trigger SkipsUp(arr, j, i)} :: SkipsUp(arr, j, i))
  }

  /** If j is a child of i, it is in order with i's parent. */
  ghost predicate SkipsUp(arr: seq<Entry>, j: int, i: int) {
    0 < i < j < |arr| && j / 2 == i ==> !Less(arr[j].priority, arr[i / 2].priority)
  }

  /** Place i has been exchanged with its parent, which was not smaller. */
  lemma SiftUp(arr: seq<Entry>, i: nat, p: nat, arr': seq<Entry>)
    requires 0 < i < |arr| && p == i / 2 && HeapButAt(arr, i) && !Less(arr[p].priority, arr[i].priority)
    requires arr' == Exchanged(arr, i, p)
    ensures HeapButAt(arr', p)
  {
    assert forall j :: 0 <= j < |arr| && j != i && j != p ==> arr'[j] == arr[j];
    forall j | j != p ensures InOrder(arr', j) {
      assert j != i ==> InOrder(arr, j);
      assert SkipsUp(arr, j, i);
    }
    forall j ensures SkipsUp(arr', j, p) {
      assert InOrder(arr, p);
      assert j != i ==> InOrder(arr, j);
    }
  }

  /** Place i has been exchanged with its smallest child. */
  lemma SiftDown(arr: seq<Entry>, i: nat, m: nat, arr': seq<Entry>)
    requires i < m < |arr| && m / 2 == i && HeapButBelow(arr, i) && Less(arr[m].priority, arr[i].priority)
    requires forall j :: i < j < |arr| && j / 2 == i ==> !Less(arr[j].priority, arr[m].priority)
    requires arr' == Exchanged(arr, i, m)
    ensures HeapButBelow(arr', m)
  {
    assert forall j :: 0 <= j < |arr| && j != i && j != m ==> arr'[j] == arr[j];
    forall j | j / 2 != m || j == m ensures InOrder(arr', j) {
      if 0 < j < |arr| {
        assert j / 2 != i || j == i ==> InOrder(arr, j);
        assert SkipsUp(arr, m, i);
      }
    }
    forall j ensures SkipsUp(arr', j, m) {
      assert j / 2 == m && j > m ==> InOrder(arr, j);
    }
  }

  datatype Outcome = Done | GreaterThanCurrent(current: Dist, proposed: Dist)

  class PriorityQueue {
    var arr: seq<Entry>
    var keyIndices: Indices

    ghost predicate Valid()
      reads this
    {
      Indexed(arr, keyIndices) && Heap(arr)
    }

    ghost function Contents(): map<Node, Dist>
      reads this
    {
      Held(arr, keyIndices)
    }

    constructor ()
      ensures Valid() && Contents() == map[]
    {
      arr, keyIndices := [], map[];
    }

    method Size() returns (n: nat)
      requires Valid()
      ensures n == |Contents()|
    {
      n := |arr|;
      HeldKeys(arr, keyIndices);
    }

    method Has(key: Node) returns (b: bool)
      requires Valid()
      ensures b <==> key in Contents()
    {
      b := key in keyIndices;
    }

    method Priority(key: Node) returns (p: Option<Dist>)
      requires Valid()
      ensures p == if key in Contents() then Some(Contents()[key]) else None
    {
      if key in keyIndices {
        p := Some(arr[keyIndices[key]].priority);
      } else {
        p := None;
      }
    }

    method Min() returns (r: Option<Node>)
      requires Valid()
      ensures r.None? <==> Contents() == map[]
      ensures r.Some? ==> IsLeast(Contents(), r.value)
    {
      if |arr| == 0 {
        r := None;
      } else {
        r := Some(arr[0].key);
        RootIsHeldLeast(arr, keyIndices);
      }
    }

    /** A key that is already there keeps its priority. */
    method Add(key: Node, priority: Dist) returns (added: bool)
      requires Valid()
      modifies this
      ensures Valid() && added == (key !in old(Contents()))
      ensures Contents() == if added then old(Contents())[key := priority] else old(Contents())
    {
      added := key !in keyIndices;
      if added {
        ghost var arr0, idx0 := arr, keyIndices;
        var index := |arr|;
        keyIndices := keyIndices[key := index];
        arr := arr + [Entry(key, priority)];
        AppendHeld(arr0, idx0, key, priority, arr, keyIndices);
        DecreaseAt(index);
      }
    }

    method RemoveMin() returns (key: Node)
      requires Valid() && Contents() != map[]
      modifies this
      ensures Valid() && IsLeast(old(Contents()), key) && Contents() == old(Contents()) - {key}
    {
      RootIsHeldLeast(arr, keyIndices);
      ghost var arr0 := arr;
      Swap(0, |arr| - 1);
      ghost var arr1, idx1 := arr, keyIndices;
      var min := arr[|arr| - 1];
      arr := arr[..|arr| - 1];
      keyIndices := keyIndices - {min.key};
      PopHeld(arr1, idx1, min, arr, keyIndices);
      PopKeepsHeap(arr0, arr1, arr);
      if |arr| > 0 { Heapify(0); }
      key := min.key;
    }

    /** A greater priority is refused. */
    method Decrease(key: Node, priority: Dist) returns (o: Outcome)
      requires Valid() && key in Contents()
      modifies this
      ensures Valid()
      ensures o.Done? <==> !Less(old(Contents())[key], priority)
      ensures Contents() == if o.Done? then old(Contents())[key := priority] else old(Contents())
    {
      var index := keyIndices[key];
      if Less(arr[index].priority, priority) {
        return GreaterThanCurrent(arr[index].priority, priority);
      }
      ghost var arr0 := arr;
      arr := arr[index := Entry(key, priority)];
      LowerHeld(arr0, keyIndices, index, key, priority, arr);
      DecreaseAt(index);
      o := Done;
    }

    method Heapify(i: nat)
      requires i < |arr| && Indexed(arr, keyIndices) && HeapButBelow(arr, i)
      modifies this
      ensures Valid() && Contents() == old(Contents())
      decreases |arr| - i
    {
      var l := 2 * i;
      var r := l + 1;
      var largest := i;
      if l < |arr| {
        if Less(arr[l].priority, arr[largest].priority) { largest := l; }
        if r < |arr| {
          if Less(arr[r].priority, arr[largest].priority) { largest := r; }
        }
        if largest != i {
          ghost var arr0 := arr;
          Swap(i, largest);
          SiftDown(arr0, i, largest, arr);
          Heapify(largest);
          return;
        }
      }
      AllInOrder(arr, i);
    }

    method DecreaseAt(at: nat)
      requires at < |arr| && Indexed(arr, keyIndices) && HeapButAt(arr, at)
      modifies this
      ensures Valid() && Contents() == old(Contents())
    {
      var index := at;
      var priority := arr[index].priority;
      while index != 0
        invariant index < |arr| && Indexed(arr, keyIndices) && HeapButAt(arr, index)
        invariant priority == arr[index].priority && Contents() == old(Contents())
        decreases index
      {
        var parent := index / 2;
        if Less(arr[parent].priority, priority) { break; }
        ghost var arr0 := arr;
        Swap(index, parent);
        SiftUp(arr0, index, parent, arr);
        index := parent;
      }
      forall j ensures InOrder(arr, j) {
        assert j != index ==> InOrder(arr, j);
      }
    }

    method Swap(i: nat, j: nat)
      requires i < |arr| && j < |arr| && Indexed(arr, keyIndices)
      modifies this
      ensures arr == Exchanged(old(arr), i, j) && Indexed(arr, keyIndices) && Contents() == old(Contents())
    {
      ExchangeKeepsIndices(arr, keyIndices, i, j);
      var origArrI, origArrJ := arr[i], arr[j];
      arr := arr[i := origArrJ][j := origArrI];
      keyIndices := keyIndices[origArrJ.key := i][origArrI.key := j];
    }
  }

  ghost predicate IsLeast(held: map<Node, Dist>, key: Node) {
    key in held && forall k :: k in held ==> !Less(held[k], held[key])
  }

  lemma HeldKeys(arr: seq<Entry>, idx: Indices)
    requires Indexed(arr, idx)
    ensures |Held(arr, idx)| == |arr|
  {
    KeysOf(arr, idx, |arr|);
    assert Held(arr, idx).Keys == set i | 0 <= i < |arr| :: arr[i].key;
  }

  lemma {:induction false} KeysOf(arr: seq<Entry>, idx: Indices, n: nat)
    requires Indexed(arr, idx) && n <= |arr|
    ensures |set i | 0 <= i < n :: arr[i].key| == n
  {
    var S := set i | 0 <= i < n :: arr[i].key;
    if n > 0 {
      KeysOf(arr, idx, n - 1);
      var R := set i | 0 <= i < n - 1 :: arr[i].key;
      assert S == R + {arr[n - 1].key};
      assert arr[n - 1].key !in R;
    }
  }

  lemma RootIsHeldLeast(arr: seq<Entry>, idx: Indices)
    requires Indexed(arr, idx) && Heap(arr)
    ensures Held(arr, idx) == map[] <==> |arr| == 0
    ensures |arr| > 0 ==> IsLeast(Held(arr, idx), arr[0].key)
  {
    var held := Held(arr, idx);
    if |arr| > 0 {
      assert arr[0].key in held;
      forall k | k in held ensures !Less(held[k], held[arr[0].key]) {
        RootIsLeast(arr, idx[k]);
      }
    }
  }

  lemma AppendHeld(arr: seq<Entry>, idx: Indices, key: Node, p: Dist, arr': seq<Entry>, idx': Indices)
    requires Indexed(arr, idx) && Heap(arr) && key !in idx && arr' == arr + [Entry(key, p)] && idx' == idx[key := |arr|]
    ensures Indexed(arr', idx') && HeapButAt(arr', |arr|) && Held(arr', idx') == Held(arr, idx)[key := p]
  {
    forall j | j != |arr| ensures InOrder(arr', j) {
      assert InOrder(arr, j);
    }
  }

  lemma PopHeld(arr: seq<Entry>, idx: Indices, last: Entry, arr': seq<Entry>, idx': Indices)
    requires Indexed(arr, idx) && arr == arr' + [last] && idx' == idx - {last.key}
    ensures Indexed(arr', idx') && Held(arr', idx') == Held(arr, idx) - {last.key}
  {
    forall i | 0 <= i < |arr'| ensures arr'[i].key in idx' && idx'[arr'[i].key] == i {
      assert arr[i] == arr'[i];
    }
    forall k | k in idx' ensures idx'[k] < |arr'| && arr'[idx'[k]].key == k {
      assert arr[idx[k]].key == k && arr[|arr'|] == last;
    }
  }

  lemma PopKeepsHeap(arr: seq<Entry>, arr1: seq<Entry>, arr2: seq<Entry>)
    requires |arr| > 0 && Heap(arr) && arr1 == Exchanged(arr, 0, |arr| - 1) && arr2 == arr1[..|arr1| - 1]
    ensures HeapButBelow(arr2, 0)
  {
    forall j | j / 2 != 0 || j == 0 ensures InOrder(arr2, j) {
      assert InOrder(arr, j);
    }
  }

  lemma LowerHeld(arr: seq<Entry>, idx: Indices, i: nat, key: Node, p: Dist, arr': seq<Entry>)
    requires Indexed(arr, idx) && Heap(arr) && i < |arr| && arr[i].key == key && !Less(arr[i].priority, p)
    requires arr' == arr[i := Entry(key, p)]
    ensures Indexed(arr', idx) && HeapButAt(arr', i) && Held(arr', idx) == Held(arr, idx)[key := p]
  {
    forall j | j != i ensures InOrder(arr', j) {
      assert InOrder(arr, j);
    }
    forall j ensures SkipsUp(arr', j, i) {
      assert InOrder(arr, j) && InOrder(arr, i);
    }
  }

  lemma AllInOrder(arr: seq<Entry>, i: nat)
    requires i < |arr| && HeapButBelow(arr, i)
    requires forall j :: i < j < |arr| && j / 2 == i ==> !Less(arr[j].priority, arr[i].priority)
    ensures Heap(arr)
  {
    forall j ensures InOrder(arr, j) {
      assert j / 2 != i || j == i ==> InOrder(arr, j);
    }
  }
}
