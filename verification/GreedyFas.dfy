/** The greedy feedback set: nodes are removed from buckets of sinks, sources and differences of weights. */
module GreedyFas {
  import opened Graphs
  import opened Sums
  import opened BucketLists
  import opened Acyclic
  import opened GreedyRuns

  // ----- weights into and out of a node -----

  /** Taking one arc away lowers one sum of each kind. */
  lemma DropArc(W: Weights, L: set<Arc>, a: Arc, L': set<Arc>, v: Node)
    requires a in L && a in W && L' == L - {a}
    ensures Sum(Into(L', v), Weigh(W)) == Sum(Into(L, v), Weigh(W)) - (if a.w == v then W[a] else 0)
    ensures Sum(OutOf(L', v), Weigh(W)) == Sum(OutOf(L, v), Weigh(W)) - (if a.v == v then W[a] else 0)
  {
    if a.w == v {
      SumPick(Into(L, v), Weigh(W), a);
      SameSet(Into(L', v), Into(L, v) - {a});
    } else {
      SameSet(Into(L', v), Into(L, v));
    }
    if a.v == v {
      SumPick(OutOf(L, v), Weigh(W), a);
      SameSet(OutOf(L', v), OutOf(L, v) - {a});
    } else {
      SameSet(OutOf(L', v), OutOf(L, v));
    }
  }

  lemma RaiseOne(W: Weights, S: set<Arc>, a: Arc, x: int, W': Weights, S': set<Arc>)
    requires S <= W.Keys && W' == W[a := (if a in W then W[a] else 0) + x] && S' == S + {a} && (a in W ==> a in S)
    ensures Sum(S', Weigh(W')) == Sum(S, Weigh(W)) + x
  {
    SumPick(S', Weigh(W'), a);
    SumCong(S' - {a}, Weigh(W'), Weigh(W));
    SameSet(S' - {a}, S - {a});
    if a in W { SumPick(S, Weigh(W), a); } else { SameSet(S - {a}, S); }
  }

  /** Adding x to the weight of one arc raises one sum of each kind. */
  lemma RaiseArc(W: Weights, a: Arc, x: int, W': Weights, v: Node)
    requires W' == W[a := (if a in W then W[a] else 0) + x]
    ensures Sum(Into(W'.Keys, v), Weigh(W')) == Sum(Into(W.Keys, v), Weigh(W)) + (if a.w == v then x else 0)
    ensures Sum(OutOf(W'.Keys, v), Weigh(W')) == Sum(OutOf(W.Keys, v), Weigh(W)) + (if a.v == v then x else 0)
  {
    if a.w == v {
      SameSet(Into(W'.Keys, v), Into(W.Keys, v) + {a});
      RaiseOne(W, Into(W.Keys, v), a, x, W', Into(W'.Keys, v));
    } else {
      SameSet(Into(W'.Keys, v), Into(W.Keys, v));
      SumCong(Into(W.Keys, v), Weigh(W'), Weigh(W));
    }
    if a.v == v {
      SameSet(OutOf(W'.Keys, v), OutOf(W.Keys, v) + {a});
      RaiseOne(W, OutOf(W.Keys, v), a, x, W', OutOf(W'.Keys, v));
    } else {
      SameSet(OutOf(W'.Keys, v), OutOf(W.Keys, v));
      SumCong(OutOf(W.Keys, v), Weigh(W'), Weigh(W));
    }
  }

  // ----- entries and buckets -----

  /** The entry of a node: the weights of its live incoming and outgoing arcs. */
  datatype Totals = Totals(ins: int, outs: int)

  function BucketOf(t: Totals, maxIn: nat, maxOut: nat): int {
    if t.outs == 0 then 0
    else if t.ins == 0 then maxIn + maxOut + 2
    else t.outs - t.ins + maxIn + 1
  }

  /** The entries of X hold the sums over the live arcs L, within the bounds the buckets were made for. */
  ghost predicate Balanced(W: Weights, L: set<Arc>, X: set<Node>, entry: map<Node, Totals>, maxIn: nat, maxOut: nat) {
    && L <= W.Keys && NonNegative(W)
    && (forall v {:trigger BalancedAt(W, L, entry, v, maxIn, maxOut)} :: v in X ==>
        BalancedAt(W, L, entry, v, maxIn, maxOut))
  }

  ghost predicate BalancedAt(W: Weights, L: set<Arc>, entry: map<Node, Totals>, v: Node, maxIn: nat, maxOut: nat) {
    && v in entry && entry[v].ins == Sum(Into(L, v), Weigh(W)) && entry[v].outs == Sum(OutOf(L, v), Weigh(W))
    && 0 <= entry[v].ins <= maxIn && 0 <= entry[v].outs <= maxOut
  }

  ghost predicate SameOuts(entry: map<Node, Totals>, entry': map<Node, Totals>) {
    forall x :: x in entry ==> x in entry' && entry'[x].outs == entry[x].outs
  }

  /** Exactly the nodes of X are in buckets, each in the one its entry calls for. */
  ghost predicate Bucketed(q: Queues, X: set<Node>, entry: map<Node, Totals>, maxIn: nat, maxOut: nat) {
    && |q| == maxIn + maxOut + 3
    && (forall v :: v in X ==> v in entry)
    && (forall b, v {:trigger v in q[b]} :: 0 <= b < |q| ==>
        (v in q[b] <==> v in X && b == BucketOf(entry[v], maxIn, maxOut)))
  }

  lemma BucketExists(W: Weights, L: set<Arc>, X: set<Node>, entry: map<Node, Totals>, maxIn: nat, maxOut: nat, v: Node)
    requires Balanced(W, L, X, entry, maxIn, maxOut) && v in X
    ensures v in entry && 0 <= BucketOf(entry[v], maxIn, maxOut) < maxIn + maxOut + 3
    ensures BucketOf(entry[v], maxIn, maxOut) == 0 <==> Sum(OutOf(L, v), Weigh(W)) == 0
    ensures BucketOf(entry[v], maxIn, maxOut) == maxIn + maxOut + 2 <==>
      Sum(OutOf(L, v), Weigh(W)) != 0 && Sum(Into(L, v), Weigh(W)) == 0
  {
    assert BalancedAt(W, L, entry, v, maxIn, maxOut);
  }

  function Lowered(t: Totals, x: int, outgoing: bool): Totals {
    if outgoing then Totals(t.ins, t.outs - x) else Totals(t.ins - x, t.outs)
  }

  /** An arc between the removed node and u is no longer counted at u. */
  lemma UncountArc(W: Weights, L: set<Arc>, X: set<Node>, entry: map<Node, Totals>, maxIn: nat, maxOut: nat, a: Arc,
                   outgoing: bool, u: Node, L': set<Arc>, entry': map<Node, Totals>)
    requires Balanced(W, L, X, entry, maxIn, maxOut) && a in L && L' == L - {a} && u in X && u in entry
    requires if outgoing then u == a.v && a.w !in X else u == a.w && a.v !in X
    requires entry' == entry[u := Lowered(entry[u], W[a], outgoing)]
    ensures Balanced(W, L', X, entry', maxIn, maxOut)
  {
    forall v | v in X ensures BalancedAt(W, L', entry', v, maxIn, maxOut) {
      assert BalancedAt(W, L, entry, v, maxIn, maxOut);
      DropArc(W, L, a, L', v);
      SumIsZero(W, Into(L', v));
      SumIsZero(W, OutOf(L', v));
    }
  }

  lemma Rebucket(q: Queues, X: set<Node>, entry: map<Node, Totals>, maxIn: nat, maxOut: nat, u: Node, t: Totals,
                 q': Queues, entry': map<Node, Totals>, b: nat)
    requires Bucketed(q, X, entry, maxIn, maxOut) && u in X && entry' == entry[u := t] && b < |q|
    requires b == BucketOf(t, maxIn, maxOut) && q' == Without(q, u)[b := Without(q, u)[b] + [u]]
    ensures Bucketed(q', X, entry', maxIn, maxOut)
  {
    MovedMembers(q, b, u, q');
  }

  lemma Unbucket(q: Queues, X: set<Node>, entry: map<Node, Totals>, maxIn: nat, maxOut: nat, b: nat, q': Queues,
                 v: Node, X': set<Node>)
    requires Bucketed(q, X, entry, maxIn, maxOut) && Distinct(q) && b < |q| && q[b] != [] && v == q[b][0]
    requires q' == q[b := q[b][1..]] && X' == X - {v}
    ensures v in X && v in entry && BucketOf(entry[v], maxIn, maxOut) == b && Bucketed(q', X', entry, maxIn, maxOut)
  {
    TakenMembers(q, b, q');
    assert v in q[b];
  }

  // ----- the removals -----

  /** The results list the arcs that the removals so far have collected. */
  ghost predicate Holds(W: Weights, all: set<Node>, trace: Trace, results: seq<Arc>) {
    && (forall a :: a in results <==> Collects(W, all, trace, a))
    && (forall i, j :: 0 <= i < j < |results| ==> results[i] != results[j])
  }

  /** The removals so far and what they have collected. */
  ghost predicate Running(W: Weights, all: set<Node>, trace: Trace, nodes: set<Node>, results: seq<Arc>) {
    IsRun(W, all, trace) && nodes == Left(all, trace, |trace|) && Holds(W, all, trace, results)
  }

  lemma CollectedIsGone(W: Weights, all: set<Node>, trace: Trace, a: Arc)
    requires Collects(W, all, trace, a)
    ensures a.w !in Left(all, trace, |trace|)
  {
    var i :| 0 <= i < |trace| && trace[i] == Removal(a.w, Best) && a.v in Left(all, trace, i);
    LeftShrinks(all, trace, i + 1, |trace|);
  }

  /** What the removal of r adds to the results. */
  ghost predicate Adds(W: Weights, nodes: set<Node>, r: Removal, collected: seq<Arc>) {
    if r.kind.Best? then ListsExactly(collected, Into(LiveArcs(W, nodes), r.v)) else collected == []
  }

  lemma RunOn(W: Weights, all: set<Node>, trace: Trace, nodes: set<Node>, results: seq<Arc>, r: Removal,
              collected: seq<Arc>,
              trace': Trace, nodes': set<Node>, results': seq<Arc>)
    requires Running(W, all, trace, nodes, results) && MayGo(W, nodes, r) && Adds(W, nodes, r, collected)
    requires trace' == trace + [r] && nodes' == nodes - {r.v} && results' == results + collected
    ensures Running(W, all, trace', nodes', results')
  {
    OneMoreRemoval(W, all, trace, r, trace');
    HoldOn(W, all, trace, nodes, results, r, collected, trace', results');
  }

  lemma HoldOn(W: Weights, all: set<Node>, trace: Trace, nodes: set<Node>, results: seq<Arc>, r: Removal,
               collected: seq<Arc>,
               trace': Trace, results': seq<Arc>)
    requires nodes == Left(all, trace, |trace|) && Holds(W, all, trace, results) && r.v in nodes
      && Adds(W, nodes, r, collected)
    requires trace' == trace + [r] && results' == results + collected
    ensures Holds(W, all, trace', results')
  {
    forall a ensures a in results' <==> Collects(W, all, trace', a) {
      OneMoreCollected(W, all, trace, r, trace', a);
    }
    forall i | 0 <= i < |results| ensures results[i] !in collected {
      assert results[i] in results;
      CollectedIsGone(W, all, trace, results[i]);
    }
  }

  class FasState {
    const W: Weights
    const maxIn: nat
    const maxOut: nat
    const lists: Lists
    var nodes: set<Node>
    var arcs: set<Arc>
    var entry: map<Node, Totals>
    ghost const all: set<Node>
    ghost var trace: Trace

    constructor (nodes: set<Node>, W: Weights, entry: map<Node, Totals>, maxIn: nat, maxOut: nat)
      requires Balanced(W, W.Keys, nodes, entry, maxIn, maxOut)
        && forall a :: a in W ==> a.v in nodes && a.w in nodes && a.v != a.w
      ensures Valid() && fresh(lists) && this.W == W && this.all == nodes && Running(W, nodes, trace, this.nodes, [])
    {
      this.W, this.maxIn, this.maxOut, this.nodes, this.arcs, this.entry := W, maxIn, maxOut, nodes, W.Keys, entry;
      this.all, this.trace := nodes, [];
      lists := new Lists(maxIn + maxOut + 3);
      new;
      var todo := nodes;
      ghost var placed: set<Node> := {};
      while todo != {}
        invariant todo <= nodes && placed == nodes - todo && lists.Valid() && fresh(lists)
        invariant this.nodes == nodes && this.arcs == W.Keys && this.entry == entry && this.all == nodes && trace == []
        invariant Bucketed(lists.q, placed, entry, maxIn, maxOut)
        decreases todo
      {
        var v :| v in todo;
        TakeOne(nodes, todo, v);
        todo := todo - {v};
        ghost var q := lists.q;
        ghost var placed' := placed + {v};
        BucketExists(W, W.Keys, nodes, entry, maxIn, maxOut, v);
        AssignBucket(v);
        FirstBucket(q, placed, entry, maxIn, maxOut, v, lists.q, BucketOf(entry[v], maxIn, maxOut), placed');
        placed := placed';
      }
      SameSet(placed, nodes);
      SameSet(W.Keys, LiveArcs(W, nodes));
    }

    ghost predicate Valid()
      reads this, lists
    {
      && lists.Valid() && Balanced(W, arcs, nodes, entry, maxIn, maxOut)
        && Bucketed(lists.q, nodes, entry, maxIn, maxOut)
      && arcs == LiveArcs(W, nodes) && (forall a :: a in W ==> a.v != a.w)
    }

    method AssignBucket(v: Node)
      requires lists.Valid() && |lists.q| == maxIn + maxOut + 3 && v in entry
        && 0 <= BucketOf(entry[v], maxIn, maxOut) < |lists.q|
      modifies lists
      ensures lists.Valid() && |lists.q| == |old(lists.q)|
      ensures var b := BucketOf(entry[v], maxIn, maxOut);
        lists.q == Without(old(lists.q), v)[b := Without(old(lists.q), v)[b] + [v]]
    {
      lists.Enqueue(BucketOf(entry[v], maxIn, maxOut), v);
    }

    /** The arc a between the node that is being removed and u no longer counts. */
    method Uncount(a: Arc, u: Node, outgoing: bool, ghost L: set<Arc>, ghost L': set<Arc>, ghost X: set<Node>)
      requires lists.Valid() && Balanced(W, L, X, entry, maxIn, maxOut) && Bucketed(lists.q, X, entry, maxIn, maxOut)
      requires a in L && L' == L - {a} && u in X
      requires if outgoing then u == a.v && a.w !in X else u == a.w && a.v !in X
      modifies this`entry, lists
      ensures lists.Valid() && Balanced(W, L', X, entry, maxIn, maxOut) && Bucketed(lists.q, X, entry, maxIn, maxOut)
      ensures entry.Keys == old(entry).Keys
      ensures forall x :: x in old(entry) && (x != u || !outgoing || W[a] == 0) ==> entry[x].outs == old(entry)[x].outs
    {
      ghost var q, entry0 := lists.q, entry;
      var t := Lowered(entry[u], W[a], outgoing);
      entry := entry[u := t];
      UncountArc(W, L, X, entry0, maxIn, maxOut, a, outgoing, u, L', entry);
      BucketExists(W, L', X, entry, maxIn, maxOut, u);
      AssignBucket(u);
      Rebucket(q, X, entry0, maxIn, maxOut, u, t, lists.q, entry, BucketOf(t, maxIn, maxOut));
    }

    /** v's incoming arcs no longer count at their tails; they are listed on request. */
    method UncountIn(v: Node, collect: bool, ghost X: set<Node>, ghost L': set<Arc>) returns (collected: seq<Arc>)
      requires lists.Valid() && Balanced(W, arcs, X, entry, maxIn, maxOut) && Bucketed(lists.q, X, entry, maxIn, maxOut)
      requires X == nodes - {v} && arcs == LiveArcs(W, nodes) && (forall a :: a in W ==> a.v != a.w)
      requires L' == arcs - Into(arcs, v)
      modifies this`entry, lists
      ensures lists.Valid() && Balanced(W, L', X, entry, maxIn, maxOut) && Bucketed(lists.q, X, entry, maxIn, maxOut)
      ensures entry.Keys == old(entry).Keys
      ensures (forall a :: a in Into(arcs, v) ==> W[a] == 0) ==> SameOuts(old(entry), entry)
      ensures if collect then ListsExactly(collected, Into(arcs, v)) else collected == []
    {
      collected := [];
      var all := set a | a in arcs && a.w == v;
      var todo := all;
      ghost var L, done: set<Arc> := arcs, {};
      while todo != {}
        invariant todo <= all && done == all - todo && L == arcs - done
        invariant lists.Valid() && Balanced(W, L, X, entry, maxIn, maxOut) && Bucketed(lists.q, X, entry, maxIn, maxOut)
        invariant entry.Keys == old(entry).Keys
          && ((forall a :: a in all ==> W[a] == 0) ==> SameOuts(old(entry), entry))
        invariant if collect then ListsExactly(collected, done) else collected == []
        decreases todo
      {
        var a :| a in todo;
        TakeOne(all, todo, a);
        todo := todo - {a};
        done := done + {a};
        ghost var L1 := L - {a};
        if collect {
          ListOneMore(collected, done - {a}, a, done);
          collected := collected + [a];
        }
        Uncount(a, a.v, true, L, L1, X);
        SameSet(L1, arcs - done);
        L := L1;
      }
      SameSet(done, all);
    }

    /** v's outgoing arcs no longer count at their heads. */
    method UncountOut(v: Node, ghost X: set<Node>, ghost L0: set<Arc>, ghost L': set<Arc>)
      requires lists.Valid() && Balanced(W, L0, X, entry, maxIn, maxOut) && Bucketed(lists.q, X, entry, maxIn, maxOut)
      requires X == nodes - {v} && arcs == LiveArcs(W, nodes) && (forall a :: a in W ==> a.v != a.w)
      requires L0 == arcs - Into(arcs, v) && L' == L0 - OutOf(arcs, v)
      modifies this`entry, lists
      ensures lists.Valid() && Balanced(W, L', X, entry, maxIn, maxOut) && Bucketed(lists.q, X, entry, maxIn, maxOut)
      ensures SameOuts(old(entry), entry)
    {
      var all := set a | a in arcs && a.v == v;
      var todo := all;
      ghost var L, done: set<Arc> := L0, {};
      while todo != {}
        invariant todo <= all && done == all - todo && L == L0 - done
        invariant lists.Valid() && Balanced(W, L, X, entry, maxIn, maxOut) && Bucketed(lists.q, X, entry, maxIn, maxOut)
        invariant SameOuts(old(entry), entry)
        decreases todo
      {
        var a :| a in todo;
        TakeOne(all, todo, a);
        todo := todo - {a};
        done := done + {a};
        ghost var L1 := L - {a};
        Uncount(a, a.w, false, L, L1, X);
        SameSet(L1, L0 - done);
        L := L1;
      }
      SameSet(done, all);
    }

    /** Removes a node that has been taken out of its bucket. */
    method RemoveNode(v: Node, collect: bool, ghost X: set<Node>) returns (collected: seq<Arc>)
      requires lists.Valid() && Balanced(W, arcs, X, entry, maxIn, maxOut) && Bucketed(lists.q, X, entry, maxIn, maxOut)
      requires v in nodes && X == nodes - {v} && arcs == LiveArcs(W, nodes) && (forall a :: a in W ==> a.v != a.w)
      modifies this`entry, this`nodes, this`arcs, lists
      ensures Valid() && nodes == X
      ensures if collect then ListsExactly(collected, Into(old(arcs), v)) else collected == []
      ensures (forall a :: a in Into(old(arcs), v) ==> W[a] == 0) ==> SameOuts(old(entry), entry)
    {
      ghost var L1 := arcs - Into(arcs, v);
      ghost var L2 := L1 - OutOf(arcs, v);
      collected := UncountIn(v, collect, X, L1);
      UncountOut(v, X, L1, L2);
      arcs := set a | a in arcs && a.v != v && a.w != v;
      SameSet(arcs, L2);
      nodes := nodes - {v};
      SameSet(nodes, X);
      SameSet(arcs, LiveArcs(W, nodes));
    }

    ghost predicate InOrder(results: seq<Arc>)
      reads this, lists
    {
      Valid() && Running(W, all, trace, nodes, results)
    }

    /** v has been taken out of bucket b: what its removal rests on. */
    ghost predicate TakenFrom(v: Node, b: int, X: set<Node>)
      reads this, lists
    {
      && v in nodes && X == nodes - {v} && v in entry && BucketOf(entry[v], maxIn, maxOut) == b
      && lists.Valid() && Balanced(W, arcs, nodes, entry, maxIn, maxOut) && Bucketed(lists.q, X, entry, maxIn, maxOut)
      && arcs == LiveArcs(W, nodes) && (forall a :: a in W ==> a.v != a.w)
    }

    method Take(b: nat) returns (r: Option<Node>)
      requires Valid() && b < maxIn + maxOut + 3
      modifies lists
      ensures if r.None? then Valid() && (forall v :: v in nodes ==> BucketOf(entry[v], maxIn, maxOut) != b)
        else TakenFrom(r.value, b, nodes - {r.value})
    {
      ghost var q := lists.q;
      r := lists.Dequeue(b);
      if r.Some? {
        Unbucket(q, nodes, entry, maxIn, maxOut, b, lists.q, r.value, nodes - {r.value});
      } else {
        forall v | v in nodes ensures BucketOf(entry[v], maxIn, maxOut) != b { assert v !in q[b]; }
      }
    }

    /** Removes the node that has been taken out of its bucket, and writes down why. */
    method RemoveTaken(v: Node, b: int, collect: bool, ghost kind: Kind, results: seq<Arc>) returns (results': seq<Arc>)
      requires TakenFrom(v, b, nodes - {v}) && Running(W, all, trace, nodes, results)
        && MayGo(W, nodes, Removal(v, kind))
      requires collect == kind.Best?
      modifies this`entry, this`nodes, this`arcs, this`trace, lists
      ensures InOrder(results') && nodes == old(nodes) - {v} && trace == old(trace) + [Removal(v, kind)]
      ensures !collect ==> results' == results
      ensures InSum(W, old(nodes), v) == 0 ==> SameOuts(old(entry), entry)
    {
      ghost var X, nodes0, trace0 := nodes - {v}, nodes, trace;
      SumIsZero(W, Into(arcs, v));
      var collected := RemoveNode(v, collect, X);
      trace := trace + [Removal(v, kind)];
      results' := results + collected;
      RunOn(W, all, trace0, nodes0, results, Removal(v, kind), collected, trace, nodes, results');
    }

    method RemoveSinks(results: seq<Arc>)
      requires InOrder(results)
      modifies this`entry, this`nodes, this`arcs, this`trace, lists
      ensures InOrder(results) && nodes <= old(nodes) && NoSinks()
    {
      var r := Take(0);
      while r.Some?
        invariant if r.None? then InOrder(results) && NoSinks()
          else TakenFrom(r.value, 0, nodes - {r.value}) && Running(W, all, trace, nodes, results)
        invariant nodes <= old(nodes)
        decreases |nodes|, r
      {
        BucketExists(W, arcs, nodes, entry, maxIn, maxOut, r.value);
        var same := RemoveTaken(r.value, 0, false, Sink, results);
        r := Take(0);
      }
    }

    ghost predicate NoSinks()
      reads this
    {
      NoneIsEmpty(nodes, entry)
    }

    /** No node is in bucket i or in a higher one. */
    ghost predicate NoneFrom(i: int)
      reads this
    {
      AllBelow(nodes, entry, maxIn, maxOut, i)
    }

    method RemoveSource(v: Node, results: seq<Arc>)
      requires TakenFrom(v, maxIn + maxOut + 2, nodes - {v}) && Running(W, all, trace, nodes, results) && NoSinks()
      modifies this`entry, this`nodes, this`arcs, this`trace, lists
      ensures InOrder(results) && nodes == old(nodes) - {v} && NoSinks()
    {
      ghost var nodes0, entry0 := nodes, entry;
      SourceMayGo(W, nodes, entry, maxIn, maxOut, v);
      var same := RemoveTaken(v, maxIn + maxOut + 2, false, Source, results);
      StillNoneIsEmpty(nodes0, entry0, nodes, entry);
    }

    method RemoveSources(results: seq<Arc>)
      requires InOrder(results) && NoSinks()
      modifies this`entry, this`nodes, this`arcs, this`trace, lists
      ensures InOrder(results) && nodes <= old(nodes) && NoSinks() && NoneFrom(maxIn + maxOut + 2)
    {
      var top := maxIn + maxOut + 2;
      var r := Take(top);
      while r.Some?
        invariant r.None? ==> InOrder(results) && forall v :: v in nodes ==> BucketOf(entry[v], maxIn, maxOut) != top
        invariant r.Some? ==> TakenFrom(r.value, top, nodes - {r.value}) && Running(W, all, trace, nodes, results)
        invariant nodes <= old(nodes) && NoSinks()
        decreases |nodes|, r
      {
        RemoveSource(r.value, results);
        r := Take(top);
      }
      forall v | v in nodes ensures v in entry && BucketOf(entry[v], maxIn, maxOut) < top {
        BucketExists(W, arcs, nodes, entry, maxIn, maxOut, v);
      }
    }

    method TakeBest(results: seq<Arc>, v: Node, i: nat) returns (results': seq<Arc>)
      requires TakenFrom(v, i, nodes - {v}) && Running(W, all, trace, nodes, results) && NoSinks()
      requires NoneFrom(maxIn + maxOut + 2) && NoneFrom(i + 1)
      modifies this`entry, this`nodes, this`arcs, this`trace, lists
      ensures InOrder(results') && nodes == old(nodes) - {v} && trace == old(trace) + [Removal(v, Best)]
    {
      FullestMayGo(W, nodes, entry, maxIn, maxOut, v, i);
      results' := RemoveTaken(v, i, true, Best, results);
    }

    /** With no sinks and sources left, the fullest non-empty bucket gives up a node. */
    method RemoveBest(results: seq<Arc>) returns (results': seq<Arc>)
      requires InOrder(results) && nodes != {} && NoSinks() && NoneFrom(maxIn + maxOut + 2)
      modifies this`entry, this`nodes, this`arcs, this`trace, lists
      ensures InOrder(results') && nodes < old(nodes)
      ensures exists v :: v in old(nodes) && nodes == old(nodes) - {v} && trace == old(trace) + [Removal(v, Best)]
    {
      var i := maxIn + maxOut + 1;
      while i > 0
        invariant 0 <= i <= maxIn + maxOut + 1 && nodes == old(nodes) && entry == old(entry) && trace == old(trace)
        invariant InOrder(results) && NoneFrom(i + 1)
        decreases i
      {
        var r := Take(i);
        if r.Some? {
          results' := TakeBest(results, r.value, i);
          return;
        }
        i := i - 1;
      }
      ghost var some :| some in nodes;
      OutsNotZero(W, arcs, nodes, entry, maxIn, maxOut, some);
      assert false;
    }

    /** Removes all nodes. The results are the arcs that the run collects. */
    method DoGreedyFas() returns (results: seq<Arc>)
      requires InOrder([])
      modifies this, lists
      ensures nodes == {} && Running(W, all, trace, nodes, results)
    {
      results := [];
      while nodes != {}
        invariant InOrder(results)
        decreases nodes
      {
        RemoveSinks(results);
        RemoveSources(results);
        if nodes != {} {
          results := RemoveBest(results);
        }
      }
    }
  }

  lemma EntryIsSums(W: Weights, nodes: set<Node>, entry: map<Node, Totals>, maxIn: nat, maxOut: nat, v: Node)
    requires Balanced(W, LiveArcs(W, nodes), nodes, entry, maxIn, maxOut) && v in nodes
    ensures v in entry && entry[v] == Totals(InSum(W, nodes, v), OutSum(W, nodes, v))
  {
    assert BalancedAt(W, LiveArcs(W, nodes), entry, v, maxIn, maxOut);
  }

  /** No node of X is in bucket i or in a higher one. */
  ghost predicate AllBelow(X: set<Node>, entry: map<Node, Totals>, maxIn: nat, maxOut: nat, i: int) {
    forall v :: v in X ==> v in entry && BucketOf(entry[v], maxIn, maxOut) < i
  }

  lemma OutsNotZero(W: Weights, L: set<Arc>, X: set<Node>, entry: map<Node, Totals>, maxIn: nat, maxOut: nat, v: Node)
    requires Balanced(W, L, X, entry, maxIn, maxOut) && v in X && v in entry && entry[v].outs != 0
    ensures BucketOf(entry[v], maxIn, maxOut) > 0
  {
    BucketExists(W, L, X, entry, maxIn, maxOut, v);
    assert BalancedAt(W, L, entry, v, maxIn, maxOut);
  }

  ghost predicate NoneIsEmpty(X: set<Node>, entry: map<Node, Totals>) {
    forall v :: v in X ==> v in entry && entry[v].outs != 0
  }

  lemma StillNoneIsEmpty(X: set<Node>, entry: map<Node, Totals>, X': set<Node>, entry': map<Node, Totals>)
    requires NoneIsEmpty(X, entry) && X' <= X && SameOuts(entry, entry')
    ensures NoneIsEmpty(X', entry')
  {
  }

  /** Sinks are those of bucket 0. */
  lemma NoneInFirst(W: Weights, nodes: set<Node>, entry: map<Node, Totals>, maxIn: nat, maxOut: nat)
    requires Balanced(W, LiveArcs(W, nodes), nodes, entry, maxIn, maxOut) && NoneIsEmpty(nodes, entry)
    ensures NoneIsSink(W, nodes)
  {
    forall u | u in nodes ensures OutSum(W, nodes, u) != 0 { EntryIsSums(W, nodes, entry, maxIn, maxOut, u); }
  }

  lemma NoneInLast(W: Weights, nodes: set<Node>, entry: map<Node, Totals>, maxIn: nat, maxOut: nat)
    requires Balanced(W, LiveArcs(W, nodes), nodes, entry, maxIn, maxOut) && NoneIsEmpty(nodes, entry)
    requires AllBelow(nodes, entry, maxIn, maxOut, maxIn + maxOut + 2)
    ensures NoneIsSource(W, nodes)
  {
    forall u | u in nodes ensures InSum(W, nodes, u) != 0 { EntryIsSums(W, nodes, entry, maxIn, maxOut, u); }
  }

  lemma SourceMayGo(W: Weights, nodes: set<Node>, entry: map<Node, Totals>, maxIn: nat, maxOut: nat, v: Node)
    requires Balanced(W, LiveArcs(W, nodes), nodes, entry, maxIn, maxOut) && v in nodes && NoneIsEmpty(nodes, entry)
    requires v in entry && BucketOf(entry[v], maxIn, maxOut) == maxIn + maxOut + 2
    ensures MayGo(W, nodes, Removal(v, Source)) && InSum(W, nodes, v) == 0
  {
    NoneInFirst(W, nodes, entry, maxIn, maxOut);
    BucketExists(W, LiveArcs(W, nodes), nodes, entry, maxIn, maxOut, v);
  }

  /** With neither sinks nor sources left, the fullest bucket holds the nodes of the greatest difference. */
  lemma FullestMayGo(W: Weights, nodes: set<Node>, entry: map<Node, Totals>, maxIn: nat, maxOut: nat, v: Node, i: int)
    requires Balanced(W, LiveArcs(W, nodes), nodes, entry, maxIn, maxOut) && v in nodes && NoneIsEmpty(nodes, entry)
    requires AllBelow(nodes, entry, maxIn, maxOut, maxIn + maxOut + 2) && AllBelow(nodes, entry, maxIn, maxOut, i + 1)
    requires i == BucketOf(entry[v], maxIn, maxOut)
    ensures MayGo(W, nodes, Removal(v, Best))
  {
    NoneInFirst(W, nodes, entry, maxIn, maxOut);
    NoneInLast(W, nodes, entry, maxIn, maxOut);
    NoneAbove(W, nodes, entry, maxIn, maxOut, v, i);
  }

  lemma NoneAbove(W: Weights, nodes: set<Node>, entry: map<Node, Totals>, maxIn: nat, maxOut: nat, v: Node, i: int)
    requires Balanced(W, LiveArcs(W, nodes), nodes, entry, maxIn, maxOut) && v in nodes && NoneIsEmpty(nodes, entry)
    requires AllBelow(nodes, entry, maxIn, maxOut, maxIn + maxOut + 2) && AllBelow(nodes, entry, maxIn, maxOut, i + 1)
    requires i == BucketOf(entry[v], maxIn, maxOut)
    ensures NoneIsBetter(W, nodes, v)
  {
    forall u | u in nodes ensures OutSum(W, nodes, u) - InSum(W, nodes, u) <= OutSum(W, nodes, v) - InSum(W, nodes, v) {
      NotBetter(W, nodes, entry, maxIn, maxOut, u, v);
    }
  }

  lemma NotBetter(W: Weights, nodes: set<Node>, entry: map<Node, Totals>, maxIn: nat, maxOut: nat, u: Node, v: Node)
    requires Balanced(W, LiveArcs(W, nodes), nodes, entry, maxIn, maxOut) && u in nodes && v in nodes
    requires u in entry && v in entry && entry[u].outs != 0 && entry[v].outs != 0
    requires BucketOf(entry[u], maxIn, maxOut) <= BucketOf(entry[v], maxIn, maxOut) < maxIn + maxOut + 2
    ensures OutSum(W, nodes, u) - InSum(W, nodes, u) <= OutSum(W, nodes, v) - InSum(W, nodes, v)
  {
    EntryIsSums(W, nodes, entry, maxIn, maxOut, u);
    EntryIsSums(W, nodes, entry, maxIn, maxOut, v);
  }

  /** collected holds exactly the arcs of S, each once. */
  ghost predicate ListsExactly(collected: seq<Arc>, S: set<Arc>) {
    && (forall a :: a in collected <==> a in S)
    && (forall i, j :: 0 <= i < j < |collected| ==> collected[i] != collected[j])
  }

  lemma ListOneMore(collected: seq<Arc>, S: set<Arc>, a: Arc, S': set<Arc>)
    requires ListsExactly(collected, S) && a !in S && S' == S + {a}
    ensures ListsExactly(collected + [a], S')
  {
  }

  lemma FirstBucket(q: Queues, X: set<Node>, entry: map<Node, Totals>, maxIn: nat, maxOut: nat, v: Node, q': Queues,
                    b: nat, X': set<Node>)
    requires Bucketed(q, X, entry, maxIn, maxOut) && v !in X && X' == X + {v} && v in entry
      && b == BucketOf(entry[v], maxIn, maxOut) && b < |q|
    requires q' == Without(q, v)[b := Without(q, v)[b] + [v]]
    ensures Bucketed(q', X', entry, maxIn, maxOut)
  {
    MovedMembers(q, b, v, q');
  }

  // ----- the whole computation -----

  datatype Weighing = Weighing(W: Weights, entry: map<Node, Totals>, maxIn: int, maxOut: int)

  /** The arcs of the edges in done, with the weights of parallel ones summed. */
  ghost predicate MergedSoFar(E: Edges, done: set<Key>, W: Weights) {
    && (forall a :: a in W <==> exists e :: e in done && Arc(e.v, e.w) == a)
    && (forall a :: a in W ==> W[a] == Sum(Parallel(done, a), WeightIn(E)))
  }

  /** The sums after the edges in done have been added. */
  ghost predicate Summed(nodes: set<Node>, s: Weighing) {
    && s.entry.Keys == nodes && s.maxIn >= 0 && s.maxOut >= 0 && NonNegative(s.W)
    && (forall v {:trigger SummedAt(s, v)} :: v in nodes ==> SummedAt(s, v))
  }

  ghost predicate SummedAt(s: Weighing, v: Node)
    requires v in s.entry
  {
    && s.entry[v].ins == Sum(Into(s.W.Keys, v), Weigh(s.W)) && s.entry[v].outs == Sum(OutOf(s.W.Keys, v), Weigh(s.W))
    && 0 <= s.entry[v].ins <= s.maxIn && 0 <= s.entry[v].outs <= s.maxOut
  }

  /** One edge of weight x from v to w is added. */
  function WithEdge(s: Weighing, v: Node, w: Node, x: int): Weighing
    requires v in s.entry && w in s.entry && v != w
  {
    var a := Arc(v, w);
    var prevWeight := if a in s.W then s.W[a] else 0;
    var tv, tw := Totals(s.entry[v].ins, s.entry[v].outs + x), Totals(s.entry[w].ins + x, s.entry[w].outs);
    Weighing(s.W[a := prevWeight + x], s.entry[v := tv][w := tw], MaxInt(s.maxIn, tw.ins), MaxInt(s.maxOut, tv.outs))
  }

  function Raised(W: Weights, a: Arc, x: int): Weights {
    W[a := (if a in W then W[a] else 0) + x]
  }

  lemma AddEdge(nodes: set<Node>, s: Weighing, e: Key, x: int, s': Weighing)
    requires Summed(nodes, s) && e.v in nodes && e.w in nodes && e.v != e.w && x >= 0 && s' == WithEdge(s, e.v, e.w, x)
    ensures Summed(nodes, s') && s'.W == Raised(s.W, Arc(e.v, e.w), x)
  {
    forall v | v in nodes ensures SummedAt(s', v) {
      assert SummedAt(s, v);
      RaiseArc(s.W, Arc(e.v, e.w), x, s'.W, v);
    }
    SameSet(s'.entry.Keys, s.entry.Keys);
  }

  lemma MergeEdge(E: Edges, done: set<Key>, W: Weights, e: Key, done': set<Key>, W': Weights)
    requires MergedSoFar(E, done, W) && e in E && e !in done && done' == done + {e}
    requires W' == Raised(W, Arc(e.v, e.w), E[e].weight)
    ensures MergedSoFar(E, done', W')
  {
    var a := Arc(e.v, e.w);
    forall b ensures b in W' <==> exists f :: f in done' && Arc(f.v, f.w) == b {
      if f :| f in done && Arc(f.v, f.w) == b { assert f in done'; }
      if b == a { assert e in done'; }
    }
    SumPick(Parallel(done', a), WeightIn(E), e);
    SameSet(Parallel(done', a) - {e}, Parallel(done, a));
    forall b | b in W' && b != a ensures W'[b] == Sum(Parallel(done', b), WeightIn(E)) {
      SameSet(Parallel(done', b), Parallel(done, b));
    }
    if a !in W {
      assert forall f :: f in done ==> Arc(f.v, f.w) != a;
      assert Parallel(done, a) == {};
    }
  }

  lemma MergedAll(E: Edges, W: Weights)
    requires MergedSoFar(E, E.Keys, W)
    ensures W == Merged(E)
  {
    SameSet(W.Keys, Merged(E).Keys);
  }

  /** Merges parallel edges and sums the weights at every node. */
  method BuildSums(nodes: set<Node>, E: Edges) returns (s: Weighing)
    requires LoopFree(nodes, E.Keys) && NoNegativeWeight(E)
    ensures Summed(nodes, s) && s.W == Merged(E)
  {
    s := Weighing(map[], map v | v in nodes :: Totals(0, 0), 0, 0);
    var todo := E.Keys;
    ghost var done: set<Key> := {};
    forall v | v in nodes ensures SummedAt(s, v) {
      assert Into(s.W.Keys, v) == {} && OutOf(s.W.Keys, v) == {};
    }
    while todo != {}
      invariant todo <= E.Keys && done == E.Keys - todo && Summed(nodes, s) && MergedSoFar(E, done, s.W)
      decreases todo
    {
      var e :| e in todo;
      TakeOne(E.Keys, todo, e);
      todo := todo - {e};
      ghost var s0, done0 := s, done;
      done := done + {e};
      s := WithEdge(s, e.v, e.w, E[e].weight);
      AddEdge(nodes, s0, e, E[e].weight, s);
      MergeEdge(E, done0, s0.W, e, done, s.W);
    }
    SameSet(done, E.Keys);
    MergedAll(E, s.W);
  }

  /** The edges between the ends of each arc, arc by arc. */
  ghost predicate Flattened(K: set<Key>, results: seq<Arc>, n: nat, fas: seq<Key>)
    requires n <= |results|
  {
    && (forall e :: e in fas <==> e in K && Arc(e.v, e.w) in results[..n])
    && (forall i, j :: 0 <= i < j < |fas| ==> fas[i] != fas[j])
  }

  method Flatten(K: set<Key>, results: seq<Arc>) returns (fas: seq<Key>)
    requires forall i, j :: 0 <= i < j < |results| ==> results[i] != results[j]
    ensures Flattened(K, results, |results|, fas)
  {
    fas := [];
    for n := 0 to |results|
      invariant Flattened(K, results, n, fas)
    {
      var more := KeysBetween(K, results[n]);
      AppendKeys(K, results, n, fas, more, fas + more);
      fas := fas + more;
    }
  }

  method KeysBetween(K: set<Key>, a: Arc) returns (keys: seq<Key>)
    ensures forall e :: e in keys <==> e in K && Arc(e.v, e.w) == a
    ensures forall i, j :: 0 <= i < j < |keys| ==> keys[i] != keys[j]
  {
    keys := [];
    var all := set e | e in K && e.v == a.v && e.w == a.w;
    var todo := all;
    while todo != {}
      invariant todo <= all && (forall e :: e in keys <==> e in all && e !in todo)
      invariant forall i, j :: 0 <= i < j < |keys| ==> keys[i] != keys[j]
      decreases todo
    {
      var e :| e in todo;
      todo := todo - {e};
      keys := keys + [e];
    }
  }

  lemma AppendKeys(K: set<Key>, results: seq<Arc>, n: nat, fas: seq<Key>, more: seq<Key>, fas': seq<Key>)
    requires n < |results| && Flattened(K, results, n, fas) && fas' == fas + more
    requires forall i, j :: 0 <= i < j < |results| ==> results[i] != results[j]
    requires forall e :: e in more <==> e in K && Arc(e.v, e.w) == results[n]
    requires forall i, j :: 0 <= i < j < |more| ==> more[i] != more[j]
    ensures Flattened(K, results, n + 1, fas')
  {
    assert results[..n + 1] == results[..n] + [results[n]];
    assert results[n] !in results[..n];
    forall e ensures e in fas' <==> e in fas || e in more {}
    forall i, j | 0 <= i < j < |fas'| ensures fas'[i] != fas'[j] {
      if i < |fas| && j >= |fas| {
        assert fas[i] in fas && more[j - |fas|] in more;
      }
    }
  }

  lemma FlattenedIsChosen(nodes: set<Node>, E: Edges, trace: Trace, results: seq<Arc>, none: set<Node>, fas: seq<Key>)
    requires Running(Merged(E), nodes, trace, none, results) && none == {} && Flattened(E.Keys, results, |results|, fas)
    ensures IsGreedy(nodes, E, fas)
  {
    assert results[..|results|] == results;
    assert Chosen(nodes, E, fas, trace);
    forall i | 0 <= i < |fas| ensures fas[i] in E.Keys { assert fas[i] in fas; }
  }

  /** The edges that some run of the greedy removal collects. */
  method GreedyFasOf(g: MultiGraph) returns (fas: seq<Key>)
    requires LoopFree(g.nodes, g.edges.Keys) && NoNegativeWeight(g.edges)
    ensures IsGreedy(g.nodes, g.edges, fas)
  {
    if |g.nodes| <= 1 {
      FewCollectNothing(g.nodes, g.edges);
      return [];
    }
    var s := BuildSums(g.nodes, g.edges);
    forall v | v in g.nodes ensures BalancedAt(s.W, s.W.Keys, s.entry, v, s.maxIn, s.maxOut) { assert SummedAt(s, v); }
    var state := new FasState(g.nodes, s.W, s.entry, s.maxIn, s.maxOut);
    var results := state.DoGreedyFas();
    fas := Flatten(g.edges.Keys, results);
    FlattenedIsChosen(g.nodes, g.edges, state.trace, results, state.nodes, fas);
  }

  lemma FewCollectNothing(nodes: set<Node>, E: Edges)
    requires LoopFree(nodes, E.Keys) && |nodes| <= 1
    ensures IsGreedy(nodes, E, [])
  {
    if e :| e in E { SizeMonotone({e.v, e.w}, nodes); }
    var trace: Trace := [];
    if x :| x in nodes {
      SubsetOfSameSize({x}, nodes);
      trace := [Removal(x, Sink)];
      assert OutOf(LiveArcs(Merged(E), nodes), x) == {};
      assert Left(nodes, trace, 1) == Left(nodes, trace, 0) - {x};
    }
    assert Chosen(nodes, E, [], trace);
  }
}
