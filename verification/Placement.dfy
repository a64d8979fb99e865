/** The two passes that place blocks, and the separation every layer is left with. */
module Placement {
  import opened Graphs
  import opened Sums
  import opened VerticalAlignment
  import opened BlockOrder
  import opened Compaction

  /** The arcs join nodes of N and all point forward in ord. */
  ghost predicate Forward(N: set<Node>, arcs: map<Arc, real>, ord: map<Node, real>) {
    && N <= ord.Keys
    && (forall e :: e in arcs ==> e.v in N && e.w in N && ord[e.v] < ord[e.w])
  }

  /** Every arc has its separation. */
  ghost predicate Holds(arcs: map<Arc, real>, xs: map<Node, real>) {
    forall e :: e in arcs ==> e.v in xs && e.w in xs && xs[e.v] + arcs[e] <= xs[e.w]
  }

  function InArcs(arcs: map<Arc, real>, v: Node): set<Arc> {
    set e | e in arcs && e.w == v
  }

  function OutArcs(arcs: map<Arc, real>, v: Node): set<Arc> {
    set e | e in arcs && e.v == v
  }

  // ----- pass 1: as far left as possible -----

  /** D is closed under in-arcs, and each of its nodes is at 0 or pushed right by an in-arc. */
  ghost predicate PlacedLeft(arcs: map<Arc, real>, xs: map<Node, real>, D: set<Node>) {
    && D <= xs.Keys
    && (forall e :: e in arcs && e.w in D ==> e.v in D && xs[e.v] + arcs[e] <= xs[e.w])
    && (forall x {:trigger Pushed(arcs, xs, x)} :: x in D ==> Pushed(arcs, xs, x))
  }

  ghost predicate Pushed(arcs: map<Arc, real>, xs: map<Node, real>, x: Node) {
    x in xs && xs[x] >= 0.0
      && (xs[x] == 0.0 || exists e :: e in arcs && e.w == x && e.v in xs && xs[e.v] + arcs[e] == xs[x])
  }

  /** The visited nodes are the finished ones, done, and those on the current path, gray. */
  method Pass1(N: set<Node>, arcs: map<Arc, real>, visited: set<Node>, xs: map<Node, real>, v: Node,
               ghost ord: map<Node, real>, ghost done: set<Node>, ghost gray: set<Node>)
    returns (visited': set<Node>, xs': map<Node, real>, ghost done': set<Node>)
    requires Forward(N, arcs, ord) && v in N && visited <= N && visited == done + gray && done !! gray
    requires forall x :: x in gray ==> ord[v] < ord[x]
    requires PlacedLeft(arcs, xs, done) && xs.Keys <= N
    ensures visited' <= N && visited' == done' + gray && done' !! gray && done <= done' && v in done'
    ensures PlacedLeft(arcs, xs', done')
    ensures xs.Keys <= xs'.Keys <= N && forall x :: x in done ==> xs'[x] == xs[x]
    decreases N - visited
  {
    visited', xs', done' := visited, xs, done;
    if v !in visited {
      visited' := visited + {v};
      ghost var inner := gray + {v};
      var max := 0.0;
      var todo := InArcs(arcs, v);
      ghost var all, tried := todo, todo - todo;
      while todo != {}
        invariant todo <= all && tried == all - todo
        invariant visited' <= N && visited' == done' + inner && done' !! inner && done <= done'
        invariant PlacedLeft(arcs, xs', done')
        invariant xs.Keys <= xs'.Keys <= N && forall x :: x in done ==> xs'[x] == xs[x]
        invariant Reached(arcs, xs', done', tried, max)
        decreases todo
      {
        var e :| e in todo;
        TakeOne(all, todo, e);
        todo := todo - {e};
        ghost var before, been := xs', done';
        visited', xs', done' := Pass1(N, arcs, visited', xs', e.v, ord, done', inner);
        var next := MaxReal(max, xs'[e.v] + arcs[e]);
        ReachOneMore(arcs, before, been, xs', done', tried, max, e, next);
        max := next;
        tried := tried + {e};
      }
      PlaceAt(arcs, xs', done', v, max);
      xs' := xs'[v := max];
      done' := done' + {v};
    }
  }

  /** max is 0 or what the arcs F push to, and no less than any of them does. */
  ghost predicate Reached(arcs: map<Arc, real>, xs: map<Node, real>, D: set<Node>, F: set<Arc>, max: real)
    requires D <= xs.Keys && forall e :: e in F ==> e in arcs
  {
    && max >= 0.0
    && (forall e :: e in F ==> e.v in D && xs[e.v] + arcs[e] <= max)
    && (max == 0.0 || exists e :: e in F && e.v in D && xs[e.v] + arcs[e] == max)
  }

  lemma ReachOneMore(arcs: map<Arc, real>, before: map<Node, real>, D: set<Node>, xs: map<Node, real>, D': set<Node>,
                     F: set<Arc>, max: real, e: Arc, m: real)
    requires D <= before.Keys && D <= D' <= xs.Keys && e in arcs && (forall f :: f in F ==> f in arcs)
    requires Reached(arcs, before, D, F, max) && e.v in D'
    requires forall x :: x in D ==> xs[x] == before[x]
    requires m == MaxReal(max, xs[e.v] + arcs[e])
    ensures Reached(arcs, xs, D', F + {e}, m)
  {
    if m == max && max != 0.0 {
      var f :| f in F && f.v in D && before[f.v] + arcs[f] == max;
      assert f in F + {e} && xs[f.v] + arcs[f] == m;
    } else if m != max {
      assert e in F + {e};
    }
  }

  lemma PlaceAt(arcs: map<Arc, real>, xs: map<Node, real>, D: set<Node>, v: Node, max: real)
    requires PlacedLeft(arcs, xs, D) && v !in D && Reached(arcs, xs, D, InArcs(arcs, v), max)
    ensures PlacedLeft(arcs, xs[v := max], D + {v})
  {
    var xs' := xs[v := max];
    forall e | e in arcs && e.w in D + {v} ensures e.v in D + {v} && xs'[e.v] + arcs[e] <= xs'[e.w] {
      if e.w == v { assert e in InArcs(arcs, v); }
    }
    forall x | x in D + {v} ensures Pushed(arcs, xs', x) {
      if x == v {
        if max != 0.0 {
          var e :| e in InArcs(arcs, v) && e.v in D && xs[e.v] + arcs[e] == max;
          assert xs'[e.v] + arcs[e] == xs'[x];
        }
      } else {
        StaysPushed(arcs, xs, D, v, max, x);
      }
    }
  }

  lemma StaysPushed(arcs: map<Arc, real>, xs: map<Node, real>, D: set<Node>, v: Node, max: real, x: Node)
    requires PlacedLeft(arcs, xs, D) && v !in D && x in D
    ensures Pushed(arcs, xs[v := max], x)
  {
    assert Pushed(arcs, xs, x);
    if xs[x] != 0.0 {
      var e :| e in arcs && e.w == x && e.v in xs && xs[e.v] + arcs[e] == xs[x];
      assert e.v in D && xs[v := max][e.v] + arcs[e] == xs[v := max][x];
    }
  }

  /** The blocks of visited have been placed, those of todo are still to be looked at. */
  ghost predicate Placing(N: set<Node>, arcs: map<Arc, real>, visited: set<Node>, xs: map<Node, real>,
                          todo: set<Node>) {
    && visited <= N && (forall x :: x in N ==> x in visited || x in todo)
    && PlacedLeft(arcs, xs, visited) && xs.Keys <= N
  }

  lemma NothingPlaced(N: set<Node>, arcs: map<Arc, real>, none: set<Node>, xs: map<Node, real>)
    requires none == {} && xs == map[]
    ensures Placing(N, arcs, none, xs, N)
  {
  }

  lemma OneMorePlaced(N: set<Node>, arcs: map<Arc, real>, visited: set<Node>, xs: map<Node, real>, todo: set<Node>,
                      v: Node, visited': set<Node>, xs': map<Node, real>, todo': set<Node>)
    requires Placing(N, arcs, visited, xs, todo) && visited <= visited' <= N && v in visited' && todo' == todo - {v}
    requires PlacedLeft(arcs, xs', visited') && xs'.Keys <= N
    ensures Placing(N, arcs, visited', xs', todo')
  {
  }

  lemma AllPlaced(N: set<Node>, arcs: map<Arc, real>, visited: set<Node>, xs: map<Node, real>, todo: set<Node>)
    requires Placing(N, arcs, visited, xs, todo) && todo == {}
    ensures PlacedLeft(arcs, xs, N) && xs.Keys <= N
  {
    SameSet(visited, N);
  }

  method PlaceLeft(N: set<Node>, arcs: map<Arc, real>, ghost ord: map<Node, real>) returns (xs: map<Node, real>)
    requires Forward(N, arcs, ord)
    ensures PlacedLeft(arcs, xs, N) && xs.Keys <= N
  {
    var visited: set<Node> := {};
    xs := map[];
    var todo := N;
    NothingPlaced(N, arcs, visited, xs);
    while todo != {}
      invariant todo <= N && Placing(N, arcs, visited, xs, todo) == true
      decreases todo
    {
      ghost var visited0, xs0, todo0 := visited, xs, todo;
      var v :| v in todo;
      todo := todo - {v};
      visited, xs := PlaceBlock(N, arcs, visited, xs, v, ord);
      OneMorePlaced(N, arcs, visited0, xs0, todo0, v, visited, xs, todo);
    }
    AllPlaced(N, arcs, visited, xs, todo);
  }

  method PlaceBlock(N: set<Node>, arcs: map<Arc, real>, visited: set<Node>, xs: map<Node, real>, v: Node,
                    ghost ord: map<Node, real>)
    returns (visited': set<Node>, xs': map<Node, real>)
    requires Forward(N, arcs, ord) && v in N && visited <= N && PlacedLeft(arcs, xs, visited) && xs.Keys <= N
    ensures visited <= visited' <= N && v in visited' && PlacedLeft(arcs, xs', visited') && xs'.Keys <= N
  {
    ghost var done, none: set<Node> := {}, {};
    visited', xs', done := Pass1(N, arcs, visited, xs, v, ord, visited, none);
    SameSet(done, visited');
  }

  lemma PlacedLeftHolds(N: set<Node>, arcs: map<Arc, real>, ord: map<Node, real>, xs: map<Node, real>)
    requires Forward(N, arcs, ord) && PlacedLeft(arcs, xs, N)
    ensures Holds(arcs, xs)
  {
  }

  /** The first pass gives every block the least coordinate it can have. */
  lemma PlacedLeftIsLeast(N: set<Node>, arcs: map<Arc, real>, ord: map<Node, real>, xs: map<Node, real>,
                          ys: map<Node, real>)
    requires Forward(N, arcs, ord) && PlacedLeft(arcs, xs, N)
    requires N <= ys.Keys && Holds(arcs, ys) && forall x :: x in N ==> ys[x] >= 0.0
    ensures forall x :: x in N ==> xs[x] <= ys[x]
  {
    if z :| z in N && xs[z] > ys[z] {
      var over := set x | x in N && xs[x] > ys[x];
      assert z in over;
      var x := First(over, ord);
      var y := EarlierOver(N, arcs, ord, xs, ys, x);
      assert false;
    }
  }

  lemma EarlierOver(N: set<Node>, arcs: map<Arc, real>, ord: map<Node, real>, xs: map<Node, real>, ys: map<Node, real>,
                    x: Node) returns (y: Node)
    requires Forward(N, arcs, ord) && PlacedLeft(arcs, xs, N) && N <= ys.Keys && Holds(arcs, ys)
    requires x in N && xs[x] > ys[x] >= 0.0
    ensures y in N && xs[y] > ys[y] && ord[y] < ord[x]
  {
    assert Pushed(arcs, xs, x);
    var e :| e in arcs && e.w == x && e.v in xs && xs[e.v] + arcs[e] == xs[x];
    y := e.v;
  }

  // ----- pass 2: pulled right -----

  /** x ends where pass 1 put it if it has no out-arc or is a border on the far side, else hard against the
      next block. */
  ghost predicate Pulled(arcs: map<Arc, real>, first: map<Node, real>, xs: map<Node, real>, borders: set<Node>,
                         x: Node) {
    && x in first && x in xs
    && if x in borders || OutArcs(arcs, x) == {} then xs[x] == first[x]
       else exists e :: e in arcs && e.v == x && e.w in xs && xs[x] + arcs[e] == xs[e.w]
  }

  /** D is closed under out-arcs and finished; the other nodes are still where pass 1 put them. */
  ghost predicate PulledRight(arcs: map<Arc, real>, first: map<Node, real>, xs: map<Node, real>, borders: set<Node>,
                              D: set<Node>) {
    && Holds(arcs, xs) && xs.Keys == first.Keys && D <= xs.Keys
    && (forall e :: e in arcs && e.v in D ==> e.w in D)
    && (forall x :: x in xs && x !in D ==> xs[x] == first[x])
    && (forall x :: x in xs ==> xs[x] >= first[x])
    && (forall x {:trigger Pulled(arcs, first, xs, borders, x)} :: x in D ==> Pulled(arcs, first, xs, borders, x))
  }

  /** min is what the arcs F allow at most. */
  ghost predicate Allowed(arcs: map<Arc, real>, xs: map<Node, real>, D: set<Node>, F: set<Arc>, min: Option<real>)
    requires D <= xs.Keys && forall e :: e in F ==> e in arcs
  {
    && (min.None? <==> F == {})
    && (forall e :: e in F ==> e.w in D && min.Some? && min.value <= xs[e.w] - arcs[e])
    && (min.Some? ==> exists e :: e in F && e.w in D && min.value == xs[e.w] - arcs[e])
  }

  lemma AllowOneMore(arcs: map<Arc, real>, before: map<Node, real>, D: set<Node>, xs: map<Node, real>, D': set<Node>,
                     F: set<Arc>, min: Option<real>, e: Arc) returns (m: Option<real>)
    requires D <= before.Keys && D <= D' <= xs.Keys && e in arcs && (forall f :: f in F ==> f in arcs)
    requires Allowed(arcs, before, D, F, min) && e.w in D'
    requires forall x :: x in D ==> xs[x] == before[x]
    ensures m == Some(if min.None? || xs[e.w] - arcs[e] < min.value then xs[e.w] - arcs[e] else min.value)
    ensures Allowed(arcs, xs, D', F + {e}, m)
  {
    m := Some(if min.None? || xs[e.w] - arcs[e] < min.value then xs[e.w] - arcs[e] else min.value);
    if m == min {
      var f :| f in F && f.w in D && min.value == before[f.w] - arcs[f];
      assert f in F + {e} && min.value == xs[f.w] - arcs[f];
    } else {
      assert e in F + {e};
    }
  }

  method Pass2(N: set<Node>, arcs: map<Arc, real>, borders: set<Node>, visited: set<Node>, xs: map<Node, real>, v: Node,
               ghost first: map<Node, real>, ghost ord: map<Node, real>, ghost done: set<Node>, ghost gray: set<Node>)
    returns (visited': set<Node>, xs': map<Node, real>, ghost done': set<Node>)
    requires Forward(N, arcs, ord) && v in N && visited <= N <= first.Keys && visited == done + gray && done !! gray
    requires forall x :: x in gray ==> ord[x] < ord[v]
    requires PulledRight(arcs, first, xs, borders, done)
    ensures visited' <= N && visited' == done' + gray && done' !! gray && done <= done' && v in done'
    ensures PulledRight(arcs, first, xs', borders, done')
    ensures forall x :: x in done ==> xs'[x] == xs[x]
    decreases N - visited
  {
    visited', xs', done' := visited, xs, done;
    if v !in visited {
      visited' := visited + {v};
      ghost var inner := gray + {v};
      var min: Option<real> := None;
      var todo := OutArcs(arcs, v);
      ghost var all, tried := todo, todo - todo;
      while todo != {}
        invariant todo <= all && tried == all - todo
        invariant visited' <= N && visited' == done' + inner && done' !! inner && done <= done'
        invariant PulledRight(arcs, first, xs', borders, done')
        invariant forall x :: x in done ==> xs'[x] == xs[x]
        invariant Allowed(arcs, xs', done', tried, min)
        decreases todo
      {
        var e :| e in todo;
        TakeOne(all, todo, e);
        todo := todo - {e};
        ghost var before, been := xs', done';
        visited', xs', done' := Pass2(N, arcs, borders, visited', xs', e.w, first, ord, done', inner);
        ghost var m := AllowOneMore(arcs, before, been, xs', done', tried, min, e);
        if min.None? || xs'[e.w] - arcs[e] < min.value {
          min := Some(xs'[e.w] - arcs[e]);
        }
        tried := tried + {e};
      }
      var x := if min.Some? && v !in borders then MaxReal(xs'[v], min.value) else xs'[v];
      PullTo(arcs, first, xs', borders, done', v, min, x);
      xs' := xs'[v := x];
      done' := done' + {v};
    }
  }

  lemma PullTo(arcs: map<Arc, real>, first: map<Node, real>, xs: map<Node, real>, borders: set<Node>, D: set<Node>,
               v: Node, min: Option<real>, x: real)
    requires PulledRight(arcs, first, xs, borders, D) && v in xs && v !in D
      && Allowed(arcs, xs, D, OutArcs(arcs, v), min)
    requires x == if min.Some? && v !in borders then MaxReal(xs[v], min.value) else xs[v]
    ensures PulledRight(arcs, first, xs[v := x], borders, D + {v})
  {
    StillHolds(arcs, first, xs, borders, D, v, min, x);
    RestStays(arcs, first, xs, borders, D, v, min, x);
    forall y | y in D + {v} ensures Pulled(arcs, first, xs[v := x], borders, y) {
      if y == v {
        PulledAt(arcs, first, xs, borders, D, v, min, x);
      } else {
        StaysPulled(arcs, first, xs, borders, D, v, x, y);
      }
    }
  }

  /** v may go to x, which is not left of where it is. */
  ghost predicate MayPull(arcs: map<Arc, real>, first: map<Node, real>, xs: map<Node, real>, borders: set<Node>,
                          D: set<Node>, v: Node, min: Option<real>, x: real) {
    && PulledRight(arcs, first, xs, borders, D) && v in xs && v !in D
    && Allowed(arcs, xs, D, OutArcs(arcs, v), min)
    && x == if min.Some? && v !in borders then MaxReal(xs[v], min.value) else xs[v]
  }

  lemma StillHolds(arcs: map<Arc, real>, first: map<Node, real>, xs: map<Node, real>, borders: set<Node>, D: set<Node>,
                   v: Node, min: Option<real>, x: real)
    requires MayPull(arcs, first, xs, borders, D, v, min, x)
    ensures Holds(arcs, xs[v := x]) && forall e :: e in arcs && e.v in D + {v} ==> e.w in D + {v}
  {
    var xs' := xs[v := x];
    forall e | e in arcs ensures e.v in xs' && e.w in xs' && xs'[e.v] + arcs[e] <= xs'[e.w] {
      if e.v == v { assert e in OutArcs(arcs, v); }
    }
    forall e | e in arcs && e.v in D + {v} ensures e.w in D + {v} {
      if e.v == v { assert e in OutArcs(arcs, v); }
    }
  }

  lemma RestStays(arcs: map<Arc, real>, first: map<Node, real>, xs: map<Node, real>, borders: set<Node>, D: set<Node>,
                  v: Node, min: Option<real>, x: real)
    requires MayPull(arcs, first, xs, borders, D, v, min, x)
    ensures xs[v := x].Keys == first.Keys && D + {v} <= xs[v := x].Keys
    ensures forall y :: y in xs[v := x] && y !in D + {v} ==> xs[v := x][y] == first[y]
    ensures forall y :: y in xs[v := x] ==> y in first && xs[v := x][y] >= first[y]
  {
    UpdateKeepsKeys(xs, v, x);
  }

  lemma PulledAt(arcs: map<Arc, real>, first: map<Node, real>, xs: map<Node, real>, borders: set<Node>, D: set<Node>,
                 v: Node, min: Option<real>, x: real)
    requires MayPull(arcs, first, xs, borders, D, v, min, x)
    ensures Pulled(arcs, first, xs[v := x], borders, v)
  {
    var xs' := xs[v := x];
    if v !in borders && min.Some? {
      var e :| e in OutArcs(arcs, v) && e.w in D && min.value == xs[e.w] - arcs[e];
      assert xs'[e.w] == xs[e.w] && xs'[v] + arcs[e] == xs'[e.w];
    }
  }

  lemma StaysPulled(arcs: map<Arc, real>, first: map<Node, real>, xs: map<Node, real>, borders: set<Node>, D: set<Node>,
                    v: Node, x: real, y: Node)
    requires PulledRight(arcs, first, xs, borders, D) && v !in D && y in D
    ensures Pulled(arcs, first, xs[v := x], borders, y)
  {
    assert Pulled(arcs, first, xs, borders, y);
    if y !in borders && OutArcs(arcs, y) != {} {
      var e :| e in arcs && e.v == y && e.w in xs && xs[y] + arcs[e] == xs[e.w];
      assert e.w in D && xs[v := x][y] + arcs[e] == xs[v := x][e.w];
    }
  }

  method PullRight(N: set<Node>, arcs: map<Arc, real>, borders: set<Node>, first: map<Node, real>,
                   ghost ord: map<Node, real>) returns (xs: map<Node, real>)
    requires Forward(N, arcs, ord) && N <= first.Keys && Holds(arcs, first)
    ensures PulledRight(arcs, first, xs, borders, N)
  {
    var visited: set<Node> := {};
    xs := first;
    var todo := N;
    while todo != {}
      invariant todo <= N <= visited + todo && visited <= N && PulledRight(arcs, first, xs, borders, visited)
      decreases todo
    {
      var v :| v in todo;
      todo := todo - {v};
      ghost var done, none: set<Node> := {}, {};
      visited, xs, done := Pass2(N, arcs, borders, visited, xs, v, first, ord, visited, none);
      SameSet(done, visited);
    }
    SameSet(visited, N);
  }
}
