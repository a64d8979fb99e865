/** The records of Tarjan's algorithm and the invariant that yields strongly connected components. */
module StrongComponents {
  import opened Graphs
  import opened Sums
  import opened Reachability

  /** What the search has recorded, but for the lowlinks. */
  datatype Search = Search(index: nat, stack: seq<Node>, idx: map<Node, nat>, onStack: map<Node, bool>,
                           results: seq<seq<Node>>) {

    ghost predicate OnStack(x: Node) {
      x in onStack && onStack[x]
    }

    /** The nodes already handed out in a component. */
    ghost function Done(): set<Node> {
      set x | x in onStack && !onStack[x]
    }
  }

  ghost predicate Shape(g: Succ, s: Search) {
    && s.idx.Keys == s.onStack.Keys && s.idx.Keys <= g.Keys
    && (forall x :: x in s.stack <==> s.OnStack(x))
    && Ascending(s.stack, s.idx)
    && (forall x :: x in s.idx ==> s.idx[x] < s.index)
  }

  ghost predicate Ascending(stack: seq<Node>, idx: map<Node, nat>) {
    forall i, j :: 0 <= i < j < |stack| ==> stack[i] in idx && stack[j] in idx && idx[stack[i]] < idx[stack[j]]
  }

  /** Finished nodes have no unvisited successor; the unfinished ones, gray, are on the stack. */
  ghost predicate Colored(g: Succ, s: Search, gray: set<Node>)
    requires Shape(g, s)
  {
    && (forall x :: x in gray ==> s.OnStack(x))
    && (forall x :: x in s.idx && x !in gray ==> g[x] <= s.idx.Keys)
  }

  /** Gray nodes reach everything above them on the stack, and everything on the stack reaches a gray node
      at or below it. */
  ghost predicate Linked(g: Succ, s: Search, gray: set<Node>)
    requires Shape(g, s)
  {
    && (forall x, y {:trigger Reach(g, x, y)} :: x in gray && s.OnStack(x) && s.OnStack(y) && s.idx[x] <= s.idx[y] ==>
        Reach(g, x, y))
    && (forall y {:trigger Descends(g, s, gray, y)} :: s.OnStack(y) ==> Descends(g, s, gray, y))
  }

  ghost predicate Descends(g: Succ, s: Search, gray: set<Node>, y: Node)
    requires Shape(g, s)
  {
    exists x {:trigger GrayBelow(g, s, gray, y, x)} :: GrayBelow(g, s, gray, y, x)
  }

  ghost predicate GrayBelow(g: Succ, s: Search, gray: set<Node>, y: Node, x: Node) {
    x in gray && s.OnStack(x) && s.OnStack(y) && x in s.idx && y in s.idx && s.idx[x] <= s.idx[y] && Reach(g, y, x)
  }

  /** A stack node of index m that v reaches. */
  ghost predicate Target(g: Succ, s: Search, v: Node, m: nat, y: Node) {
    s.OnStack(y) && y in s.idx && s.idx[y] == m && Reach(g, v, y)
  }

  ghost function Elements(c: seq<Node>): set<Node> {
    set x | x in c
  }

  /** The nodes of the first n components. */
  ghost function Collected(results: seq<seq<Node>>, n: nat): set<Node>
    requires n <= |results|
  {
    if n == 0 then {} else Collected(results, n - 1) + Elements(results[n - 1])
  }

  ghost predicate NoDuplicates(c: seq<Node>) {
    forall i, j :: 0 <= i < j < |c| ==> c[i] != c[j]
  }

  /** Each result is a component, new to those before it, and what is collected never leads elsewhere. */
  ghost predicate Components(g: Succ, results: seq<seq<Node>>) {
    forall n {:trigger ComponentAt(g, results, n)} :: 0 <= n < |results| ==> ComponentAt(g, results, n)
  }

  ghost predicate ComponentAt(g: Succ, results: seq<seq<Node>>, n: nat)
    requires n < |results|
  {
    && IsComponent(g, Elements(results[n])) && NoDuplicates(results[n])
    && Elements(results[n]) !! Collected(results, n)
    && ClosedUnder(g, Collected(results, n) + Elements(results[n]))
  }

  ghost predicate Invariant(g: Succ, s: Search, gray: set<Node>) {
    && IsGraph(g) && Shape(g, s) && Colored(g, s, gray) && Linked(g, s, gray)
    && Components(g, s.results) && s.Done() == Collected(s.results, |s.results|)
  }

  lemma DoneIsClosed(g: Succ, s: Search, gray: set<Node>)
    requires Invariant(g, s, gray)
    ensures ClosedUnder(g, s.Done())
  {
    var n := |s.results|;
    if n > 0 { assert ComponentAt(g, s.results, n - 1); }
  }

  /** The later search keeps the stack, the indices and the results of the earlier one. */
  ghost predicate Extends(s: Search, t: Search) {
    && s.index <= t.index && s.stack <= t.stack && s.results <= t.results
    && (forall x :: x in s.idx ==> x in t.idx && t.idx[x] == s.idx[x])
    && (forall x :: x in s.onStack ==> x in t.onStack && t.onStack[x] == s.onStack[x])
    && (forall x :: x in t.idx && x !in s.idx ==> t.idx[x] >= s.index)
  }

  lemma ExtendsTransitive(s: Search, t: Search, u: Search)
    requires Extends(s, t) && Extends(t, u)
    ensures Extends(s, u)
  {
  }

  // ----- entering a node -----

  function Push(s: Search, v: Node): Search {
    Search(s.index + 1, s.stack + [v], s.idx[v := s.index], s.onStack[v := true], s.results)
  }

  function PopTop(s: Search): Search
    requires s.stack != []
  {
    var k := |s.stack| - 1;
    Search(s.index, s.stack[..k], s.idx, s.onStack[s.stack[k] := false], s.results)
  }

  function HandOut(s: Search, c: seq<Node>): Search {
    Search(s.index, s.stack, s.idx, s.onStack, s.results + [c])
  }

  lemma PushKeepsAscending(stack: seq<Node>, idx: map<Node, nat>, v: Node, n: nat, stack': seq<Node>,
                           idx': map<Node, nat>)
    requires Ascending(stack, idx) && v !in idx && stack' == stack + [v] && idx' == idx[v := n]
    requires forall x :: x in stack ==> x in idx && idx[x] < n
    ensures Ascending(stack', idx')
  {
    forall i, j | 0 <= i < j < |stack'|
      ensures stack'[i] in idx' && stack'[j] in idx' && idx'[stack'[i]] < idx'[stack'[j]]
    {
      assert stack'[i] == stack[i] && stack[i] in stack;
      assert j < |stack| ==> stack'[j] == stack[j] && stack[j] in stack;
    }
  }

  lemma PushKeepsShape(g: Succ, s: Search, v: Node, t: Search)
    requires Shape(g, s) && v in g && v !in s.idx && t == Push(s, v)
    ensures Shape(g, t)
  {
    forall x ensures x in t.stack <==> t.OnStack(x) {
      assert x in t.stack <==> x in s.stack || x == v;
    }
    assert forall x :: x in s.stack ==> x in s.idx && s.idx[x] < s.index;
    PushKeepsAscending(s.stack, s.idx, v, s.index, t.stack, t.idx);
    assert forall x :: x in t.idx ==> t.idx[x] < t.index;
  }

  lemma PushKeepsLinked(g: Succ, s: Search, gray: set<Node>, v: Node, gray': set<Node>, t: Search)
    requires Shape(g, s) && Linked(g, s, gray) && v in g && v !in s.idx && gray' == gray + {v}
    requires forall x :: x in gray ==> Reach(g, x, v)
    requires Shape(g, t) && t == Push(s, v)
    ensures Linked(g, t, gray')
  {
    forall y | t.OnStack(y) ensures Descends(g, t, gray', y) {
      if y == v {
        assert GrayBelow(g, t, gray', v, v);
      } else {
        assert Descends(g, s, gray, y);
        var x :| GrayBelow(g, s, gray, y, x);
        assert GrayBelow(g, t, gray', y, x);
      }
    }
  }

  lemma PushKeepsInvariant(g: Succ, s: Search, gray: set<Node>, v: Node, gray': set<Node>, t: Search)
    requires Invariant(g, s, gray) && v in g && v !in s.idx && gray' == gray + {v} && t == Push(s, v)
    requires forall x :: x in gray ==> Reach(g, x, v)
    ensures Invariant(g, t, gray') && Extends(s, t)
  {
    PushKeepsShape(g, s, v, t);
    PushKeepsLinked(g, s, gray, v, gray', t);
    SameSet(t.Done(), s.Done());
  }

  // ----- the state of the loop over v's successors -----

  /** What the search from v knows of its lowlink m once the successors P are treated: v reaches a stack
      node of index m, and no edge from what is above v on the stack, or from v along P, leads below m. */
  ghost predicate Lowest(g: Succ, s: Search, t: Search, v: Node, P: set<Node>, m: nat)
    requires Shape(g, s) && Shape(g, t)
  {
    && v in t.idx && m <= t.idx[v]
    && (exists y {:trigger Target(g, t, v, m, y)} :: Target(g, t, v, m, y))
    && (forall x, y {:trigger Leaves(g, s, t, x, y)} :: Leaves(g, s, t, x, y) && x != v ==> m <= s.idx[y])
    && (forall w :: w in P && s.OnStack(w) ==> m <= s.idx[w])
    && P <= t.idx.Keys
  }

  /** An edge from a node put on the stack since s to a node on the stack of s. */
  ghost predicate Leaves(g: Succ, s: Search, t: Search, x: Node, y: Node)
    requires Shape(g, s) && Shape(g, t)
  {
    t.OnStack(x) && x !in s.idx && s.OnStack(y) && x in g && y in g[x]
  }

  /** The result of a finished search from v, started in s and ended in t with lowlink n: v has left the
      stack with its component, or v reaches a node of s's stack of index n and nothing leads below it. */
  ghost predicate Returned(g: Succ, s: Search, t: Search, v: Node, n: nat)
    requires Shape(g, s) && Shape(g, t)
  {
    && v in t.idx && v !in s.idx && n <= t.idx[v]
    && (if t.OnStack(v) then exists y {:trigger Target(g, s, v, n, y)} :: Target(g, s, v, n, y)
        else n == t.idx[v])
    && (forall x, y {:trigger Leaves(g, s, t, x, y)} :: Leaves(g, s, t, x, y) ==> n <= s.idx[y])
  }

  /** A successor on the stack lowers the link to its index. */
  lemma SeeStackNode(g: Succ, s: Search, t: Search, v: Node, P: set<Node>, m: nat, w: Node, P': set<Node>, m': nat)
    requires Shape(g, s) && Shape(g, t) && Extends(s, t) && Lowest(g, s, t, v, P, m)
    requires v in g && w in g[v] && t.OnStack(w) && P' == P + {w} && m' == MinInt(m, t.idx[w])
    ensures Lowest(g, s, t, v, P', m')
  {
    ReachStep(g, v, w);
    var y :| Target(g, t, v, m, y);
    assert Target(g, t, v, m', if m' == m then y else w);
  }

  /** A successor that has left the stack changes nothing. */
  lemma SeeDoneNode(g: Succ, s: Search, t: Search, v: Node, P: set<Node>, m: nat, w: Node, P': set<Node>)
    requires Shape(g, s) && Shape(g, t) && Extends(s, t) && Lowest(g, s, t, v, P, m)
    requires w in t.idx && !t.OnStack(w) && P' == P + {w}
    ensures Lowest(g, s, t, v, P', m)
  {
  }

  lemma NewTarget(g: Succ, t: Search, u: Search, v: Node, m: nat, w: Node, n: nat, m': nat)
    requires Shape(g, t) && Shape(g, u) && Extends(t, u) && t.OnStack(v) && m <= t.idx[v] && v in g && w in g[v]
    requires exists y {:trigger Target(g, t, v, m, y)} :: Target(g, t, v, m, y)
    requires Returned(g, t, u, w, n) && m' == MinInt(m, n)
    ensures exists y {:trigger Target(g, u, v, m', y)} :: Target(g, u, v, m', y)
  {
    if m' == m {
      var y :| Target(g, t, v, m, y);
      assert Target(g, u, v, m', y);
    } else {
      assert u.OnStack(w);
      ReachStep(g, v, w);
      var z :| Target(g, t, w, n, z);
      ReachTransitive(g, v, w, z);
      assert Target(g, u, v, m', z);
    }
  }

  /** A new successor hands its lowlink on. */
  lemma SeeNewNode(g: Succ, s: Search, t: Search, u: Search, v: Node, P: set<Node>, m: nat, w: Node, n: nat,
                   P': set<Node>, m': nat)
    requires Shape(g, s) && Shape(g, t) && Shape(g, u) && Extends(s, t) && Extends(t, u) && Lowest(g, s, t, v, P, m)
    requires v in g && w in g[v] && t.OnStack(v) && Returned(g, t, u, w, n) && P' == P + {w} && m' == MinInt(m, n)
    ensures Lowest(g, s, u, v, P', m')
  {
    NewTarget(g, t, u, v, m, w, n, m');
    forall x, y | Leaves(g, s, u, x, y) && x != v ensures m' <= s.idx[y] {
      if x in t.idx { assert Leaves(g, s, t, x, y); } else { assert Leaves(g, t, u, x, y); }
    }
  }

  // ----- leaving a node -----

  /** From a node on the stack of s a gray node of s can be reached, at or below it. */
  lemma DescendsLater(g: Succ, s: Search, t: Search, gray: set<Node>, y: Node) returns (q: Node)
    requires Shape(g, s) && Linked(g, s, gray) && Extends(s, t) && Shape(g, t) && s.OnStack(y)
    ensures GrayBelow(g, t, gray, y, q)
  {
    assert Descends(g, s, gray, y);
    q :| GrayBelow(g, s, gray, y, q);
  }

  lemma StaysLinked(g: Succ, s: Search, t: Search, gray: set<Node>, gray': set<Node>, v: Node, m: nat, z: Node)
    requires Shape(g, s) && Linked(g, s, gray) && Shape(g, t) && Linked(g, t, gray') && Extends(s, t)
    requires gray' == gray + {v} && t.OnStack(v) && t.idx[v] == s.index && m < t.idx[v]
    requires exists y {:trigger Target(g, t, v, m, y)} :: Target(g, t, v, m, y)
    requires t.OnStack(z)
    ensures Descends(g, t, gray, z)
  {
    assert Descends(g, t, gray', z);
    var x :| GrayBelow(g, t, gray', z, x);
    if x == v {
      var y :| Target(g, t, v, m, y);
      assert s.OnStack(y);
      var q := DescendsLater(g, s, t, gray, y);
      ReachTransitive(g, z, v, y);
      ReachTransitive(g, z, y, q);
      assert GrayBelow(g, t, gray, z, q);
    } else {
      assert GrayBelow(g, t, gray, z, x);
    }
  }

  lemma StaysReturned(g: Succ, s: Search, t: Search, v: Node, P: set<Node>, m: nat)
    requires Shape(g, s) && Shape(g, t) && v in g && v !in s.idx && Extends(s, t) && t.OnStack(v) && t.idx[v] == s.index
    requires Lowest(g, s, t, v, P, m) && P == g[v] && m < t.idx[v]
    ensures Returned(g, s, t, v, m)
  {
    var y :| Target(g, t, v, m, y);
    assert Target(g, s, v, m, y);
    forall x, y | Leaves(g, s, t, x, y) ensures m <= s.idx[y] {
      assert x == v ==> y in P;
    }
  }

  lemma StaysColored(g: Succ, s: Search, t: Search, gray: set<Node>, gray': set<Node>, v: Node)
    requires Shape(g, s) && Colored(g, s, gray) && Shape(g, t) && Colored(g, t, gray') && Extends(s, t)
    requires gray' == gray + {v} && v in g && g[v] <= t.idx.Keys
    ensures Colored(g, t, gray)
  {
  }

  lemma StaysAllLinked(g: Succ, s: Search, t: Search, gray: set<Node>, gray': set<Node>, v: Node, m: nat)
    requires Shape(g, s) && Linked(g, s, gray) && Shape(g, t) && Linked(g, t, gray') && Extends(s, t)
    requires gray' == gray + {v} && t.OnStack(v) && t.idx[v] == s.index && m < t.idx[v]
    requires exists y {:trigger Target(g, t, v, m, y)} :: Target(g, t, v, m, y)
    ensures Linked(g, t, gray)
  {
    forall z | t.OnStack(z) ensures Descends(g, t, gray, z) {
      StaysLinked(g, s, t, gray, gray', v, m, z);
    }
  }

  /** v keeps its place on the stack: it reaches something below itself. */
  lemma StayOnStack(g: Succ, s: Search, t: Search, gray: set<Node>, gray': set<Node>, v: Node, P: set<Node>, m: nat)
    requires Invariant(g, s, gray) && v in g && v !in s.idx && gray' == gray + {v}
    requires Invariant(g, t, gray') && Extends(s, t) && t.OnStack(v) && t.idx[v] == s.index
    requires Lowest(g, s, t, v, P, m) && P == g[v] && m < t.idx[v]
    ensures Invariant(g, t, gray)
  {
    StaysColored(g, s, t, gray, gray', v);
    StaysAllLinked(g, s, t, gray, gray', v, m);
  }

  // ----- handing out a component -----

  /** What v's search has put on the stack and left there. */
  ghost function Above(s: Search, t: Search): set<Node> {
    set x | x in t.onStack && t.onStack[x] && x !in s.idx
  }

  /** The search of v is over, and its lowlink is its own index. */
  ghost predicate Rooted(g: Succ, s: Search, t: Search, gray: set<Node>, gray': set<Node>, v: Node) {
    && Invariant(g, s, gray) && v in g && v !in s.idx && gray' == gray + {v}
    && Invariant(g, t, gray') && Extends(s, t) && t.OnStack(v) && t.idx[v] == s.index
    && Lowest(g, s, t, v, g[v], t.idx[v])
  }

  lemma EdgeStaysAbove(g: Succ, s: Search, t: Search, gray: set<Node>, gray': set<Node>, v: Node, x: Node, y: Node)
    requires Rooted(g, s, t, gray, gray', v) && x in Above(s, t) && y in g[x]
    ensures y in Above(s, t) + t.Done()
  {
    assert y in t.idx;
    if s.OnStack(y) {
      assert Leaves(g, s, t, x, y);
      assert false;
    }
  }

  /** No edge leads from the new component to anything but what has been handed out. */
  lemma AboveIsClosed(g: Succ, s: Search, t: Search, gray: set<Node>, gray': set<Node>, v: Node)
    requires Rooted(g, s, t, gray, gray', v)
    ensures ClosedUnder(g, Above(s, t) + t.Done())
  {
    DoneIsClosed(g, t, gray');
    forall x, y | x in Above(s, t) + t.Done() && x in g && y in g[x] ensures y in Above(s, t) + t.Done() {
      if x in Above(s, t) { EdgeStaysAbove(g, s, t, gray, gray', v, x, y); }
    }
  }

  lemma MutualWithRoot(g: Succ, s: Search, t: Search, gray: set<Node>, gray': set<Node>, v: Node, y: Node)
    requires Rooted(g, s, t, gray, gray', v) && y in Above(s, t)
    ensures Reach(g, v, y) && Reach(g, y, v)
  {
    assert v in gray' && t.idx[v] <= t.idx[y];
    var x := ReachesGray(g, t, gray', y);
    AboveIsClosed(g, s, t, gray, gray', v);
    GoesTo(g, Above(s, t) + t.Done(), y, x);
    assert x in gray ==> s.OnStack(x);
  }

  lemma ReachesGray(g: Succ, t: Search, gray: set<Node>, y: Node) returns (x: Node)
    requires Shape(g, t) && Linked(g, t, gray) && t.OnStack(y)
    ensures GrayBelow(g, t, gray, y, x)
  {
    assert Descends(g, t, gray, y);
    x :| GrayBelow(g, t, gray, y, x);
  }

  lemma GoesTo(g: Succ, C: set<Node>, x: Node, y: Node)
    requires ClosedUnder(g, C) && x in C && Reach(g, x, y)
    ensures y in C
  {
  }

  lemma AboveIsComponent(g: Succ, s: Search, t: Search, gray: set<Node>, gray': set<Node>, v: Node)
    requires Rooted(g, s, t, gray, gray', v)
    ensures IsComponent(g, Above(s, t))
  {
    var C := Above(s, t);
    assert v in C;
    forall x, y | x in C && y in C ensures Reach(g, x, y) {
      MutualWithRoot(g, s, t, gray, gray', v, x);
      MutualWithRoot(g, s, t, gray, gray', v, y);
      ReachTransitive(g, x, v, y);
    }
    forall x, z | x in C && Reach(g, x, z) && Reach(g, z, x) ensures z in C {
      AboveIsClosed(g, s, t, gray, gray', v);
      assert ClosedUnder(g, C + t.Done());
      DoneIsClosed(g, t, gray');
      assert x !in t.Done();
    }
  }

  /** The search after c has been taken off the stack and handed out. */
  ghost predicate PoppedTo(s: Search, t: Search, u: Search, c: seq<Node>) {
    && u.index == t.index && u.stack == s.stack && u.idx == t.idx && u.results == t.results + [c]
    && u.onStack.Keys == t.onStack.Keys
      && (forall x :: x in t.onStack ==> u.onStack[x] == (t.onStack[x] && x !in Above(s, t)))
    && Elements(c) == Above(s, t) && NoDuplicates(c)
  }

  lemma PopKeepsShape(g: Succ, s: Search, t: Search, gray: set<Node>, gray': set<Node>, v: Node, u: Search,
                      c: seq<Node>)
    requires Rooted(g, s, t, gray, gray', v) && PoppedTo(s, t, u, c)
    ensures Shape(g, u) && Extends(s, u) && forall x :: u.OnStack(x) <==> s.OnStack(x)
  {
    forall x ensures u.OnStack(x) <==> s.OnStack(x) {
      assert s.OnStack(x) ==> t.OnStack(x);
    }
  }

  lemma {:induction false} CollectedPrefix(r: seq<seq<Node>>, r': seq<seq<Node>>, n: nat)
    requires r <= r' && n <= |r|
    ensures Collected(r', n) == Collected(r, n)
    decreases n
  {
    if n > 0 { CollectedPrefix(r, r', n - 1); }
  }

  lemma ComponentPrefix(g: Succ, r: seq<seq<Node>>, r': seq<seq<Node>>, n: nat)
    requires r <= r' && n < |r| && ComponentAt(g, r, n)
    ensures ComponentAt(g, r', n)
  {
    CollectedPrefix(r, r', n);
  }

  lemma LastComponent(g: Succ, r: seq<seq<Node>>, c: seq<Node>, r': seq<seq<Node>>, k: nat, D: set<Node>)
    requires k == |r| && r' == r + [c] && D == Collected(r, k) && IsComponent(g, Elements(c)) && NoDuplicates(c)
    requires Elements(c) !! D && ClosedUnder(g, Elements(c) + D)
    ensures ComponentAt(g, r', k) && Collected(r', k) == D
  {
    CollectedPrefix(r, r', k);
    SwapUnion(D, Elements(c));
  }

  lemma AddComponent(g: Succ, r: seq<seq<Node>>, c: seq<Node>, r': seq<seq<Node>>, k: nat, D: set<Node>)
    requires Components(g, r) && k == |r| && r' == r + [c] && D == Collected(r, k) && IsComponent(g, Elements(c))
      && NoDuplicates(c)
    requires Elements(c) !! D && ClosedUnder(g, Elements(c) + D)
    ensures Components(g, r') && Collected(r', |r'|) == D + Elements(c)
  {
    LastComponent(g, r, c, r', k, D);
    forall n | 0 <= n < |r'| ensures ComponentAt(g, r', n) {
      if n < k {
        assert ComponentAt(g, r, n);
        ComponentPrefix(g, r, r', n);
      }
    }
  }

  lemma PopKeepsComponents(g: Succ, s: Search, t: Search, gray: set<Node>, gray': set<Node>, v: Node, u: Search,
                           c: seq<Node>)
    requires Rooted(g, s, t, gray, gray', v) && PoppedTo(s, t, u, c)
    ensures Components(g, u.results) && u.Done() == Collected(u.results, |u.results|)
  {
    AboveIsComponent(g, s, t, gray, gray', v);
    AboveIsClosed(g, s, t, gray, gray', v);
    AddComponent(g, t.results, c, u.results, |t.results|, t.Done());
    SameSet(u.Done(), t.Done() + Above(s, t));
  }

  lemma SwapUnion(a: set<Node>, b: set<Node>)
    ensures a + b == b + a
  {
  }

  lemma PopKeepsInvariant(g: Succ, s: Search, t: Search, gray: set<Node>, gray': set<Node>, v: Node, u: Search,
                          c: seq<Node>)
    requires Rooted(g, s, t, gray, gray', v) && PoppedTo(s, t, u, c)
    ensures Invariant(g, u, gray) && Extends(s, u) && Returned(g, s, u, v, u.idx[v])
  {
    PopKeepsShape(g, s, t, gray, gray', v, u, c);
    PopKeepsComponents(g, s, t, gray, gray', v, u, c);
    forall y | u.OnStack(y) ensures Descends(g, u, gray, y) {
      assert Descends(g, s, gray, y);
      var x :| GrayBelow(g, s, gray, y, x);
      assert GrayBelow(g, u, gray, y, x);
    }
  }
}
