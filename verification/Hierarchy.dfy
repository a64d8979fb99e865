/** The nesting of nodes in clusters: postorder intervals, and the path between two nodes through their
    lowest common ancestor. */
module Hierarchy {
  import opened Graphs
  import opened Sums

  type Parents = map<Node, Node>

  type Depths = map<Node, nat>

  /** Nodes without a parent are at the top; depth shows that the nesting has no cycle. */
  ghost predicate Forest(nodes: set<Node>, par: Parents, depth: Depths) {
    && par.Keys <= nodes && depth.Keys == nodes
    && forall x :: x in par ==> par[x] in nodes && depth[par[x]] < depth[x]
  }

  /** u is x or one of the nodes around it. */
  ghost predicate Around(par: Parents, depth: Depths, u: Node, x: Node)
    decreases if x in depth then depth[x] else 0
  {
    u == x || (x in par && x in depth && par[x] in depth && depth[par[x]] < depth[x] && Around(par, depth, u, par[x]))
  }

  ghost predicate Above(par: Parents, depth: Depths, u: Node, x: Node) {
    x in par && Around(par, depth, u, par[x])
  }

  lemma {:induction false} AroundIsHigher(nodes: set<Node>, par: Parents, depth: Depths, u: Node, x: Node)
    requires Forest(nodes, par, depth) && x in nodes && Around(par, depth, u, x)
    ensures u in nodes && (u == x || depth[u] < depth[x])
    decreases depth[x]
  {
    if u != x { AroundIsHigher(nodes, par, depth, u, par[x]); }
  }

  lemma {:induction false} AroundTransitive(nodes: set<Node>, par: Parents, depth: Depths, r: Node, u: Node, x: Node)
    requires Forest(nodes, par, depth) && x in nodes && Around(par, depth, r, u) && Around(par, depth, u, x)
    ensures Around(par, depth, r, x)
    decreases depth[x]
  {
    if u != x { AroundTransitive(nodes, par, depth, r, u, par[x]); }
  }

  /** Two nodes around the same node lie one in the other. */
  lemma {:induction false} AroundChain(nodes: set<Node>, par: Parents, depth: Depths, r: Node, s: Node, x: Node)
    requires Forest(nodes, par, depth) && x in nodes && Around(par, depth, r, x) && Around(par, depth, s, x)
    ensures Around(par, depth, r, s) || Around(par, depth, s, r)
    decreases depth[x]
  {
    if x != r && x != s { AroundChain(nodes, par, depth, r, s, par[x]); }
  }

  // ----- postorder -----

  datatype Interval = Interval(low: nat, lim: nat)

  type Numbers = map<Node, Interval>

  /** The nodes in and under the members of K. */
  ghost function Under(nodes: set<Node>, par: Parents, depth: Depths, K: set<Node>): set<Node> {
    set x | x in nodes && exists d :: d in K && Around(par, depth, d, x)
  }

  ghost predicate Encloses(m: Numbers, u: Node, x: Node)
    requires u in m && x in m
  {
    m[u].low <= m[x].low && m[x].lim <= m[u].lim
  }

  /** Among the nodes of N, numbered within [lo, hi), an interval encloses another exactly if its node is around the
      other. */
  ghost predicate Exact(par: Parents, depth: Depths, m: Numbers, N: set<Node>, lo: nat, hi: nat) {
    && (forall x :: x in N ==> x in m && lo <= m[x].low <= m[x].lim < hi)
    && (forall u, x {:trigger Around(par, depth, u, x)} {:trigger Encloses(m, u, x)} :: u in N && x in N ==>
        (Encloses(m, u, x) <==> Around(par, depth, u, x)))
  }

  /** Siblings have nothing in common. */
  lemma SiblingsApart(nodes: set<Node>, par: Parents, depth: Depths, c: Node, d: Node, x: Node)
    requires Forest(nodes, par, depth) && x in nodes && c in nodes && d in nodes
    requires (c in par && d in par && par[c] == par[d]) || (c !in par && d !in par)
    requires Around(par, depth, c, x) && Around(par, depth, d, x)
    ensures c == d
  {
    AroundChain(nodes, par, depth, c, d, x);
    if c != d {
      if Around(par, depth, c, d) { AroundIsHigher(nodes, par, depth, c, par[d]); }
        else { AroundIsHigher(nodes, par, depth, d, par[c]); }
    }
  }

  ghost predicate Siblings(par: Parents, K: set<Node>, c: Node) {
    forall d :: d in K ==> d != c && ((c in par && d in par && par[c] == par[d]) || (c !in par && d !in par))
  }

  /** The numbers of a further sibling's tree join those of the trees before. */
  lemma JoinTrees(nodes: set<Node>, par: Parents, depth: Depths, m: Numbers, m': Numbers, K: set<Node>, c: Node,
                  K': set<Node>, lo: nat, mid: nat, hi: nat)
    requires Forest(nodes, par, depth) && K <= nodes && c in nodes && Siblings(par, K, c) && K' == K + {c}
      && lo <= mid <= hi
    requires Exact(par, depth, m, Under(nodes, par, depth, K), lo, mid)
    requires Exact(par, depth, m', Under(nodes, par, depth, {c}), mid, hi)
    requires forall x :: x in Under(nodes, par, depth, K) ==> x in m' && m'[x] == m[x]
    ensures Exact(par, depth, m', Under(nodes, par, depth, K'), lo, hi)
  {
    var N, B, N' := Under(nodes, par, depth, K), Under(nodes, par, depth, {c}), Under(nodes, par, depth, K');
    forall x | x in N' ensures x in N || x in B {
      var d :| d in K' && Around(par, depth, d, x);
      assert d in K || d in {c};
    }
    forall u, x | u in N' && x in N' ensures Encloses(m', u, x) <==> Around(par, depth, u, x) {
      if u in N && x in N {
        assert Encloses(m, u, x) <==> Around(par, depth, u, x);
      } else if !(u in B && x in B) {
        TreesApart(nodes, par, depth, K, c, u, x);
      }
    }
  }

  lemma TreesApart(nodes: set<Node>, par: Parents, depth: Depths, K: set<Node>, c: Node, u: Node, x: Node)
    requires Forest(nodes, par, depth) && K <= nodes && c in nodes && Siblings(par, K, c)
    requires (u in Under(nodes, par, depth, K) && x in Under(nodes, par, depth, {c}))
      || (x in Under(nodes, par, depth, K) && u in Under(nodes, par, depth, {c}))
    ensures !Around(par, depth, u, x)
  {
    if Around(par, depth, u, x) {
      if u in Under(nodes, par, depth, K) && x in Under(nodes, par, depth, {c}) {
        var d :| d in K && Around(par, depth, d, u);
        AroundTransitive(nodes, par, depth, d, u, x);
        SiblingsApart(nodes, par, depth, c, d, x);
      } else {
        var d :| d in K && Around(par, depth, d, x);
        AroundTransitive(nodes, par, depth, c, u, x);
        SiblingsApart(nodes, par, depth, c, d, x);
      }
    }
  }

  function ChildrenOf(nodes: set<Node>, par: Parents, v: Node): set<Node> {
    set x | x in nodes && x in par && par[x] == v
  }

  /** What lies under v is v and what lies under its children. */
  lemma UnderChildren(nodes: set<Node>, par: Parents, depth: Depths, v: Node, K: set<Node>)
    requires Forest(nodes, par, depth) && v in nodes && K == ChildrenOf(nodes, par, v)
    ensures Under(nodes, par, depth, {v}) == Under(nodes, par, depth, K) + {v}
    ensures forall x :: x in Under(nodes, par, depth, K) ==>
      x != v && Around(par, depth, v, x) && !Around(par, depth, x, v)
  {
    var N := Under(nodes, par, depth, K);
    forall x | x in N ensures Around(par, depth, v, x) && x != v && !Around(par, depth, x, v) {
      var d :| d in K && Around(par, depth, d, x);
      assert Around(par, depth, v, d) by { assert Around(par, depth, v, v); }
      AroundTransitive(nodes, par, depth, v, d, x);
      AroundIsHigher(nodes, par, depth, d, x);
      if Around(par, depth, x, v) { AroundIsHigher(nodes, par, depth, x, v); }
    }
    forall x | x in nodes && Around(par, depth, v, x) && x != v ensures x in N {
      var d := ChildAround(nodes, par, depth, v, x);
      assert d in K;
    }
    forall x | x in Under(nodes, par, depth, {v}) ensures x in N + {v} {
      assert Around(par, depth, v, x);
    }
    forall x | x in N + {v} ensures x in Under(nodes, par, depth, {v}) {
      assert v in {v} && Around(par, depth, v, x);
    }
  }

  lemma {:induction false} ChildAround(nodes: set<Node>, par: Parents, depth: Depths, v: Node, x: Node)
    returns (d: Node)
    requires Forest(nodes, par, depth) && x in nodes && Around(par, depth, v, x) && x != v
    ensures d in nodes && d in par && par[d] == v && Around(par, depth, d, x)
    decreases depth[x]
  {
    if par[x] == v { d := x; } else { d := ChildAround(nodes, par, depth, v, par[x]); }
  }

  lemma CloseTree(nodes: set<Node>, par: Parents, depth: Depths, m: Numbers, K: set<Node>, v: Node, m': Numbers,
                  lo: nat, hi: nat)
    requires Forest(nodes, par, depth) && v in nodes && K == ChildrenOf(nodes, par, v) && lo <= hi
    requires Exact(par, depth, m, Under(nodes, par, depth, K), lo, hi) && m' == m[v := Interval(lo, hi)]
    ensures Exact(par, depth, m', Under(nodes, par, depth, {v}), lo, hi + 1)
  {
    UnderChildren(nodes, par, depth, v, K);
    var N, N' := Under(nodes, par, depth, K), Under(nodes, par, depth, {v});
    forall u, x | u in N' && x in N' ensures Encloses(m', u, x) <==> Around(par, depth, u, x) {
      ClosePair(par, depth, m, N, v, m', lo, hi, u, x);
    }
  }

  lemma ClosePair(par: Parents, depth: Depths, m: Numbers, N: set<Node>, v: Node, m': Numbers, lo: nat, hi: nat,
                  u: Node, x: Node)
    requires Exact(par, depth, m, N, lo, hi) && lo <= hi && m' == m[v := Interval(lo, hi)] && (u in N || u == v)
      && (x in N || x == v)
    requires v !in N && forall y :: y in N ==> Around(par, depth, v, y) && !Around(par, depth, y, v)
    ensures u in m' && x in m' && (Encloses(m', u, x) <==> Around(par, depth, u, x))
  {
    if u in N && x in N { assert Encloses(m, u, x) <==> Around(par, depth, u, x); }
  }

  ghost predicate KeepsRest(m: Numbers, m': Numbers, N: set<Node>) {
    forall x :: x in m && x !in N ==> x in m' && m'[x] == m[x]
  }

  class Numbering {
    const nodes: set<Node>
    const par: Parents
    var result: Numbers
    var lim: nat

    constructor (nodes: set<Node>, par: Parents)
      ensures this.nodes == nodes && this.par == par && result == map[] && lim == 0
    {
      this.nodes, this.par, result, lim := nodes, par, map[], 0;
    }

    method Dfs(v: Node, ghost depth: Depths, ghost bound: nat)
      requires Forest(nodes, par, depth) && v in nodes && forall x :: x in nodes ==> depth[x] <= bound
      modifies this
      ensures old(lim) <= lim && Exact(par, depth, result, Under(nodes, par, depth, {v}), old(lim), lim)
      ensures KeepsRest(old(result), result, Under(nodes, par, depth, {v}))
      decreases bound - depth[v], 1
    {
      var low := lim;
      ghost var K := ChildrenOf(nodes, par, v);
      var kids := ChildrenOf(nodes, par, v);
      DfsAll(kids, Some(v), depth, bound);
      ghost var m := result;
      result := result[v := Interval(low, lim)];
      CloseTree(nodes, par, depth, m, K, v, result, low, lim);
      UnderChildren(nodes, par, depth, v, K);
      lim := lim + 1;
    }

    /** The children of one node, or the nodes at the top. */
    method DfsAll(kids: set<Node>, ghost parent: Option<Node>, ghost depth: Depths, ghost bound: nat)
      requires Forest(nodes, par, depth) && kids <= nodes && forall x :: x in nodes ==> depth[x] <= bound
      requires forall x :: x in kids ==> if parent.Some? then x in par && par[x] == parent.value else x !in par
      requires parent.Some? ==> parent.value in nodes
      modifies this
      ensures old(lim) <= lim && Exact(par, depth, result, Under(nodes, par, depth, kids), old(lim), lim)
      ensures KeepsRest(old(result), result, Under(nodes, par, depth, kids))
      decreases if parent.Some? then bound - depth[parent.value] else bound + 1, 0
    {
      var todo := kids;
      ghost var K: set<Node> := {};
      assert Under(nodes, par, depth, K) == {};
      while todo != {}
        invariant todo <= kids && K == kids - todo && old(lim) <= lim
        invariant Exact(par, depth, result, Under(nodes, par, depth, K), old(lim), lim)
        invariant KeepsRest(old(result), result, Under(nodes, par, depth, K))
        decreases todo
      {
        var c :| c in todo;
        TakeOne(kids, todo, c);
        todo := todo - {c};
        ghost var m, mid, K' := result, lim, K + {c};
        Dfs(c, depth, bound);
        UnderApart(nodes, par, depth, K, c);
        JoinTrees(nodes, par, depth, m, result, K, c, K', old(lim), mid, lim);
        UnderGrows(nodes, par, depth, K, c, K');
        K := K';
      }
      SameSet(K, kids);
    }
  }

  lemma UnderApart(nodes: set<Node>, par: Parents, depth: Depths, K: set<Node>, c: Node)
    requires Forest(nodes, par, depth) && K <= nodes && c in nodes && Siblings(par, K, c)
    ensures Under(nodes, par, depth, K) !! Under(nodes, par, depth, {c})
  {
    forall x | x in Under(nodes, par, depth, K) && x in Under(nodes, par, depth, {c}) ensures false {
      TreesApart(nodes, par, depth, K, c, x, x);
    }
  }

  lemma UnderGrows(nodes: set<Node>, par: Parents, depth: Depths, K: set<Node>, c: Node, K': set<Node>)
    requires K' == K + {c}
    ensures Under(nodes, par, depth, K') == Under(nodes, par, depth, K) + Under(nodes, par, depth, {c})
  {
    forall x | x in nodes
      ensures x in Under(nodes, par, depth, K') <==>
        x in Under(nodes, par, depth, K) || x in Under(nodes, par, depth, {c}) {
      if x in Under(nodes, par, depth, K') {
        var d :| d in K' && Around(par, depth, d, x);
        assert d in K || d in {c};
      }
      if x in Under(nodes, par, depth, K) {
        var d :| d in K && Around(par, depth, d, x);
        assert d in K';
      }
      if x in Under(nodes, par, depth, {c}) { assert c in K'; }
    }
  }

  /** An interval encloses another exactly if its node is the other or around it. */
  ghost predicate Numbered(nodes: set<Node>, par: Parents, depth: Depths, m: Numbers) {
    && (forall x :: x in nodes ==> x in m && m[x].low <= m[x].lim)
    && (forall a, b {:trigger Around(par, depth, a, b)} {:trigger Encloses(m, a, b)} :: a in nodes && b in nodes ==>
        (Encloses(m, a, b) <==> Around(par, depth, a, b)))
  }

  /** Numbers all nodes in postorder. */
  method Postorder(nodes: set<Node>, par: Parents, ghost depth: Depths) returns (m: Numbers)
    requires Forest(nodes, par, depth)
    ensures Numbered(nodes, par, depth, m)
  {
    ghost var bound := HighestDepth(nodes, depth);
    var n := new Numbering(nodes, par);
    var tops := set x | x in nodes && x !in par;
    n.DfsAll(tops, None, depth, bound);
    m := n.result;
    forall x | x in nodes ensures x in Under(nodes, par, depth, tops) {
      var t := TopAround(nodes, par, depth, x);
      assert t in tops;
    }
  }

  lemma {:induction false} TopAround(nodes: set<Node>, par: Parents, depth: Depths, x: Node) returns (t: Node)
    requires Forest(nodes, par, depth) && x in nodes
    ensures t in nodes && t !in par && Around(par, depth, t, x)
    decreases depth[x]
  {
    if x in par { t := TopAround(nodes, par, depth, par[x]); } else { t := x; }
  }

  ghost function HighestDepth(nodes: set<Node>, depth: Depths): (b: nat)
    requires nodes <= depth.Keys
    ensures forall x :: x in nodes ==> depth[x] <= b
  {
    if nodes == {} then 0 else
      var x :| x in nodes;
      var b := HighestDepth(nodes - {x}, depth);
      if depth[x] > b then depth[x] else b
  }

  // ----- the path -----

  function ParentOf(par: Parents, x: Option<Node>): Option<Node> {
    if x.Some? && x.value in par then Some(par[x.value]) else None
  }

  /** u lies around both v and w, and all nodes that do lie around u or are u; None if there is no such node. */
  ghost predicate IsLowestCommon(nodes: set<Node>, par: Parents, depth: Depths, v: Node, w: Node, u: Option<Node>) {
    if u.Some? then
      && Above(par, depth, u.value, v) && Above(par, depth, u.value, w)
      && forall z :: z in nodes && Above(par, depth, z, v) && Above(par, depth, z, w) ==> Around(par, depth, z, u.value)
    else forall z :: z in nodes ==> !(Above(par, depth, z, v) && Above(par, depth, z, w))
  }

  /** From v's parent step by step up to place k, and from there step by step down to w's parent. */
  ghost predicate IsParentPath(par: Parents, path: seq<Option<Node>>, k: nat, v: Node, w: Node, lca: Option<Node>) {
    && k < |path| && path[k] == lca && path[0] == ParentOf(par, Some(v)) && ParentOf(par, Some(w)) == path[|path| - 1]
    && (forall i :: 0 <= i < k ==> path[i].Some? && path[i] != lca && path[i + 1] == ParentOf(par, path[i]))
    && (forall i :: k < i < |path| ==> path[i].Some? && path[i] != lca && path[i - 1] == ParentOf(par, path[i]))
  }

  function Reverse(s: seq<Option<Node>>): (r: seq<Option<Node>>)
    ensures |r| == |s| && forall i :: 0 <= i < |s| ==> r[i] == s[|s| - 1 - i]
  {
    seq(|s|, i requires 0 <= i < |s| => s[|s| - 1 - i])
  }

  /** The interval test of the loop: both v and w lie in u or are u. */
  lemma CoversBoth(nodes: set<Node>, par: Parents, depth: Depths, m: Numbers, u: Node, v: Node, w: Node)
    requires u in nodes && v in nodes && w in nodes && Numbered(nodes, par, depth, m)
    ensures m[u].low <= MinInt(m[v].low, m[w].low) && MaxInt(m[v].lim, m[w].lim) <= m[u].lim <==>
      Around(par, depth, u, v) && Around(par, depth, u, w)
  {
    assert Encloses(m, u, v) <==> Around(par, depth, u, v);
    assert Encloses(m, u, w) <==> Around(par, depth, u, w);
  }

  method FindPath(nodes: set<Node>, par: Parents, m: Numbers, v: Node, w: Node, ghost depth: Depths)
    returns (path: seq<Option<Node>>, lca: Option<Node>, ghost k: nat)
    requires Forest(nodes, par, depth) && v in nodes && w in nodes && !Above(par, depth, w, v)
    requires Numbered(nodes, par, depth, m)
    ensures IsLowestCommon(nodes, par, depth, v, w, lca) && IsParentPath(par, path, k, v, w, lca)
  {
    var vPath;
    vPath, lca := Ascend(nodes, par, m, v, w, depth);
    LowestFound(nodes, par, depth, v, w, lca);
    var wPath := Collect(nodes, par, w, lca, depth);
    k := |vPath| - 1;
    path := vPath + Reverse(wPath);
  }

  ghost predicate Covering(par: Parents, depth: Depths, u: Node, v: Node, w: Node) {
    Around(par, depth, u, v) && Around(par, depth, u, w)
  }

  /** Up from v to the first node that covers both, or past the top. */
  method Ascend(nodes: set<Node>, par: Parents, m: Numbers, v: Node, w: Node, ghost depth: Depths)
    returns (vPath: seq<Option<Node>>, top: Option<Node>)
    requires Forest(nodes, par, depth) && v in nodes && w in nodes && Numbered(nodes, par, depth, m)
    ensures IsFirstCovering(nodes, par, depth, v, w, top)
    ensures vPath != [] && vPath[|vPath| - 1] == top && vPath[0] == ParentOf(par, Some(v))
    ensures forall i :: 0 <= i < |vPath| - 1 ==>
      vPath[i].Some? && vPath[i] != top && vPath[i + 1] == ParentOf(par, vPath[i])
  {
    var low, lim := MinInt(m[v].low, m[w].low), MaxInt(m[v].lim, m[w].lim);
    top := ParentOf(par, Some(v));
    vPath := [top];
    while top.Some? && (m[top.value].low > low || lim > m[top.value].lim)
      invariant top.Some? ==> top.value in nodes && Above(par, depth, top.value, v)
      invariant forall z :: z in nodes && Above(par, depth, z, v) && Covering(par, depth, z, v, w) ==>
        top.Some? && Around(par, depth, z, top.value)
      invariant vPath != [] && vPath[|vPath| - 1] == top && vPath[0] == ParentOf(par, Some(v))
      invariant forall i :: 0 <= i < |vPath| - 1 ==>
        vPath[i].Some? && vPath[i].value in nodes && vPath[i + 1] == ParentOf(par, vPath[i])
      invariant forall i :: 0 <= i < |vPath| - 1 ==> top.Some? ==> depth[vPath[i].value] > depth[top.value]
      decreases if top.Some? then depth[top.value] + 1 else 0
    {
      CoversBoth(nodes, par, depth, m, top.value, v, w);
      StepUp(nodes, par, depth, v, w, top.value);
      top := ParentOf(par, top);
      vPath := vPath + [top];
    }
    if top.Some? { CoversBoth(nodes, par, depth, m, top.value, v, w); }
  }

  /** The lowest node above v that covers both, if any does. */
  ghost predicate IsFirstCovering(nodes: set<Node>, par: Parents, depth: Depths, v: Node, w: Node, top: Option<Node>) {
    && (top.Some? ==> top.value in nodes && Above(par, depth, top.value, v) && Covering(par, depth, top.value, v, w))
    && forall z :: z in nodes && Above(par, depth, z, v) && Covering(par, depth, z, v, w) ==>
      top.Some? && Around(par, depth, z, top.value)
  }

  /** What is above v and covers both is above a node above v that does not. */
  lemma StepUp(nodes: set<Node>, par: Parents, depth: Depths, v: Node, w: Node, x: Node)
    requires Forest(nodes, par, depth) && v in nodes && w in nodes && x in nodes && Above(par, depth, x, v)
      && !Covering(par, depth, x, v, w)
    requires forall z :: z in nodes && Above(par, depth, z, v) && Covering(par, depth, z, v, w) ==>
      Around(par, depth, z, x)
    ensures x in par ==> par[x] in nodes && depth[par[x]] < depth[x] && Above(par, depth, par[x], v)
    ensures forall z :: z in nodes && Above(par, depth, z, v) && Covering(par, depth, z, v, w) ==>
      x in par && Around(par, depth, z, par[x])
  {
    if x in par {
      assert Around(par, depth, par[x], par[x]);
      AroundTransitive(nodes, par, depth, par[x], x, par[v]);
    }
  }

  /** Unless w is above v, the first covering node is the lowest common proper ancestor. */
  lemma LowestFound(nodes: set<Node>, par: Parents, depth: Depths, v: Node, w: Node, top: Option<Node>)
    requires Forest(nodes, par, depth) && v in nodes && w in nodes && !Above(par, depth, w, v)
      && IsFirstCovering(nodes, par, depth, v, w, top)
    ensures IsLowestCommon(nodes, par, depth, v, w, top)
  {
    forall z | z in nodes && Above(par, depth, z, v) && Above(par, depth, z, w) ensures Covering(par, depth, z, v, w) {}
  }

  /** The parents of w below lca, lowest first. */
  method Collect(nodes: set<Node>, par: Parents, w: Node, lca: Option<Node>, ghost depth: Depths)
    returns (wPath: seq<Option<Node>>)
    requires Forest(nodes, par, depth) && w in nodes && (lca.Some? ==> Above(par, depth, lca.value, w))
    ensures forall i :: 0 <= i < |wPath| ==> wPath[i].Some? && wPath[i] != lca
    ensures if wPath == [] then ParentOf(par, Some(w)) == lca
      else ParentOf(par, Some(w)) == wPath[0] && ParentOf(par, wPath[|wPath| - 1]) == lca
    ensures forall i :: 0 <= i < |wPath| - 1 ==> ParentOf(par, wPath[i]) == wPath[i + 1]
  {
    wPath := [];
    var parent := ParentOf(par, Some(w));
    while parent != lca
      invariant parent.Some? ==> parent.value in nodes
      invariant lca.Some? ==> parent.Some? && Around(par, depth, lca.value, parent.value)
      invariant forall i :: 0 <= i < |wPath| ==> wPath[i].Some? && wPath[i] != lca
      invariant if wPath == [] then ParentOf(par, Some(w)) == parent
        else ParentOf(par, Some(w)) == wPath[0] && ParentOf(par, wPath[|wPath| - 1]) == parent
      invariant forall i :: 0 <= i < |wPath| - 1 ==> ParentOf(par, wPath[i]) == wPath[i + 1]
      decreases if parent.Some? then depth[parent.value] + 1 else 0
    {
      wPath := wPath + [parent];
      parent := ParentOf(par, parent);
    }
  }

  // ----- when w lies around v -----

  function Climb(par: Parents, x: Option<Node>, n: nat): Option<Node>
    decreases n
  {
    if n == 0 then x else Climb(par, ParentOf(par, x), n - 1)
  }

  lemma {:induction false} ClimbIsHigher(nodes: set<Node>, par: Parents, depth: Depths, x: Option<Node>, n: nat)
    requires Forest(nodes, par, depth) && (x.Some? ==> x.value in nodes)
    ensures Climb(par, x, n).Some? ==>
      x.Some? && Climb(par, x, n).value in nodes && depth[Climb(par, x, n).value] <= depth[x.value]
    ensures n > 0 && Climb(par, x, n).Some? ==> depth[Climb(par, x, n).value] < depth[x.value]
    decreases n
  {
    if n > 0 { ClimbIsHigher(nodes, par, depth, ParentOf(par, x), n - 1); }
  }

  /** If w lies around v the search from v stops at w itself, and climbing from w never meets it again: the
      second loop of the path search ends exactly when w does not lie around v. */
  lemma NeverMetAgain(nodes: set<Node>, par: Parents, depth: Depths, v: Node, w: Node, top: Option<Node>, n: nat)
    requires Forest(nodes, par, depth) && v in nodes && w in nodes && Above(par, depth, w, v)
      && IsFirstCovering(nodes, par, depth, v, w, top)
    ensures top == Some(w) && Climb(par, Some(w), n + 1) != top
  {
    assert Around(par, depth, w, w);
    assert Covering(par, depth, w, v, w);
    AroundIsHigher(nodes, par, depth, top.value, w);
    AroundIsHigher(nodes, par, depth, w, top.value);
    ClimbIsHigher(nodes, par, depth, Some(w), n + 1);
  }
}
