/** Preorder and postorder walks over a labelled spanning tree. */
module Traversal {
  import opened Graphs
  import opened Sums
  import opened TreeLabels

  /** L lists the nodes of X, each once, with every parent after its children (post) or before them. */
  ghost predicate Listing(rt: Rooting, L: seq<Node>, X: set<Node>, post: bool)
    requires rt.Valid()
  {
    && (forall x :: x in L <==> x in X)
    && (forall i, j :: 0 <= i < j < |L| ==> L[i] != L[j])
    && (forall i, j :: 0 <= i < j < |L| ==> if post then !rt.IsChild(L[j], L[i]) else !rt.IsChild(L[i], L[j]))
  }

  lemma AppendListing(rt: Rooting, L: seq<Node>, X: set<Node>, M: seq<Node>, Y: set<Node>, post: bool)
    requires rt.Valid() && Listing(rt, L, X, post) && Listing(rt, M, Y, post) && X !! Y
    requires if post then forall x, y :: x in X && y in Y ==> !rt.IsChild(y, x)
             else forall x, y :: x in X && y in Y ==> !rt.IsChild(x, y)
    ensures Listing(rt, L + M, X + Y, post)
  {
    var LM := L + M;
    forall i, j | 0 <= i < j < |LM|
      ensures LM[i] != LM[j] && if post then !rt.IsChild(LM[j], LM[i]) else !rt.IsChild(LM[i], LM[j])
    {
      if i < |L| <= j {
        assert LM[i] in X && LM[j] in Y;
      }
    }
  }

  /** The state of the walk from v once the neighbours in K are done: the nodes visited since, and
      their listing. */
  ghost predicate WalkedKids(rt: Rooting, v: Node, K: set<Node>, L: seq<Node>, post: bool)
    requires rt.Valid()
  {
    if post then Listing(rt, L, rt.KidTrees(v, K), post)
    else L != [] && L[0] == v && Listing(rt, L[1..], rt.KidTrees(v, K), post)
  }

  lemma KidTreesWith(rt: Rooting, v: Node, K: set<Node>, w: Node)
    requires rt.Valid() && w in rt.nodes && rt.IsChild(w, v)
    ensures rt.KidTrees(v, K + {w}) == rt.KidTrees(v, K) + rt.Subtree(w)
  {
  }

  lemma WalkKid(rt: Rooting, v: Node, K: set<Node>, L: seq<Node>, post: bool, w: Node, M: seq<Node>)
    requires rt.Valid() && v in rt.nodes && WalkedKids(rt, v, K, L, post)
    requires w !in K && rt.IsChild(w, v) && w != rt.root && Listing(rt, M, rt.Subtree(w), post)
    ensures WalkedKids(rt, v, K + {w}, L + M, post)
    ensures rt.KidTrees(v, K + {w}) == rt.KidTrees(v, K) + rt.Subtree(w)
  {
    var X, Y := rt.KidTrees(v, K), rt.Subtree(w);
    KidTreesWith(rt, v, K, w);
    forall x, y | x in X && y in Y ensures x != y && !rt.IsChild(x, y) && !rt.IsChild(y, x) {
      KidTreesApart(rt, v, K, w, x, y);
    }
    if post {
      AppendListing(rt, L, X, M, Y, post);
    } else {
      AppendListing(rt, L[1..], X, M, Y, post);
      assert (L + M)[1..] == L[1..] + M;
    }
  }

  lemma KidTreesApart(rt: Rooting, v: Node, K: set<Node>, w: Node, x: Node, y: Node)
    requires rt.Valid() && v in rt.nodes && w !in K && rt.IsChild(w, v) && w != rt.root
    requires x in rt.KidTrees(v, K) && y in rt.Subtree(w)
    ensures x != y && !rt.IsChild(x, y) && !rt.IsChild(y, x)
  {
    var d :| d in K && rt.IsChild(d, v) && rt.Below(d, x);
    if x == y {
      rt.SiblingsDisjoint(d, w, v, x);
    } else if rt.IsChild(x, y) {
      ChildBelow(rt, w, x, y);
      rt.SiblingsDisjoint(d, w, v, x);
    } else if rt.IsChild(y, x) {
      ChildBelow(rt, d, y, x);
      rt.SiblingsDisjoint(d, w, v, y);
    }
  }

  lemma ChildBelow(rt: Rooting, r: Node, x: Node, y: Node)
    requires rt.Valid() && x in rt.nodes && y in rt.nodes && rt.IsChild(x, y) && rt.Below(r, y)
    ensures rt.Below(r, x)
  {
    assert rt.Parent(x) == y;
  }

  lemma FinishWalk(rt: Rooting, v: Node, K: set<Node>, L: seq<Node>, post: bool)
    requires rt.Valid() && v in rt.nodes && WalkedKids(rt, v, K, L, post) && NeighborsIn(rt.edges, v) <= K
    ensures Listing(rt, if post then L + [v] else L, rt.Subtree(v), post)
    ensures rt.Subtree(v) == {v} + rt.KidTrees(v, K)
  {
    rt.SubtreeIsKidTrees(v, K);
    var X := rt.KidTrees(v, K);
    forall x | x in X ensures x != v && !rt.IsChild(v, x) {
      var d :| d in K && rt.IsChild(d, v) && rt.Below(d, x);
      assert d != rt.root && rt.Parent(d) == v;
      rt.BelowLim(d, x);
      assert rt.IsChild(v, x) ==> rt.Parent(v) == x;
    }
    if post {
      AppendListing(rt, L, X, [v], {v}, post);
      assert X + {v} == {v} + X;
    } else {
      AppendListing(rt, [v], {v}, L[1..], X, post);
      assert [v] + L[1..] == L;
    }
  }

  lemma KidIsFresh(rt: Rooting, v: Node, visited: set<Node>, K: set<Node>, w: Node)
    requires rt.Valid() && v in rt.nodes && v !in visited && rt.Subtree(v) !! visited
    requires v != rt.root ==> rt.Parent(v) in visited
    requires w in NeighborsIn(rt.edges, v) && w !in K
    ensures w in rt.nodes
    ensures rt.IsChild(w, v) ==> w != rt.root && rt.Parent(w) == v && rt.Subtree(w) !! visited + {v} + rt.KidTrees(v, K)
    ensures !rt.IsChild(w, v) ==> w in visited && rt.KidTrees(v, K + {w}) == rt.KidTrees(v, K)
  {
    rt.NeighborIsParentOrChild(v, w);
    if rt.IsChild(w, v) {
      forall x | x in rt.Subtree(w) ensures x !in visited + {v} + rt.KidTrees(v, K) {
        assert rt.Below(v, w);
        rt.BelowTransitive(v, w, x);
        assert x in rt.Subtree(v);
        rt.BelowLim(w, x);
        if x in rt.KidTrees(v, K) { KidTreesApart(rt, v, K, w, x, x); }
      }
    } else {
      assert rt.Parent(v) == w;
    }
  }

  /** A walk may enter v: v is done already, or its whole subtree is untouched and it is reached
      from its parent. */
  ghost predicate MayEnter(rt: Rooting, v: Node, visited: set<Node>)
    requires rt.Valid()
  {
    v in rt.nodes && (v !in visited ==> rt.Subtree(v) !! visited && (v != rt.root ==> rt.Parent(v) in visited))
  }

  /** What a walk from v does: nothing if v was visited, else it appends a listing of v's subtree,
      v itself last or first. */
  ghost predicate Walked(rt: Rooting, v: Node, post: bool, visited: set<Node>, acc: seq<Node>, visited': set<Node>,
                         acc': seq<Node>)
    requires rt.Valid()
  {
    if v in visited then visited' == visited && acc' == acc
    else
      && visited' == visited + rt.Subtree(v)
      && acc <= acc' && Listing(rt, acc'[|acc|..], rt.Subtree(v), post)
      && |acc'| > |acc| && (if post then acc'[|acc'| - 1] else acc'[|acc|]) == v
  }

  ghost predicate Walking(rt: Rooting, v: Node, post: bool, visited: set<Node>, acc: seq<Node>, K: set<Node>,
                          visited': set<Node>, acc': seq<Node>)
    requires rt.Valid()
  {
    && visited' == visited + {v} + rt.KidTrees(v, K)
    && acc <= acc' && WalkedKids(rt, v, K, acc'[|acc|..], post)
  }

  lemma StepWalk(rt: Rooting, v: Node, post: bool, visited: set<Node>, acc: seq<Node>, K: set<Node>,
                 seen: set<Node>, mid: seq<Node>, w: Node, visited': set<Node>, acc': seq<Node>)
    requires rt.Valid() && v !in visited && MayEnter(rt, v, visited)
    requires Walking(rt, v, post, visited, acc, K, seen, mid)
    requires w in NeighborsIn(rt.edges, v) && w !in K
    requires Walked(rt, w, post, seen, mid, visited', acc')
    ensures Walking(rt, v, post, visited, acc, K + {w}, visited', acc')
  {
    KidIsFresh(rt, v, visited, K, w);
    if rt.IsChild(w, v) {
      assert rt.Below(w, w) && w in rt.Subtree(w);
      WalkKid(rt, v, K, mid[|acc|..], post, w, acc'[|mid|..]);
      assert acc'[|acc|..] == mid[|acc|..] + acc'[|mid|..];
    }
  }

  lemma EndWalk(rt: Rooting, v: Node, post: bool, visited: set<Node>, acc: seq<Node>, K: set<Node>, visited': set<Node>,
                acc': seq<Node>)
    requires rt.Valid() && v !in visited && v in rt.nodes && NeighborsIn(rt.edges, v) <= K
    requires Walking(rt, v, post, visited, acc, K, visited', acc')
    ensures Walked(rt, v, post, visited, acc, visited', if post then acc' + [v] else acc')
  {
    FinishWalk(rt, v, K, acc'[|acc|..], post);
    DropAppend(acc', |acc|, v);
  }

  lemma DropAppend(s: seq<Node>, n: nat, v: Node)
    requires n <= |s|
    ensures (s + [v])[n..] == s[n..] + [v]
  {
  }

  method DoDfs(t: TreeGraph, v: Node, postorder: bool, visited: set<Node>, acc: seq<Node>, ghost rt: Rooting)
    returns (visited': set<Node>, acc': seq<Node>)
    requires rt.Valid() && rt.nodes == t.nodes && rt.edges == t.edges
    requires MayEnter(rt, v, visited)
    ensures Walked(rt, v, postorder, visited, acc, visited', acc')
    decreases t.nodes - visited
  {
    visited', acc' := visited, acc;
    if v !in visited {
      visited' := visited + {v};
      if !postorder { acc' := acc + [v]; }
      var todo := t.Neighbors(v);
      ghost var all, K := todo, todo - todo;
      assert rt.KidTrees(v, K) == {};
      while todo != {}
        invariant todo <= all && K == all - todo
        invariant Walking(rt, v, postorder, visited, acc, K, visited', acc')
        decreases todo
      {
        var w :| w in todo;
        TakeOne(all, todo, w);
        todo := todo - {w};
        KidIsFresh(rt, v, visited, K, w);
        ghost var seen, mid := visited', acc';
        visited', acc' := DoDfs(t, w, postorder, visited', acc', rt);
        StepWalk(rt, v, postorder, visited, acc, K, seen, mid, w, visited', acc');
        K := K + {w};
      }
      EndWalk(rt, v, postorder, visited, acc, K, visited', acc');
      if postorder { acc' := acc' + [v]; }
    }
  }

  /** graphlib's dfs, started from every node of vs in turn. */
  method Dfs(t: TreeGraph, vs: seq<Node>, postorder: bool, ghost rt: Rooting) returns (acc: seq<Node>)
    requires rt.Valid() && rt.nodes == t.nodes && rt.edges == t.edges
    requires vs != [] && vs[0] == rt.root && forall v :: v in vs ==> v in t.nodes
    ensures Listing(rt, acc, t.nodes, postorder)
    ensures acc != [] && (if postorder then acc[|acc| - 1] else acc[0]) == rt.root
  {
    var visited: set<Node> := {};
    acc := [];
    for i := 0 to |vs|
      invariant i == 0 ==> visited == {} && acc == []
      invariant i > 0 ==> visited == rt.nodes && Listing(rt, acc, rt.nodes, postorder)
      invariant i > 0 ==> acc != [] && (if postorder then acc[|acc| - 1] else acc[0]) == rt.root
    {
      if i == 0 { AllBelowRoot(rt); }
      visited, acc := DoDfs(t, vs[i], postorder, visited, acc, rt);
    }
  }

  lemma AllBelowRoot(rt: Rooting)
    requires rt.Valid()
    ensures rt.Subtree(rt.root) == rt.nodes
  {
    forall x | x in rt.nodes ensures rt.Below(rt.root, x) { rt.RootIsAbove(x); }
  }
}
