/** Reachability in a directed graph given by successor sets, and strongly connected components. */
module Reachability {
  import opened Graphs

  type Succ = map<Node, set<Node>>

  /** Every successor is a node of the graph. */
  ghost predicate IsGraph(g: Succ) {
    forall v, w :: v in g && w in g[v] ==> w in g
  }

  /** No successor of C lies outside C. */
  ghost predicate ClosedUnder(g: Succ, C: set<Node>) {
    forall x, y :: x in C && x in g && y in g[x] ==> y in C
  }

  /** y cannot be escaped from x: every closed set that holds x holds y. */
  ghost predicate Reach(g: Succ, x: Node, y: Node) {
    forall C: set<Node> {:trigger ClosedUnder(g, C)} :: ClosedUnder(g, C) && x in C ==> y in C
  }

  lemma ReachTransitive(g: Succ, x: Node, y: Node, z: Node)
    requires Reach(g, x, y) && Reach(g, y, z)
    ensures Reach(g, x, z)
  {
  }

  lemma ReachStep(g: Succ, x: Node, y: Node)
    requires x in g && y in g[x]
    ensures Reach(g, x, y)
  {
  }

  // ----- the same by walks -----

  ghost predicate WalkFromTo(g: Succ, p: seq<Node>, x: Node, y: Node) {
    p != [] && p[0] == x && p[|p| - 1] == y && forall i :: 0 <= i < |p| - 1 ==> p[i] in g && p[i + 1] in g[p[i]]
  }

  lemma {:induction false} WalkStaysInside(g: Succ, C: set<Node>, p: seq<Node>, x: Node, y: Node, i: nat)
    requires ClosedUnder(g, C) && WalkFromTo(g, p, x, y) && x in C && i < |p|
    ensures p[i] in C
    decreases i
  {
    if i > 0 { WalkStaysInside(g, C, p, x, y, i - 1); }
  }

  /** y is reached from x exactly when a walk along edges leads there. */
  lemma ReachIsWalk(g: Succ, x: Node, y: Node)
    requires IsGraph(g) && x in g
    ensures Reach(g, x, y) <==> exists p :: WalkFromTo(g, p, x, y)
  {
    if p :| WalkFromTo(g, p, x, y) {
      forall C: set<Node> | ClosedUnder(g, C) && x in C ensures y in C {
        WalkStaysInside(g, C, p, x, y, |p| - 1);
      }
    }
    if Reach(g, x, y) {
      var C := set z | z in g && exists p :: WalkFromTo(g, p, x, z);
      assert WalkFromTo(g, [x], x, x);
      forall a, b | a in C && a in g && b in g[a] ensures b in C {
        var p :| WalkFromTo(g, p, x, a);
        assert WalkFromTo(g, p + [b], x, b);
      }
      assert ClosedUnder(g, C);
    }
  }

  /** C is a strongly connected component: its nodes reach each other, and none can be added. */
  ghost predicate IsComponent(g: Succ, C: set<Node>) {
    && C != {} && C <= g.Keys
    && (forall x, y {:trigger Reach(g, x, y)} :: x in C && y in C ==> Reach(g, x, y))
    && (forall x, z {:trigger Reach(g, x, z)} :: x in C && Reach(g, x, z) && Reach(g, z, x) ==> z in C)
  }
}
