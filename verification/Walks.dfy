/** Walks in a weighted graph, their lengths, and distances. */
module Walks {
  import opened Graphs
  import opened Sums

  /** A distance or priority; JavaScript's positive infinity is a value of its own. */
  datatype Dist = Finite(r: real) | Infinite

  predicate Less(a: Dist, b: Dist) {
    a.Finite? && (b.Infinite? || a.r < b.r)
  }

  function Plus(d: Dist, r: real): Dist {
    if d.Finite? then Finite(d.r + r) else Infinite
  }

  /** An edge with the weight that the weight function gives it. */
  datatype Arc = Arc(v: Node, w: Node, weight: real)

  /** For every node the edges that the edge function lists for it; they may be followed either way. */
  type Arcs = map<Node, set<Arc>>

  /** The far end of an edge seen from x. */
  function Other(a: Arc, x: Node): Node {
    if a.v != x then a.v else a.w
  }

  ghost predicate IsGraph(g: Arcs) {
    forall x, a :: x in g && a in g[x] ==> Other(a, x) in g
  }

  // ----- walks -----

  /** The edges p lead from x to y. */
  ghost predicate Leads(g: Arcs, x: Node, p: seq<Arc>, y: Node)
    decreases |p|
  {
    if p == [] then x == y && x in g
    else var a := p[|p| - 1]; exists z {:trigger Steps(g, z, a, y)} :: Steps(g, z, a, y) && Leads(g, x, p[..|p| - 1], z)
  }

  ghost predicate Steps(g: Arcs, z: Node, a: Arc, y: Node) {
    z in g && a in g[z] && Other(a, z) == y
  }

  ghost function Length(p: seq<Arc>): real {
    if p == [] then 0.0 else Length(p[..|p| - 1]) + p[|p| - 1].weight
  }

  lemma Extend(g: Arcs, x: Node, p: seq<Arc>, z: Node, a: Arc, y: Node)
    requires Leads(g, x, p, z) && Steps(g, z, a, y)
    ensures Leads(g, x, p + [a], y) && Length(p + [a]) == Length(p) + a.weight
  {
    var q := p + [a];
    assert q[|q| - 1] == a && q[..|q| - 1] == p;
    assert Steps(g, z, q[|q| - 1], y) && Leads(g, x, q[..|q| - 1], z);
  }

  /** d is the length of a shortest walk from x to y, infinite if there is none. */
  ghost predicate IsDistance(g: Arcs, x: Node, y: Node, d: Dist) {
    if d.Finite? then WalkOf(g, x, y, d.r) && forall p :: Leads(g, x, p, y) ==> Length(p) >= d.r
    else forall p :: !Leads(g, x, p, y)
  }

  ghost predicate WalkOf(g: Arcs, x: Node, y: Node, r: real) {
    exists p :: Leads(g, x, p, y) && Length(p) == r
  }

  // ----- walks in a directed graph -----

  ghost predicate Directed(g: Arcs) {
    forall x, a :: x in g && a in g[x] ==> a.v == x && a.w != x && a.w in g
  }

  /** Where the edges p lead from x. */
  function End(x: Node, p: seq<Arc>): Node {
    if p == [] then x else p[|p| - 1].w
  }

  lemma LeadsToEnd(g: Arcs, x: Node, p: seq<Arc>, y: Node)
    requires Directed(g) && Leads(g, x, p, y)
    ensures y == End(x, p) && x in g && y in g
    decreases |p|
  {
    if p != [] {
      var z :| Steps(g, z, p[|p| - 1], y) && Leads(g, x, p[..|p| - 1], z);
      LeadsToEnd(g, x, p[..|p| - 1], z);
    }
  }

  lemma {:induction false} Split(g: Arcs, x: Node, p: seq<Arc>, y: Node, i: nat)
    requires Directed(g) && Leads(g, x, p, y) && i <= |p|
    ensures Leads(g, x, p[..i], End(x, p[..i])) && Leads(g, End(x, p[..i]), p[i..], y)
    decreases |p|
  {
    LeadsToEnd(g, x, p, y);
    if i == |p| {
      assert p[..i] == p;
    } else {
      var q, a := p[..|p| - 1], p[|p| - 1];
      var z :| Steps(g, z, a, y) && Leads(g, x, q, z);
      Split(g, x, q, z, i);
      assert q[..i] == p[..i] && q[i..] + [a] == p[i..];
      Extend(g, End(x, p[..i]), q[i..], z, a, y);
    }
  }

  lemma {:induction false} Join(g: Arcs, x: Node, p: seq<Arc>, y: Node, q: seq<Arc>, z: Node)
    requires Leads(g, x, p, y) && Leads(g, y, q, z)
    ensures Leads(g, x, p + q, z) && Length(p + q) == Length(p) + Length(q)
    decreases |q|
  {
    if q == [] {
      assert p + q == p;
    } else {
      var r, a := q[..|q| - 1], q[|q| - 1];
      var u :| Steps(g, u, a, z) && Leads(g, y, r, u);
      Join(g, x, p, y, r, u);
      Extend(g, x, p + r, u, a, z);
      assert p + r + [a] == p + q;
    }
  }

  /** A walk from x leads to a cycle of negative length. */
  ghost predicate NegativeCycleFrom(g: Arcs, x: Node) {
    exists p, y, c :: IsNegativeCycle(g, x, p, y, c)
  }

  ghost predicate IsNegativeCycle(g: Arcs, x: Node, p: seq<Arc>, y: Node, c: seq<Arc>) {
    Leads(g, x, p, y) && Leads(g, y, c, y) && Length(c) < 0.0
  }

  /** A walk with as many edges as there are nodes comes back to a node. */
  lemma ComesBack(g: Arcs, x: Node, p: seq<Arc>, y: Node) returns (i: nat, j: nat)
    requires Directed(g) && Leads(g, x, p, y) && |p| >= |g.Keys|
    ensures i < j <= |p| && End(x, p[..i]) == End(x, p[..j])
  {
    var s := seq(|p| + 1, k requires 0 <= k <= |p| => End(x, p[..k]));
    forall k | 0 <= k < |s| ensures s[k] in g.Keys {
      Split(g, x, p, y, k);
      LeadsToEnd(g, x, p[..k], s[k]);
    }
    if forall a, b :: 0 <= a < b < |s| ==> s[a] != s[b] {
      AllInDistinct(s, g.Keys);
      assert false;
    }
    i, j :| 0 <= i < j < |s| && s[i] == s[j];
  }

  /** Leaving out the stretch from place i to place j, which ends where it began. */
  lemma CutLoop(g: Arcs, x: Node, p: seq<Arc>, y: Node, i: nat, j: nat, z: Node, a: seq<Arc>, c: seq<Arc>, b: seq<Arc>)
    requires Directed(g) && Leads(g, x, p, y) && !NegativeCycleFrom(g, x)
    requires i < j <= |p| && End(x, p[..i]) == z == End(x, p[..j])
    requires a == p[..i] && c == p[i..j] && b == p[j..]
    ensures Leads(g, x, a + b, y) && Length(a + b) <= Length(p)
  {
    Split(g, x, p, y, j);
    Split(g, x, p[..j], z, i);
    assert p[..j][..i] == a && p[..j][i..] == c && a + c == p[..j];
    assert !IsNegativeCycle(g, x, a, z, c);
    Join(g, x, a, z, c, z);
    Join(g, x, a + c, z, b, y);
    assert a + c + b == p;
    Join(g, x, a, z, b, y);
  }

  /** Without negative cycles a walk can be cut down to one with fewer edges than nodes, no longer than it. */
  lemma {:induction false} Shorten(g: Arcs, x: Node, p: seq<Arc>, y: Node) returns (q: seq<Arc>)
    requires Directed(g) && Leads(g, x, p, y) && !NegativeCycleFrom(g, x)
    ensures Leads(g, x, q, y) && |q| < |g.Keys| && Length(q) <= Length(p)
    decreases |p|
  {
    if |p| < |g.Keys| { return p; }
    var i, j := ComesBack(g, x, p, y);
    CutLoop(g, x, p, y, i, j, End(x, p[..i]), p[..i], p[i..j], p[j..]);
    q := Shorten(g, x, p[..i] + p[j..], y);
  }
}
