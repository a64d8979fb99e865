/** The nodes' first order: every layer lists its nodes as a depth-first search comes to them. */
module FirstOrder {
  import opened Graphs
  import opened ConstraintRuns
  import opened Layerings
  import opened DepthFirst

  class InitState {
    const g: Layers
    var visited: set<Node>
    var layers: Layering
    ghost var entered: seq<Node>

    constructor (g: Layers)
      requires g.Valid()
      ensures this.g == g && entered == [] && Valid()
    {
      this.g, visited, layers, entered := g, {}, seq(|g.E|, r => []), [];
    }

    /** The visited nodes are those entered so far, each once; the layers list them in that order. */
    ghost predicate Valid()
      reads this
    {
      && g.Valid() && Layered(g, entered, layers) && NoRepeats(entered) && Justified(g, entered) == true
      && (forall x :: x in visited <==> x in entered) && visited <= g.rank.Keys
    }

    method Enter(v: Node)
      requires Valid() && v in g.rank && v !in visited && MayEnter(g, entered, v) == true
      modifies this
      ensures Valid() && entered == old(entered) + [v] && visited == old(visited) + {v}
    {
      EnterOne(g, entered, layers, v);
      EnterJustified(g, entered, v);
      visited := visited + {v};
      var r := g.rank[v];
      layers := layers[r := layers[r] + [v]];
      entered := entered + [v];
    }

    method Dfs(v: Node)
      requires Valid() && v in g.rank && MayEnter(g, entered, v) == true
      modifies this
      ensures Valid() && old(visited) <= visited && Searched(g, old(entered), v, entered) == true
      decreases g.rank.Keys - visited
    {
      if v in visited { return; }
      ghost var s0 := entered;
      Enter(v);
      var todo := g.Successors(v);
      JustEntered(g, s0, v);
      while todo != {}
        invariant Valid() && old(visited) + {v} <= visited && todo <= g.Successors(v)
        invariant Underway(g, s0, entered, v, todo) == true && v in entered
        decreases todo
      {
        var w :| w in todo;
        ghost var s, rest := entered, todo;
        assert w in g.Successors(v);
        assert MayEnter(g, entered, w) == true;
        Dfs(w);
        OneSearched(g, s0, s, v, rest, w, entered);
        todo := todo - {w};
      }
      AllSearched(g, s0, entered, v);
    }
  }

  /** The layers of a depth-first order that starts from the nodes by rank. */
  method InitOrder(g: Layers) returns (layering: Layering, ghost entered: seq<Node>)
    requires g.Valid()
    ensures IsLayering(g, layering) && IsDepthFirst(g, entered) == true && Layered(g, entered, layering) == true
  {
    var s := new InitState(g);
    for r := 0 to |g.E|
      invariant fresh(s) && s.g == g && s.Valid() && Explored(g, s.entered, 0) == true
      invariant forall v :: v in g.rank && g.rank[v] < r ==> v in s.visited
    {
      var todo := g.LayerSet(r);
      while todo != {}
        invariant fresh(s) && s.g == g && s.Valid() && Explored(g, s.entered, 0) == true
        invariant todo <= g.LayerSet(r) && forall v :: v in g.rank && g.rank[v] <= r && v !in todo ==> v in s.visited
        decreases todo
      {
        var v :| v in todo;
        ghost var s0 := s.entered;
        todo := todo - {v};
        assert MayEnter(g, s0, v) == true;
        s.Dfs(v);
        NewExplored(g, s0, s.entered, 0);
      }
    }
    layering, entered := s.layers, s.entered;
    LayeredIsLayering(g, entered, layering);
  }
}
