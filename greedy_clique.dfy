/**
  The lower bound of the branch and bound: `greedy_clique_heuristic`.
*/
module GreedyClique {
  import opened Graphs
  import opened DegreeOrdering

  /** The clique the heuristic builds from the candidate list `cands`: take the
      first candidate, keep only the candidates adjacent to it, repeat. */
  function GreedyFrom(g: Graph, cands: seq<Vertex>): (r: set<Vertex>)
    ensures forall v :: v in r ==> v in cands
    ensures cands != [] ==> cands[0] in r
    decreases |cands|
  {
    if cands == [] then {}
    else {cands[0]} + GreedyFrom(g, KeepIn(cands[1..], Neighbors(g, cands[0])))
  }

  /** The heuristic's clique: candidates start as all vertices in degree order. */
  function GreedyCliqueOf(g: Graph): (r: set<Vertex>)
    ensures forall v :: v in r ==> v in g.nodes
    ensures g.nodes != [] ==> r != {}
  {
    SortByDegreePermutes(g, g.nodes);
    assert forall v :: v in DegreeOrder(g) ==> v in multiset(g.nodes);
    GreedyFrom(g, DegreeOrder(g))
  }

  /** `greedy_clique_heuristic(graph)`: a clique of `g`, empty only for the empty
      graph. */
  method GreedyCliqueHeuristic(g: Graph) returns (k: set<Vertex>)
    requires Valid(g)
    ensures k == GreedyCliqueOf(g)
    ensures IsClique(g, k)
    ensures k == {} <==> g.adj.Keys == {}
  {
    DegreeOrderEnumerates(g);
    k := {};
    var nodes := DegreeOrder(g);
    while |nodes| != 0
      invariant k + GreedyFrom(g, nodes) == GreedyCliqueOf(g)
      invariant Pool(g, k, nodes)
      invariant g.adj.Keys != {} ==> k != {} || nodes != []
      decreases |nodes|
    {
      LoopStep(g, k, nodes);
      var neigh := g.adj[nodes[0]];
      k := k + {nodes[0]};
      nodes := KeepIn(nodes[1..], neigh);
    }
  }

  /** The loop invariant of the heuristic: `k` is a clique and every remaining
      candidate is a vertex outside `k` adjacent to all of `k`. */
  ghost predicate Pool(g: Graph, k: set<Vertex>, nodes: seq<Vertex>) {
    && IsClique(g, k)
    && (forall x :: x in nodes ==> x in g.adj && x !in k && forall y :: y in k ==> x in g.adj[y])
  }

  /** One pass of the loop keeps the invariant and follows `GreedyFrom`. */
  lemma PoolStep(g: Graph, k: set<Vertex>, nodes: seq<Vertex>)
    requires Valid(g) && Pool(g, k, nodes) && nodes != []
    ensures Pool(g, k + {nodes[0]}, KeepIn(nodes[1..], g.adj[nodes[0]]))
    ensures GreedyFrom(g, nodes) == {nodes[0]} + GreedyFrom(g, KeepIn(nodes[1..], g.adj[nodes[0]]))
  {
    var v := nodes[0];
    var k', nodes' := k + {v}, KeepIn(nodes[1..], g.adj[v]);
    ExtendIffAdjacent(g, k, v);
    forall x | x in nodes' ensures x in g.adj && x !in k' && forall y :: y in k' ==> x in g.adj[y] {
      assert x in nodes[1..] && x in g.adj[v];
      assert x != v;
    }
  }

  /** One pass of the loop keeps the three loop invariants of the heuristic. */
  lemma LoopStep(g: Graph, k: set<Vertex>, nodes: seq<Vertex>)
    requires Valid(g) && Pool(g, k, nodes) && nodes != []
    requires k + GreedyFrom(g, nodes) == GreedyCliqueOf(g)
    ensures Pool(g, k + {nodes[0]}, KeepIn(nodes[1..], g.adj[nodes[0]]))
    ensures k + {nodes[0]} + GreedyFrom(g, KeepIn(nodes[1..], g.adj[nodes[0]])) == GreedyCliqueOf(g)
    ensures k + {nodes[0]} != {}
  {
    PoolStep(g, k, nodes);
  }

  /** Whatever the pool still offers closes the clique built so far into a
      clique. */
  lemma {:induction false} GreedyFromClique(g: Graph, k: set<Vertex>, cands: seq<Vertex>)
    requires Valid(g) && Pool(g, k, cands)
    ensures IsClique(g, k + GreedyFrom(g, cands))
    decreases |cands|
  {
    if cands != [] {
      PoolStep(g, k, cands);
      var v := cands[0];
      GreedyFromClique(g, k + {v}, KeepIn(cands[1..], g.adj[v]));
      assert k + GreedyFrom(g, cands) == k + {v} + GreedyFrom(g, KeepIn(cands[1..], g.adj[v]));
    }
  }

  /** The heuristic's clique is a clique. */
  lemma GreedyCliqueOfIsClique(g: Graph)
    requires Valid(g)
    ensures IsClique(g, GreedyCliqueOf(g))
  {
    DegreeOrderEnumerates(g);
    GreedyFromClique(g, {}, DegreeOrder(g));
    assert {} + GreedyFrom(g, DegreeOrder(g)) == GreedyCliqueOf(g);
  }

  /** On a complete graph no candidate is ever dropped. */
  lemma {:induction false} GreedyFromComplete(g: Graph, cands: seq<Vertex>)
    requires Valid(g) && IsComplete(g)
    requires forall x :: x in cands ==> x in g.adj
    ensures GreedyFrom(g, cands) == set x | x in cands
    decreases |cands|
  {
    if cands != [] {
      var v := cands[0];
      var rest := KeepIn(cands[1..], Neighbors(g, v));
      GreedyFromComplete(g, rest);
      forall x ensures x in rest <==> x in cands && x != v {
        if x in cands && x != v {
          var i :| 0 <= i < |cands| && cands[i] == x;
          assert cands[1..][i - 1] == x;
        }
      }
    }
  }

  /** The heuristic finds every vertex of a complete graph; so on a complete graph
      the lower bound is |V|. */
  lemma GreedyCliqueOfComplete(g: Graph)
    requires Valid(g) && IsComplete(g)
    ensures GreedyCliqueOf(g) == g.adj.Keys
  {
    DegreeOrderEnumerates(g);
    GreedyFromComplete(g, DegreeOrder(g));
  }
}
