/**
  The branching rule of the branch and bound: `branching(graph, ...)` picks a
  pivot and splits the search into the graph without the pivot and the graph
  induced on the pivot and its neighbours.
*/
module BranchingRule {
  import opened Options
  import opened Graphs
  import opened DegreeOrdering

  /** The vertices the rule may pivot on: those whose degree is not |V| - 1,
      that is, those not adjacent to every other vertex. The source's filter
      also asks for degree at most |V| - 1, which every vertex meets. */
  function PartialSet(g: Graph): (r: set<Vertex>)
    ensures r <= g.adj.Keys
  {
    set v | v in g.adj && Degree(g, v) != |g.adj| - 1 && Degree(g, v) <= |g.adj| - 1
  }

  /** The pivot, described without the sort: a vertex not adjacent to every
      other vertex, of largest degree among those, and the first vertex of its
      degree in the node order of `g` (the sort is stable). */
  ghost predicate IsPivot(g: Graph, p: Vertex) {
    && p in g.adj
    && Degree(g, p) < |g.adj| - 1
    && (forall v :: v in g.adj && Degree(g, v) < |g.adj| - 1 ==> Degree(g, v) <= Degree(g, p))
    && OfDegree(g, g.nodes, Degree(g, p)) != []
    && OfDegree(g, g.nodes, Degree(g, p))[0] == p
  }

  /** The candidates of the branching rule are the vertices not adjacent to
      every other vertex. */
  lemma PartialIffNotFull(g: Graph, v: Vertex)
    requires Valid(g)
    ensures v in PartialSet(g) <==> v in g.adj && !IsFull(g, v)
  {
    if v in g.adj {
      FullIffFullDegree(g, v);
      DegreeBound(g, v);
    }
  }

  /** At most one vertex is the pivot. */
  lemma PivotUnique(g: Graph, p: Vertex, q: Vertex)
    requires IsPivot(g, p) && IsPivot(g, q)
    ensures p == q
  {
    assert Degree(g, p) == Degree(g, q);
  }

  /** A pivot exists exactly when the graph is not complete. */
  lemma PivotExists(g: Graph)
    requires Valid(g)
    ensures (exists p :: IsPivot(g, p)) <==> !IsComplete(g)
  {
    if IsComplete(g) {
      CompleteIffFullDegree(g);
    } else {
      PartialEmptyIffComplete(g);
      FirstPartialIsPivot(g);
      assert IsPivot(g, KeepIn(DegreeOrder(g), PartialSet(g))[0]);
    }
  }

  /** `g1` and `g2` are the two branches for the pivot `p`: `g1` is `g`
      without `p`, `g2` is `g` induced on `p` and its neighbours. */
  ghost predicate IsSplit(g: Graph, p: Vertex, g1: Graph, g2: Graph) {
    && IsPivot(g, p)
    && IsInducedSubgraph(g1, g, g.adj.Keys - {p})
    && IsInducedSubgraph(g2, g, g.adj[p] + {p})
  }

  /** Removing everything but `p` and its neighbours leaves the graph induced
      on them. */
  lemma KeepNeighborhood(g: Graph, p: Vertex)
    requires Valid(g) && p in g.adj
    ensures IsInducedSubgraph(RemoveNodes(g, g.adj.Keys - g.adj[p] - {p}), g, g.adj[p] + {p})
  {
    assert g.adj.Keys - (g.adj.Keys - g.adj[p] - {p}) == g.adj[p] + {p};
  }

  /** `branching(graph, cur_max_clique_len)`. On a complete graph there is no
      vertex to pivot on and indexing the empty candidate list fails, modelled as
      `None`. Otherwise the result is the pair `g1`, `g2` for the pivot `p`: `g1`
      is `g` without `p`, `g2` is `g` induced on `p` and its neighbours. */
  method Branching(g: Graph) returns (r: Option<(Graph, Graph)>)
    requires Valid(g)
    ensures r.None? <==> IsComplete(g)
    ensures r.Some? ==> Valid(r.value.0) && Valid(r.value.1)
    ensures r.Some? ==> exists p :: IsSplit(g, p, r.value.0, r.value.1)
  {
    var g1, g2 := g, g;  // `graph.copy()`
    var nodesByDegree := DegreeOrder(g);
    var partial := KeepIn(nodesByDegree, PartialSet(g));
    PartialEmptyIffComplete(g);
    if |partial| == 0 {
      // `partial_connected_nodes[0]` raises IndexError
      return None;
    }
    var p := partial[0];
    assert IsPivot(g, p) by {
      FirstPartialIsPivot(g);
    }
    g1 := RemoveNode(g1, p);
    g2 := RemoveNodes(g2, g.adj.Keys - g.adj[p] - {p});
    KeepNeighborhood(g, p);
    assert IsSplit(g, p, g1, g2);
    r := Some((g1, g2));
  }

  /** Nothing is left to pivot on exactly when the graph is complete. */
  lemma PartialEmptyIffComplete(g: Graph)
    requires Valid(g)
    ensures KeepIn(DegreeOrder(g), PartialSet(g)) == [] <==> IsComplete(g)
  {
    DegreeOrderEnumerates(g);
    CompleteIffFullDegree(g);
    var partial := KeepIn(DegreeOrder(g), PartialSet(g));
    if partial == [] {
      forall v | v in g.adj ensures Degree(g, v) == |g.adj| - 1 {
        DegreeBound(g, v);
        assert v !in partial;
      }
    } else {
      assert partial[0] in partial;
    }
  }

  /** The head of the candidate list is the pivot. */
  lemma FirstPartialIsPivot(g: Graph)
    requires Valid(g) && KeepIn(DegreeOrder(g), PartialSet(g)) != []
    ensures IsPivot(g, KeepIn(DegreeOrder(g), PartialSet(g))[0])
  {
    var order := DegreeOrder(g);
    var keep := PartialSet(g);
    var j := KeepInHead(order, keep);
    HeadHasMaxDegree(g, order, keep, j);
    HeadFirstOfDegree(g, order, keep, j);
  }

  /** No candidate has a larger degree than the head of the candidate list. */
  lemma HeadHasMaxDegree(g: Graph, order: seq<Vertex>, keep: set<Vertex>, j: nat)
    requires Valid(g) && order == DegreeOrder(g) && keep == PartialSet(g)
    requires j < |order| && order[j] in keep && forall i :: 0 <= i < j ==> order[i] !in keep
    ensures forall v :: v in g.adj && Degree(g, v) < |g.adj| - 1 ==> Degree(g, v) <= Degree(g, order[j])
  {
    DegreeOrderEnumerates(g);
    SortByDegreeSorted(g, g.nodes);
    forall v | v in g.adj && Degree(g, v) < |g.adj| - 1 ensures Degree(g, v) <= Degree(g, order[j]) {
      var i :| 0 <= i < |order| && order[i] == v;
      DegreeBound(g, v);
      HeadBeforeCandidate(g, order, keep, j, i);
    }
  }

  /** A candidate at position `i` of the sorted list comes no earlier than the
      head `j`, so its degree is no larger. */
  lemma HeadBeforeCandidate(g: Graph, order: seq<Vertex>, keep: set<Vertex>, j: nat, i: nat)
    requires NonIncreasing(g, order) && j < |order| && i < |order| && order[i] in keep
    requires forall i :: 0 <= i < j ==> order[i] !in keep
    ensures Degree(g, order[i]) <= Degree(g, order[j])
  {
    assert j <= i;
  }

  /** Every vertex before the head of the candidate list is adjacent to all
      others, so the head comes first among the vertices of its degree, in the
      degree order and therefore, by stability, in the node order. */
  lemma HeadFirstOfDegree(g: Graph, order: seq<Vertex>, keep: set<Vertex>, j: nat)
    requires Valid(g) && order == DegreeOrder(g) && keep == PartialSet(g)
    requires j < |order| && order[j] in keep && forall i :: 0 <= i < j ==> order[i] !in keep
    ensures OfDegree(g, g.nodes, Degree(g, order[j])) != []
    ensures OfDegree(g, g.nodes, Degree(g, order[j]))[0] == order[j]
  {
    var d := Degree(g, order[j]);
    DegreeOrderEnumerates(g);
    forall i | 0 <= i < j ensures Degree(g, order[i]) != d {
      assert order[i] !in keep && order[i] in g.adj;
      DegreeBound(g, order[i]);
    }
    OfDegreeHead(g, order, d, j);
    SortByDegreeStable(g, g.nodes, d);
  }

  /** The split loses no clique: a clique of `g` avoids the pivot and is a clique
      of `g1`, or contains it and is a clique of `g2`; and conversely. */
  lemma SplitCliques(g: Graph, p: Vertex, g1: Graph, g2: Graph, c: set<Vertex>)
    requires Valid(g) && p in g.adj
    requires IsInducedSubgraph(g1, g, g.adj.Keys - {p})
    requires IsInducedSubgraph(g2, g, g.adj[p] + {p})
    ensures IsClique(g, c) <==> (p !in c && IsClique(g1, c)) || (p in c && IsClique(g2, c))
  {
    InducedCliques(g, g1, g.adj.Keys - {p}, c);
    InducedCliques(g, g2, g.adj[p] + {p}, c);
  }

  /** Both branches are non-empty and strictly smaller than `g`, so the
      recursion of the branch and bound terminates. */
  lemma SplitShrinks(g: Graph, p: Vertex, g1: Graph, g2: Graph)
    requires Valid(g) && IsPivot(g, p)
    requires IsInducedSubgraph(g1, g, g.adj.Keys - {p})
    requires IsInducedSubgraph(g2, g, g.adj[p] + {p})
    ensures 0 < |g1.adj| == |g.adj| - 1
    ensures 0 < |g2.adj| == Degree(g, p) + 1 < |g.adj|
  {
    assert g1.adj.Keys == g.adj.Keys - {p};
    assert g2.adj.Keys == g.adj[p] + {p};
    assert |g.adj.Keys - {p}| == |g.adj| - 1;
    assert |g.adj[p] + {p}| == |g.adj[p]| + 1;
  }
}
