/**
  Undirected simple graphs, as the clique search sees a networkx `Graph`: a node
  order (the order in which networkx iterates the nodes) and an adjacency map.
  The networkx operations the search calls (`degree`, `neighbors`,
  `remove_node`, `remove_nodes_from`) are given by their effect on this value.
*/
module Graphs {

  /** A vertex label: DIMACS files name vertices by tokens, which the parser
      keeps as strings. */
  type Vertex = string

  /** No element of `s` occurs twice. */
  ghost predicate Distinct<T>(s: seq<T>) {
    forall i, j :: 0 <= i < j < |s| ==> s[i] != s[j]
  }

  lemma DistinctCons<T>(a: T, s: seq<T>)
    ensures Distinct([a] + s) <==> a !in s && Distinct(s)
  {
    var t := [a] + s;
    if a !in s && Distinct(s) {
      forall i, j | 0 <= i < j < |t| ensures t[i] != t[j] {
        if i == 0 {
          assert t[j] == s[j - 1];
        } else {
          assert t[i] == s[i - 1] && t[j] == s[j - 1];
        }
      }
    }
    if Distinct(t) {
      forall i, j | 0 <= i < j < |s| ensures s[i] != s[j] {
        assert s[i] == t[i + 1] && s[j] == t[j + 1];
      }
      forall k | 0 <= k < |s| ensures s[k] != a {
        assert s[k] == t[k + 1] && t[0] != t[k + 1];
      }
    }
  }

  /** A sequence without repetitions has as many elements as its set. */
  lemma {:induction false} DistinctCard<T>(s: seq<T>)
    requires Distinct(s)
    ensures |set x | x in s| == |s|
  {
    if s != [] {
      DistinctCons(s[0], s[1..]);
      assert s == [s[0]] + s[1..];
      DistinctCard(s[1..]);
      assert (set x | x in s) == {s[0]} + (set x | x in s[1..]);
    }
  }

  lemma DistinctConcat<T>(a: seq<T>, b: seq<T>)
    requires Distinct(a) && Distinct(b)
    requires forall x :: x in a ==> x !in b
    ensures Distinct(a + b)
  {
    var t := a + b;
    forall i, j | 0 <= i < j < |t| ensures t[i] != t[j] {
      if j < |a| {
        assert t[i] == a[i] && t[j] == a[j];
      } else if i < |a| {
        assert t[i] == a[i] && t[j] == b[j - |a|];
        assert a[i] in a;
      } else {
        assert t[i] == b[i - |a|] && t[j] == b[j - |a|];
      }
    }
  }

  /** The elements of `s` that lie in `keep`, in their order in `s`; this is what
      `list(filter(lambda x: x in keep, s))` computes. */
  function KeepIn(s: seq<Vertex>, keep: set<Vertex>): (r: seq<Vertex>)
    ensures |r| <= |s|
    ensures forall x :: x in r <==> x in s && x in keep
  {
    if s == [] then []
    else (if s[0] in keep then [s[0]] else []) + KeepIn(s[1..], keep)
  }

  lemma {:induction false} KeepInDistinct(s: seq<Vertex>, keep: set<Vertex>)
    requires Distinct(s)
    ensures Distinct(KeepIn(s, keep))
  {
    if s != [] {
      assert s == [s[0]] + s[1..];
      DistinctCons(s[0], s[1..]);
      KeepInDistinct(s[1..], keep);
      if s[0] in keep {
        DistinctCons(s[0], KeepIn(s[1..], keep));
      }
    }
  }

  /** The head of a filtered list: the first element of `s` that is kept. */
  lemma {:induction false} KeepInHead(s: seq<Vertex>, keep: set<Vertex>) returns (j: nat)
    requires KeepIn(s, keep) != []
    ensures j < |s| && s[j] == KeepIn(s, keep)[0] && s[j] in keep
    ensures forall i :: 0 <= i < j ==> s[i] !in keep
  {
    if s[0] in keep {
      j := 0;
    } else {
      var j' := KeepInHead(s[1..], keep);
      j := j' + 1;
      forall i | 0 <= i < j ensures s[i] !in keep {
        if i > 0 {
          assert s[i] == s[1..][i - 1];
        }
      }
    }
  }

  /** A graph: `nodes` lists the vertices in networkx's iteration order and
      `adj` maps each vertex to the set of its neighbours. */
  datatype Graph = Graph(nodes: seq<Vertex>, adj: map<Vertex, set<Vertex>>)

  /** A simple undirected graph: the node list enumerates the vertices once each,
      edges join two distinct vertices and are symmetric. */
  ghost predicate Valid(g: Graph) {
    && Distinct(g.nodes)
    && (forall i :: 0 <= i < |g.nodes| ==> g.nodes[i] in g.adj)
    && (forall v :: v in g.adj ==> v in g.nodes)
    && (forall u :: u in g.adj ==> g.adj[u] <= g.adj.Keys && u !in g.adj[u])
    && (forall u, v :: u in g.adj && v in g.adj[u] ==> u in g.adj[v])
  }

  /** `nx.degree(graph)` of a vertex: its number of neighbours. */
  function Degree(g: Graph, v: Vertex): nat {
    if v in g.adj then |g.adj[v]| else 0
  }

  /** `graph.neighbors(v)`. */
  function Neighbors(g: Graph, v: Vertex): set<Vertex> {
    if v in g.adj then g.adj[v] else {}
  }

  /** `h` is the subgraph of `g` induced on `keep`, with the node order of `g`. */
  ghost predicate IsInducedSubgraph(h: Graph, g: Graph, keep: set<Vertex>) {
    && keep <= g.adj.Keys
    && h.adj.Keys == keep
    && (forall u :: u in keep ==> h.adj[u] == g.adj[u] * keep)
    && h.nodes == KeepIn(g.nodes, keep)
  }

  /** `remove_nodes_from(doomed)` on a copy of `g`: the vertices of `doomed` and
      every edge that touches one of them disappear; names of `doomed` that are
      not vertices are ignored. */
  function RemoveNodes(g: Graph, doomed: set<Vertex>): (h: Graph)
    requires Valid(g)
    ensures Valid(h)
    ensures IsInducedSubgraph(h, g, g.adj.Keys - doomed)
  {
    var keep := g.adj.Keys - doomed;
    var h := Graph(KeepIn(g.nodes, keep), map v | v in keep :: g.adj[v] - doomed);
    KeepInDistinct(g.nodes, keep);
    assert forall u :: u in keep ==> h.adj[u] == g.adj[u] * keep;
    h
  }

  /** `remove_node(v)` on a copy of `g`; networkx raises an error when `v` is not
      a vertex, so callers pass a vertex. */
  function RemoveNode(g: Graph, v: Vertex): (h: Graph)
    requires Valid(g) && v in g.adj
    ensures Valid(h)
    ensures IsInducedSubgraph(h, g, g.adj.Keys - {v})
    ensures |h.adj| == |g.adj| - 1
  {
    RemoveNodes(g, {v})
  }

  /** Every two distinct members of `c` are adjacent in `g`. */
  ghost predicate IsClique(g: Graph, c: set<Vertex>) {
    c <= g.adj.Keys && forall u, v :: u in c && v in c && u != v ==> v in g.adj[u]
  }

  /** A vertex outside a clique extends it exactly when it is adjacent to every
      member. */
  lemma ExtendIffAdjacent(g: Graph, k: set<Vertex>, v: Vertex)
    requires Valid(g) && IsClique(g, k) && v in g.adj && v !in k
    ensures IsClique(g, k + {v}) <==> forall u :: u in k ==> v in g.adj[u]
  {
    if IsClique(g, k + {v}) {
      forall u | u in k ensures v in g.adj[u] {
        assert u != v;
      }
    }
  }

  /** A clique that no further vertex of `g` extends. */
  ghost predicate IsMaximalClique(g: Graph, c: set<Vertex>) {
    IsClique(g, c) && forall v :: v in g.adj && v !in c ==> !IsClique(g, c + {v})
  }

  /** A clique of largest size. */
  ghost predicate IsMaximumClique(g: Graph, c: set<Vertex>) {
    IsClique(g, c) && forall d :: IsClique(g, d) ==> |d| <= |c|
  }

  /** All vertices are pairwise adjacent. */
  ghost predicate IsComplete(g: Graph) {
    forall u, v :: u in g.adj && v in g.adj && u != v ==> v in g.adj[u]
  }

  /** A subset is no larger than its superset, and as large only when it is the superset. */
  lemma SubsetCard<T>(a: set<T>, b: set<T>)
    requires a <= b
    ensures |a| <= |b|
    ensures |a| == |b| ==> a == b
  {
    assert b == a + (b - a);
    assert |b| == |a| + |b - a|;
    if |a| == |b| {
      assert b - a == {};
    }
  }

  /** No vertex has more than |V| - 1 neighbours. */
  lemma DegreeBound(g: Graph, v: Vertex)
    requires Valid(g) && v in g.adj
    ensures Degree(g, v) <= |g.adj| - 1
  {
    assert |g.adj.Keys - {v}| == |g.adj| - 1;
    SubsetCard(g.adj[v], g.adj.Keys - {v});
  }

  /** `v` is adjacent to every other vertex. */
  ghost predicate IsFull(g: Graph, v: Vertex)
    requires v in g.adj
  {
    g.adj[v] == g.adj.Keys - {v}
  }

  /** The test the branching rule applies: a graph is complete exactly when
      every vertex has degree |V| - 1. */
  lemma CompleteIffFullDegree(g: Graph)
    requires Valid(g)
    ensures IsComplete(g) <==> forall v :: v in g.adj ==> Degree(g, v) == |g.adj| - 1
  {
    forall v | v in g.adj ensures IsFull(g, v) <==> Degree(g, v) == |g.adj| - 1 {
      FullIffFullDegree(g, v);
    }
    CompleteIffAllFull(g);
  }

  lemma FullIffFullDegree(g: Graph, v: Vertex)
    requires Valid(g) && v in g.adj
    ensures IsFull(g, v) <==> Degree(g, v) == |g.adj| - 1
  {
    assert |g.adj.Keys - {v}| == |g.adj| - 1;
    SubsetCard(g.adj[v], g.adj.Keys - {v});
  }

  lemma CompleteIffAllFull(g: Graph)
    requires Valid(g)
    ensures IsComplete(g) <==> forall v :: v in g.adj ==> IsFull(g, v)
  {
  }

  /** The cliques of an induced subgraph are the cliques of the graph that lie
      inside the kept vertices. */
  lemma InducedCliques(g: Graph, h: Graph, keep: set<Vertex>, c: set<Vertex>)
    requires Valid(g) && IsInducedSubgraph(h, g, keep)
    ensures IsClique(h, c) <==> IsClique(g, c) && c <= keep
  {
  }

  /** A clique of largest size cannot be extended. */
  lemma MaximumIsMaximal(g: Graph, c: set<Vertex>)
    requires IsMaximumClique(g, c)
    ensures IsMaximalClique(g, c)
  {
    forall v | v in g.adj && v !in c ensures !IsClique(g, c + {v}) {
      assert |c + {v}| == |c| + 1;
    }
  }
}
