/**
  `bronk(graph, P, R, X)`: the Bron–Kerbosch enumeration of maximal cliques
  without pivoting. `R` is the clique grown so far, `P` the candidates that
  extend it, `X` the vertices that extend it but were already explored; `R` is
  reported when nothing extends it.
*/
module BronKerbosch {
  import opened Graphs

  /** The vertices outside `r` adjacent to every member of `r`: the vertices
      that extend the clique `r`. */
  ghost function CommonNeighbors(g: Graph, r: set<Vertex>): set<Vertex> {
    set v | v in g.adj && v !in r && forall u :: u in r && u in g.adj ==> v in g.adj[u]
  }

  /** A vertex outside a clique extends it exactly when it is a common neighbour. */
  lemma ExtendIffCommonNeighbor(g: Graph, r: set<Vertex>, v: Vertex)
    requires Valid(g) && IsClique(g, r) && v in g.adj && v !in r
    ensures IsClique(g, r + {v}) <==> v in CommonNeighbors(g, r)
  {
    ExtendIffAdjacent(g, r, v);
  }

  /** The test `not any((P, X))` relies on: a clique is maximal exactly when it
      has no common neighbour. */
  lemma MaximalIffNoCommonNeighbor(g: Graph, r: set<Vertex>)
    requires Valid(g) && IsClique(g, r)
    ensures IsMaximalClique(g, r) <==> CommonNeighbors(g, r) == {}
  {
    forall v | v in g.adj && v !in r ensures IsClique(g, r + {v}) <==> v in CommonNeighbors(g, r) {
      ExtendIffCommonNeighbor(g, r, v);
    }
    if CommonNeighbors(g, r) != {} {
      var v :| v in CommonNeighbors(g, r);
      assert v in g.adj && v !in r;
    }
  }

  /** Adding `v` to the clique leaves the common neighbours that are adjacent to
      `v`: the recursive call's `P` and `X` are the current ones intersected
      with the neighbours of `v`. */
  lemma CommonNeighborsExtend(g: Graph, r: set<Vertex>, v: Vertex)
    requires Valid(g) && v in g.adj
    ensures CommonNeighbors(g, r + {v}) == CommonNeighbors(g, r) * g.adj[v]
  {
    forall w | w in CommonNeighbors(g, r) * g.adj[v] ensures w in CommonNeighbors(g, r + {v}) {
      assert w != v;
      assert v in g.adj[w];
    }
  }

  /** What the calls made so far have reported, while the candidates still to
      explore are `pending`: the maximal cliques above `r` that draw their extra
      vertices from `p` and use one already explored, and `r` itself when it is
      maximal. */
  ghost predicate Reported(g: Graph, r: set<Vertex>, p: set<Vertex>, pending: set<Vertex>,
                           out: seq<set<Vertex>>)
  {
    forall c :: c in out <==> IsMaximalClique(g, c) && r <= c && c - r <= p && (c == r || !(c - r <= pending))
  }

  /** Before the loop: `R` is reported exactly when `P` and `X` are both empty,
      which is exactly when `R` is maximal. */
  lemma ReportedInitially(g: Graph, p: set<Vertex>, r: set<Vertex>, x: set<Vertex>)
    requires Valid(g) && IsClique(g, r) && p + x == CommonNeighbors(g, r)
    ensures Reported(g, r, p, p, if p == {} && x == {} then [r] else [])
  {
    MaximalIffNoCommonNeighbor(g, r);
    forall c | IsMaximalClique(g, c) && r <= c && c - r <= {} ensures c == r {
      assert c <= r;
    }
  }

  /** Exploring `node`: the recursive call reports exactly the maximal cliques
      above `r` that contain `node` and no vertex explored before it; none of
      them was reported earlier. */
  lemma ReportedStep(g: Graph, r: set<Vertex>, p: set<Vertex>, pending: set<Vertex>, node: Vertex,
                     out: seq<set<Vertex>>, found: seq<set<Vertex>>)
    requires Valid(g) && IsClique(g, r) && p <= CommonNeighbors(g, r)
    requires pending <= p && node in pending && Reported(g, r, p, pending, out)
    requires forall c :: c in found <==> IsMaximalClique(g, c) && r + {node} <= c
                                         && c - (r + {node}) <= pending * g.adj[node]
    ensures Reported(g, r, p, pending - {node}, out + found)
    ensures forall i, j :: 0 <= i < |out| && 0 <= j < |found| ==> out[i] != found[j]
  {
    assert node !in r;
    forall c | IsMaximalClique(g, c) && r <= c && node in c
      ensures c - (r + {node}) <= pending * g.adj[node] <==> c - r <= pending
    {
      forall w | w in c - (r + {node}) ensures w in g.adj[node] {
        assert w != node;
      }
      if c - (r + {node}) <= pending * g.adj[node] {
        forall w | w in c - r ensures w in pending {
          if w != node {
            assert w in c - (r + {node});
          }
        }
      }
    }
    forall i, j | 0 <= i < |out| && 0 <= j < |found| ensures out[i] != found[j] {
      assert out[i] in out && found[j] in found;
    }
  }

  /** `bronk(graph, P, R, X)` as a sequence of the cliques it yields, in
      order: exactly the maximal cliques that contain `R` and add only vertices
      of `P`, each once. The caller passes a clique `R`, and as `P` and `X`
      the common neighbours of `R`, split into those still to explore and
      those explored already. */
  method BronK(g: Graph, p: set<Vertex>, r: set<Vertex>, x: set<Vertex>) returns (out: seq<set<Vertex>>)
    requires Valid(g) && IsClique(g, r)
    requires p !! x && p + x == CommonNeighbors(g, r)
    ensures forall c :: c in out <==> IsMaximalClique(g, c) && r <= c && c - r <= p
    ensures Distinct(out)
    decreases p
  {
    out := [];
    if p == {} && x == {} {
      out := [r];  // `yield R`
    }
    ReportedInitially(g, p, r, x);
    var pP, pX := p, x;  // the sets the loop removes from and adds to
    var pending := pP;  // `P.copy()`
    while pending != {}
      invariant pP == pending && pending <= p && pX == x + (p - pending)
      invariant Reported(g, r, p, pending, out)
      invariant Distinct(out)
      decreases pending
    {
      var node :| node in pending;
      var neighbors := g.adj[node];
      CommonNeighborsExtend(g, r, node);
      ExtendIffCommonNeighbor(g, r, node);
      var found := BronK(g, pP * neighbors, r + {node}, pX * neighbors);
      ReportedStep(g, r, p, pending, node, out, found);
      DistinctConcat(out, found);
      out := out + found;
      pending := pending - {node};
      pP := pP - {node};
      pX := pX + {node};
    }
  }

  /** `bronk(graph, set(graph.nodes()))` from empty `R` and `X`: every maximal
      clique of the graph, each once. */
  method MaximalCliques(g: Graph) returns (out: seq<set<Vertex>>)
    requires Valid(g)
    ensures forall c :: c in out <==> IsMaximalClique(g, c)
    ensures Distinct(out)
  {
    assert CommonNeighbors(g, {}) == g.adj.Keys;
    out := BronK(g, g.adj.Keys, {}, {});
  }

  /** Every largest clique is among the maximal cliques the enumeration reports. */
  lemma MaximumCliquesReported(g: Graph, out: seq<set<Vertex>>, c: set<Vertex>)
    requires forall d :: d in out <==> IsMaximalClique(g, d)
    requires IsMaximumClique(g, c)
    ensures c in out
  {
    MaximumIsMaximal(g, c);
  }

  /** `R.union(node)` as the source writes it: `set.union` iterates over its
      argument, and a vertex label is a string, so it adds the label's
      characters, each as a one-character string, instead of the label. Only a
      one-character label ends up in the result as itself. */
  function UnionAsWritten(r: set<Vertex>, node: Vertex): (s: set<Vertex>)
    ensures r <= s
    ensures |node| != 1 ==> (node in s <==> node in r)
    ensures forall w :: w in s - r ==> |w| == 1
  {
    r + set i | 0 <= i < |node| :: [node[i]]
  }

  /** The graph with the single vertex "10". */
  function SingleVertex(): (g: Graph)
    ensures Valid(g)
  {
    Graph(["10"], map["10" := {}])
  }

  /** On that graph the top call explores "10" and the recursive call receives
      empty `P` and `X`, so it yields its `R`. As written that `R` is
      {"1", "0"}, which is not even a set of vertices; the intended `R` is
      {"10"}, the only maximal clique. */
  lemma UnionAsWrittenCounterexample()
    ensures var g := SingleVertex();
            && g.adj.Keys * g.adj["10"] == {}
            && UnionAsWritten({}, "10") == {"1", "0"}
            && !IsClique(g, UnionAsWritten({}, "10"))
            && IsMaximalClique(g, {} + {"10"})
  {
    var g := SingleVertex();
    var s := UnionAsWritten({}, "10");
    assert "10"[0] == '1' && "10"[1] == '0';
    assert "1" in s && "0" in s;
    forall w | w in s ensures w == "1" || w == "0" {
      var i :| 0 <= i < 2 && w == ["10"[i]];
    }
    assert "1" !in g.adj;
    assert g.adj.Keys == {"10"};
  }
}
