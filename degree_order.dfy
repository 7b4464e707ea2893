/**
  The vertex order used by both heuristics and by the branching rule:
  `sorted(nx.degree(graph), key=lambda x: x[1], reverse=True)`. Python's sort is
  stable, also with `reverse=True`, so vertices of equal degree keep the order in
  which networkx lists them. The model is an insertion sort with that tie rule.
*/
module DegreeOrdering {
  import opened Graphs

  /** Puts `x` in front of the first element of `t` whose degree is not larger. */
  function Insert(g: Graph, x: Vertex, t: seq<Vertex>): (r: seq<Vertex>)
    ensures |r| == |t| + 1 && x in r
  {
    if t == [] || Degree(g, x) >= Degree(g, t[0]) then [x] + t
    else [t[0]] + Insert(g, x, t[1..])
  }

  /** Insertion sort by non-increasing degree; an element goes in front of the
      already sorted elements of equal degree, which come later in `s`. */
  function SortByDegree(g: Graph, s: seq<Vertex>): (r: seq<Vertex>)
    ensures |r| == |s|
  {
    if s == [] then [] else Insert(g, s[0], SortByDegree(g, s[1..]))
  }

  /** The node list of `g` by non-increasing degree, ties in node order. */
  function DegreeOrder(g: Graph): (r: seq<Vertex>)
    ensures |r| == |g.nodes|
  {
    SortByDegree(g, g.nodes)
  }

  ghost predicate NonIncreasing(g: Graph, s: seq<Vertex>) {
    forall i, j :: 0 <= i < j < |s| ==> Degree(g, s[i]) >= Degree(g, s[j])
  }

  /** The elements of `s` of degree `d`, in order. */
  function OfDegree(g: Graph, s: seq<Vertex>, d: nat): seq<Vertex> {
    if s == [] then []
    else (if Degree(g, s[0]) == d then [s[0]] else []) + OfDegree(g, s[1..], d)
  }

  lemma {:induction false} InsertPermutes(g: Graph, x: Vertex, t: seq<Vertex>)
    ensures multiset(Insert(g, x, t)) == multiset(t) + multiset{x}
  {
    if !(t == [] || Degree(g, x) >= Degree(g, t[0])) {
      InsertPermutes(g, x, t[1..]);
      assert t == [t[0]] + t[1..];
    }
  }

  /** Sorting rearranges the vertices and neither drops nor adds one. */
  lemma {:induction false} SortByDegreePermutes(g: Graph, s: seq<Vertex>)
    ensures multiset(SortByDegree(g, s)) == multiset(s)
  {
    if s != [] {
      SortByDegreePermutes(g, s[1..]);
      InsertPermutes(g, s[0], SortByDegree(g, s[1..]));
      assert s == [s[0]] + s[1..];
    }
  }

  lemma InsertMembers(g: Graph, x: Vertex, t: seq<Vertex>)
    ensures forall y :: y in Insert(g, x, t) <==> y == x || y in t
  {
    InsertPermutes(g, x, t);
    assert forall y :: y in Insert(g, x, t) <==> y in multiset(Insert(g, x, t));
  }

  lemma {:induction false} InsertSorted(g: Graph, x: Vertex, t: seq<Vertex>)
    requires NonIncreasing(g, t)
    ensures NonIncreasing(g, Insert(g, x, t))
  {
    if !(t == [] || Degree(g, x) >= Degree(g, t[0])) {
      var rest := Insert(g, x, t[1..]);
      InsertSorted(g, x, t[1..]);
      InsertMembers(g, x, t[1..]);
      assert forall k :: 0 <= k < |t[1..]| ==> Degree(g, t[0]) >= Degree(g, t[1..][k]);
      var r := [t[0]] + rest;
      forall i, j | 0 <= i < j < |r| ensures Degree(g, r[i]) >= Degree(g, r[j]) {
        if i == 0 {
          assert r[j] == rest[j - 1];
          assert rest[j - 1] in rest;
        } else {
          assert r[i] == rest[i - 1] && r[j] == rest[j - 1];
        }
      }
    }
  }

  /** The sorted list has non-increasing degrees. */
  lemma {:induction false} SortByDegreeSorted(g: Graph, s: seq<Vertex>)
    ensures NonIncreasing(g, SortByDegree(g, s))
  {
    if s != [] {
      SortByDegreeSorted(g, s[1..]);
      InsertSorted(g, s[0], SortByDegree(g, s[1..]));
    }
  }

  lemma {:induction false} InsertOfDegree(g: Graph, x: Vertex, t: seq<Vertex>, d: nat)
    ensures OfDegree(g, Insert(g, x, t), d)
         == (if Degree(g, x) == d then [x] else []) + OfDegree(g, t, d)
  {
    if t == [] || Degree(g, x) >= Degree(g, t[0]) {
      assert ([x] + t)[1..] == t;
    } else {
      InsertOfDegree(g, x, t[1..], d);
      assert ([t[0]] + Insert(g, x, t[1..]))[1..] == Insert(g, x, t[1..]);
    }
  }

  /** Stability: for every degree, the vertices of that degree appear in the
      sorted list in the same order as in the input. */
  lemma {:induction false} SortByDegreeStable(g: Graph, s: seq<Vertex>, d: nat)
    ensures OfDegree(g, SortByDegree(g, s), d) == OfDegree(g, s, d)
  {
    if s != [] {
      SortByDegreeStable(g, s[1..], d);
      InsertOfDegree(g, s[0], SortByDegree(g, s[1..]), d);
    }
  }

  /** The first vertex of degree `d` heads the vertices of degree `d`. */
  lemma {:induction false} OfDegreeHead(g: Graph, s: seq<Vertex>, d: nat, j: nat)
    requires j < |s| && Degree(g, s[j]) == d
    requires forall i :: 0 <= i < j ==> Degree(g, s[i]) != d
    ensures OfDegree(g, s, d) != [] && OfDegree(g, s, d)[0] == s[j]
  {
    if j > 0 {
      forall i | 0 <= i < j - 1 ensures Degree(g, s[1..][i]) != d {
        assert s[1..][i] == s[i + 1];
      }
      OfDegreeHead(g, s[1..], d, j - 1);
    }
  }

  lemma DistinctFromMultiset(s: seq<Vertex>, t: seq<Vertex>)
    requires multiset(s) == multiset(t) && Distinct(s)
    ensures Distinct(t)
  {
    forall i, j | 0 <= i < j < |t| ensures t[i] != t[j] {
      if t[i] == t[j] {
        var x := t[i];
        assert t == t[..i] + [x] + t[i + 1..];
        assert t[i + 1..] == t[i + 1..j] + [x] + t[j + 1..];
        assert multiset(t)[x] >= 2;
        DistinctCount(s, x);
        assert false;
      }
    }
  }

  lemma {:induction false} DistinctCount(s: seq<Vertex>, x: Vertex)
    requires Distinct(s)
    ensures multiset(s)[x] <= 1
  {
    if s != [] {
      assert s == [s[0]] + s[1..];
      DistinctCons(s[0], s[1..]);
      DistinctCount(s[1..], x);
      if s[0] == x {
        assert x !in multiset(s[1..]);
      }
    }
  }

  /** The degree order lists every vertex exactly once (the last ensures is
      the same fact by index). */
  lemma DegreeOrderEnumerates(g: Graph)
    requires Valid(g)
    ensures Distinct(DegreeOrder(g))
    ensures forall v :: v in DegreeOrder(g) <==> v in g.adj
    ensures forall j :: 0 <= j < |DegreeOrder(g)| ==> DegreeOrder(g)[j] in g.adj
  {
    var order := DegreeOrder(g);
    SortByDegreePermutes(g, g.nodes);
    DistinctFromMultiset(g.nodes, order);
    assert forall v :: v in order <==> v in multiset(g.nodes);
    forall j | 0 <= j < |order| ensures order[j] in g.adj {
      assert order[j] in order;
    }
  }

  /** The degree order is as long as the graph has vertices. */
  lemma DegreeOrderLength(g: Graph)
    requires Valid(g)
    ensures |DegreeOrder(g)| == |g.adj|
  {
    var order := DegreeOrder(g);
    SortByDegreePermutes(g, g.nodes);
    assert |order| == |g.nodes| by {
      assert |multiset(order)| == |multiset(g.nodes)|;
    }
    assert |g.nodes| == |g.adj| by {
      DistinctCard(g.nodes);
      assert (set x | x in g.nodes) == g.adj.Keys;
    }
  }
}
