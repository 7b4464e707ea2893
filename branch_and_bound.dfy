/**
  The driver: `bb_maximum_clique(graph)`. The greedy clique is a lower bound L
  on the clique number, the greedy colour count an upper bound U; when they meet
  the greedy clique is optimal, otherwise the search branches on a pivot and
  keeps the larger of the two answers.
*/
module BranchAndBound {
  import opened Options
  import opened Graphs
  import opened GreedyClique
  import opened GreedyColoring
  import opened BranchingRule

  /** `max(a, b, key=len)`: a largest argument, the first one on a tie. */
  function Larger(a: set<Vertex>, b: set<Vertex>): (r: set<Vertex>)
    ensures r == a || r == b
    ensures |r| >= |a| && |r| >= |b|
    ensures |a| >= |b| ==> r == a
  {
    if |b| > |a| then b else a
  }

  /** The answers `bb_maximum_clique(g)` can give when the colouring
      heuristic returned `upper`: the greedy clique when the bounds meet,
      otherwise an answer of the branch step. */
  ghost predicate AnswerFor(g: Graph, upper: nat, c: set<Vertex>)
    decreases |g.adj|, 1
  {
    if upper == |GreedyCliqueOf(g)| then c == GreedyCliqueOf(g) else BranchAnswer(g, c)
  }

  /** The answers `bb_maximum_clique(g)` can give, over every colouring the
      heuristic can produce (its free colour choice is not pinned down). */
  ghost predicate Answer(g: Graph, c: set<Vertex>)
    decreases |g.adj|, 2
  {
    exists colors :: GreedyColoringOf(g, colors) && AnswerFor(g, |colors.Values|, c)
  }

  /** `upper` is the colour count of some colouring the heuristic can produce. */
  ghost predicate ColorCount(g: Graph, upper: nat) {
    exists colors :: GreedyColoringOf(g, colors) && |colors.Values| == upper
  }

  /** The branch step: `max` of the answers for the two branches of the pivot,
      the first branch's answer on a tie. */
  ghost predicate BranchAnswer(g: Graph, c: set<Vertex>)
    decreases |g.adj|, 0
  {
    exists p, g1, g2, c1, c2 ::
      && IsSplit(g, p, g1, g2) && Valid(g1) && Valid(g2)
      && |g1.adj| < |g.adj| && |g2.adj| < |g.adj|
      && Answer(g1, c1) && Answer(g2, c2) && c == Larger(c1, c2)
  }

  /** `bb_maximum_clique(graph)`. The source fails on the empty graph, inside
      the colouring heuristic; that is `None`. Otherwise the answer is the one
      the source gives for the colour count `upper` the heuristic returned (the
      greedy clique when it meets the greedy clique's size), and it is a clique
      of largest size. The recursion ends because both branches are smaller
      than `g`. */
  method MaximumClique(g: Graph) returns (r: Option<set<Vertex>>, ghost upper: nat)
    requires Valid(g)
    ensures r.None? <==> g.adj.Keys == {}
    ensures r.Some? ==> IsMaximumClique(g, r.value)
    ensures r.Some? ==> ColorCount(g, upper)
    ensures r.Some? ==> AnswerFor(g, upper, r.value)
    decreases |g.adj|, 1
  {
    var maxClique := GreedyCliqueHeuristic(g);
    var chromaticNumber, colors := GreedyColoringHeuristic(g);
    upper := |colors.Values|;
    if chromaticNumber.None? {
      return None, upper;
    }
    assert ColorCount(g, upper) by {
      assert GreedyColoringOf(g, colors);
    }
    if |maxClique| == chromaticNumber.value {
      // L == U: no clique is larger than the greedy one
      r := Some(maxClique);
      Answered(g, upper, r.value);
    } else {
      var best := SearchBranches(g, upper);
      r := Some(best);
    }
  }

  /** The `else` branch of `bb_maximum_clique(graph)`: L < U, so the graph is
      not complete; branch on the pivot and keep the larger answer. */
  method SearchBranches(g: Graph, ghost upper: nat) returns (r: set<Vertex>)
    requires Valid(g) && ColorCount(g, upper)
    requires |GreedyCliqueOf(g)| < upper <= |g.adj|
    ensures IsMaximumClique(g, r) && AnswerFor(g, upper, r)
    decreases |g.adj|, 0
  {
    var split := Branching(g);
    if split.None? {
      // a complete graph: the greedy clique is all of V, so L == |V| >= U
      CompleteBoundsMeet(g, upper);
      assert false;
    } else {
      var (g1, g2) := split.value;
      ghost var p :| IsSplit(g, p, g1, g2);
      SplitShrinks(g, p, g1, g2);
      var c1, c2;
      ghost var upper1, upper2;
      c1, upper1 := MaximumClique(g1);
      c2, upper2 := MaximumClique(g2);
      AnswerOfUpper(g1, upper1, c1.value);
      AnswerOfUpper(g2, upper2, c2.value);
      BranchStep(g, upper, p, g1, g2, c1.value, c2.value);
      r := Larger(c1.value, c2.value);
      Answered(g, upper, r);
    }
  }

  /** An answer for the count of some colouring the heuristic can produce is an
      answer. */
  lemma AnswerOfUpper(g: Graph, upper: nat, c: set<Vertex>)
    requires ColorCount(g, upper) && AnswerFor(g, upper, c)
    ensures Answer(g, c)
  {
    var colors :| GreedyColoringOf(g, colors) && |colors.Values| == upper;
    assert AnswerFor(g, |colors.Values|, c);
  }

  /** An answer for the colour count the heuristic returned is a clique of
      largest size. */
  lemma Answered(g: Graph, upper: nat, c: set<Vertex>)
    requires Valid(g) && ColorCount(g, upper) && AnswerFor(g, upper, c)
    ensures IsMaximumClique(g, c)
  {
    AnswerOfUpper(g, upper, c);
    AnswerIsMaximum(g, c);
  }

  /** The branch step gives an answer when the bounds do not meet. */
  lemma BranchStep(g: Graph, upper: nat, p: Vertex, g1: Graph, g2: Graph, c1: set<Vertex>, c2: set<Vertex>)
    requires upper != |GreedyCliqueOf(g)|
    requires IsSplit(g, p, g1, g2) && Valid(g1) && Valid(g2)
    requires |g1.adj| < |g.adj| && |g2.adj| < |g.adj|
    requires Answer(g1, c1) && Answer(g2, c2)
    ensures AnswerFor(g, upper, Larger(c1, c2))
  {
    assert BranchAnswer(g, Larger(c1, c2));
  }

  /** When the bounds meet, the greedy clique is a clique of largest size. */
  lemma BoundsMeetMaximum(g: Graph, colors: map<Vertex, nat>)
    requires Valid(g) && GreedyColoringOf(g, colors) && |colors.Values| == |GreedyCliqueOf(g)|
    ensures IsMaximumClique(g, GreedyCliqueOf(g))
  {
    GreedyColoringBound(g, colors);
    GreedyCliqueOfIsClique(g);
  }

  /** Every answer the source can give is a clique of largest size: when the
      bounds meet the greedy clique reaches the colour bound, and otherwise the
      larger of the branches' best cliques is best. */
  lemma {:induction false} AnswerIsMaximum(g: Graph, c: set<Vertex>)
    requires Valid(g) && Answer(g, c)
    ensures IsMaximumClique(g, c)
    decreases |g.adj|, 1
  {
    var colors :| GreedyColoringOf(g, colors) && AnswerFor(g, |colors.Values|, c);
    if |colors.Values| == |GreedyCliqueOf(g)| {
      BoundsMeetMaximum(g, colors);
    } else {
      BranchAnswerIsMaximum(g, c);
    }
  }

  lemma {:induction false} BranchAnswerIsMaximum(g: Graph, c: set<Vertex>)
    requires Valid(g) && BranchAnswer(g, c)
    ensures IsMaximumClique(g, c)
    decreases |g.adj|, 0
  {
    var p, g1, g2, c1, c2 :|
      && IsSplit(g, p, g1, g2) && Valid(g1) && Valid(g2)
      && |g1.adj| < |g.adj| && |g2.adj| < |g.adj|
      && Answer(g1, c1) && Answer(g2, c2) && c == Larger(c1, c2);
    AnswerIsMaximum(g1, c1);
    AnswerIsMaximum(g2, c2);
    BranchesCombine(g, p, g1, g2, c1, c2);
  }

  /** On a complete graph the two bounds meet: the greedy clique is all of V
      and no colouring uses more than |V| colours. So L != U means the graph is
      not complete, and the branching rule finds a pivot. */
  lemma CompleteBoundsMeet(g: Graph, upper: nat)
    requires Valid(g) && IsComplete(g)
    requires |GreedyCliqueOf(g)| <= upper <= |g.adj|
    ensures |GreedyCliqueOf(g)| == upper
  {
    GreedyCliqueOfComplete(g);
  }

  /** The larger of the best cliques of the two branches is a best clique of
      `g`, since every clique of `g` is a clique of one branch. */
  lemma BranchesCombine(g: Graph, p: Vertex, g1: Graph, g2: Graph, c1: set<Vertex>, c2: set<Vertex>)
    requires Valid(g) && IsSplit(g, p, g1, g2)
    requires IsMaximumClique(g1, c1) && IsMaximumClique(g2, c2)
    ensures IsMaximumClique(g, Larger(c1, c2))
  {
    var best := Larger(c1, c2);
    InducedCliques(g, g1, g.adj.Keys - {p}, c1);
    InducedCliques(g, g2, g.adj[p] + {p}, c2);
    forall d | IsClique(g, d) ensures |d| <= |best| {
      SplitCliques(g, p, g1, g2, d);
    }
  }
}
