/**
  The upper bound of the branch and bound: `greedy_coloring_heuristic`, a
  Welsh–Powell style greedy colouring in degree order.
*/
module GreedyColoring {
  import opened Options
  import opened Graphs
  import opened DegreeOrdering

  /** Adjacent coloured vertices never share a colour. */
  ghost predicate IsProperColoring(g: Graph, colors: map<Vertex, nat>) {
    forall u, v :: u in colors && u in g.adj && v in g.adj[u] && v in colors ==> colors[u] != colors[v]
  }

  /** The colours the already coloured neighbours of `node` carry
      (`neighbors_colors` in the source). */
  function NeighborColors(g: Graph, colorMap: map<Vertex, nat>, node: Vertex): (r: set<nat>)
    requires node in g.adj
    ensures r <= colorMap.Values
    ensures g.adj[node] !! colorMap.Keys ==> r == {}
  {
    set u | u in g.adj[node] && u in colorMap :: colorMap[u]
  }

  /** The rule one pass of the loop follows when it colours `node`, given the
      colours `prev` assigned so far: when every colour in use is taken by a
      neighbour, the next fresh colour (there are |colours in use| of them,
      0 .. |used| - 1); otherwise a colour in use that no neighbour carries. */
  ghost predicate GreedyChoice(g: Graph, prev: map<Vertex, nat>, node: Vertex, color: nat)
    requires node in g.adj
  {
    var used := prev.Values;
    var blocked := NeighborColors(g, prev, node);
    if used <= blocked then color == |used| else color in used - blocked
  }

  /** `colors` is a run of the greedy colouring over the first `n` vertices of
      `order`: exactly those vertices are coloured, and each one got the colour
      `GreedyChoice` allows given the colours of the vertices before it. The
      first vertex, with no colour in use, gets colour 0. */
  ghost predicate GreedyRun(g: Graph, order: seq<Vertex>, n: nat, colors: map<Vertex, nat>)
    requires n <= |order|
    decreases n
  {
    if n == 0 then colors == map[]
    else
      var node := order[n - 1];
      && node in g.adj && node in colors
      && GreedyRun(g, order, n - 1, colors - {node})
      && GreedyChoice(g, colors - {node}, node, colors[node])
  }

  /** `colors` is a colouring `greedy_coloring_heuristic` can produce: a greedy
      run over the whole degree order. */
  ghost predicate GreedyColoringOf(g: Graph, colors: map<Vertex, nat>) {
    GreedyRun(g, DegreeOrder(g), |DegreeOrder(g)|, colors)
  }

  /** Every colouring the heuristic can produce colours all of V properly, and
      its number of colours bounds the size of every clique. */
  lemma GreedyColoringBound(g: Graph, colors: map<Vertex, nat>)
    requires Valid(g) && GreedyColoringOf(g, colors)
    ensures colors.Keys == g.adj.Keys && IsProperColoring(g, colors)
    ensures forall k :: IsClique(g, k) ==> |k| <= |colors.Values|
  {
    var order := DegreeOrder(g);
    DegreeOrderEnumerates(g);
    GreedyRunState(g, order, |order|, colors);
    FinalState(g, order, colors, colors.Values, |colors.Values|);
  }

  /** Colouring `node`, which is not yet coloured, extends a run by one vertex. */
  lemma GreedyRunStep(g: Graph, order: seq<Vertex>, n: nat, colors: map<Vertex, nat>, color: nat)
    requires n < |order| && order[n] in g.adj && order[n] !in colors
    requires GreedyRun(g, order, n, colors) && GreedyChoice(g, colors, order[n], color)
    ensures GreedyRun(g, order, n + 1, colors[order[n] := color])
  {
    assert colors[order[n] := color] - {order[n]} == colors;
  }

  /** Every greedy run over a duplicate-free list of vertices is a proper
      colouring whose colours in use are exactly 0 .. k - 1 for some k no
      larger than the number of coloured vertices. */
  lemma {:induction false} GreedyRunState(g: Graph, order: seq<Vertex>, n: nat, colors: map<Vertex, nat>)
    requires Valid(g) && Distinct(order) && (forall j :: 0 <= j < |order| ==> order[j] in g.adj)
    requires n <= |order| && GreedyRun(g, order, n, colors)
    ensures ColoringState(g, order, n, colors, colors.Values, |colors.Values|)
  {
    if n > 0 {
      var node := order[n - 1];
      var prev := colors - {node};
      GreedyRunState(g, order, n - 1, prev);
      assert prev[node := colors[node]] == colors;
      ChoiceStep(g, order, n - 1, prev, colors[node]);
    }
  }

  /** A colour `GreedyChoice` allows keeps the loop state. */
  lemma ChoiceStep(g: Graph, order: seq<Vertex>, popped: nat, prev: map<Vertex, nat>, color: nat)
    requires Valid(g) && popped < |order| && order[popped] in g.adj
    requires ColoringState(g, order, popped, prev, prev.Values, |prev.Values|)
    requires GreedyChoice(g, prev, order[popped], color)
    ensures ColoringState(g, order, popped + 1, prev[order[popped] := color],
                          prev[order[popped] := color].Values, |prev[order[popped] := color].Values|)
  {
    var node := order[popped];
    PrefixStep(g, order, popped, prev, color);
    AddValue(prev, node, color);
    if prev.Values <= NeighborColors(g, prev, node) {
      FreshStep(g, order, popped, prev, prev.Values, |prev.Values|);
    } else {
      ReuseStep(g, order, popped, prev, prev.Values, |prev.Values|, color);
    }
  }

  /** The vertices popped so far from the degree order. */
  ghost function Popped(order: seq<Vertex>, popped: nat): set<Vertex>
    requires popped <= |order|
  {
    if popped == 0 then {} else Popped(order, popped - 1) + {order[popped - 1]}
  }

  /** Exactly the first `popped` vertices of `order` carry a colour. */
  ghost predicate ColoredPrefix(g: Graph, order: seq<Vertex>, popped: nat, colorMap: map<Vertex, nat>) {
    && Distinct(order) && (forall j :: 0 <= j < |order| ==> order[j] in g.adj)
    && popped <= |order| && colorMap.Keys == Popped(order, popped)
  }

  /** `used` holds `nextColor` colours, all below `nextColor`, and they are
      exactly the colours assigned so far. */
  ghost predicate ColorsInUse(colorMap: map<Vertex, nat>, used: set<nat>, nextColor: nat) {
    && (forall c :: c in used ==> c < nextColor) && |used| == nextColor
    && colorMap.Values == used
  }

  /** The state of the colouring loop after `popped` vertices of `order` were
      coloured: exactly those vertices carry a colour, the colours in use are
      0 .. nextColor - 1, no more than there are coloured vertices, and the
      colouring is proper. */
  ghost predicate ColoringState(g: Graph, order: seq<Vertex>, popped: nat, colorMap: map<Vertex, nat>,
                                used: set<nat>, nextColor: nat)
  {
    && ColoredPrefix(g, order, popped, colorMap)
    && ColorsInUse(colorMap, used, nextColor)
    && nextColor <= popped
    && IsProperColoring(g, colorMap)
  }

  /** The source colours the first vertex with colour 0 before its loop. */
  lemma FirstStep(g: Graph, order: seq<Vertex>)
    requires Valid(g) && Distinct(order) && (forall j :: 0 <= j < |order| ==> order[j] in g.adj)
    requires |order| > 0
    ensures ColoringState(g, order, 1, map[order[0] := 0], {0}, 1)
    ensures GreedyRun(g, order, 1, map[order[0] := 0])
  {
    assert Popped(order, 1) == {order[0]};
    assert map[order[0] := 0] - {order[0]} == map[];
    AddValue(map[], order[0], 0);
  }

  /** Colouring the next vertex of the order extends the coloured prefix. */
  lemma PrefixStep(g: Graph, order: seq<Vertex>, popped: nat, colorMap: map<Vertex, nat>, color: nat)
    requires ColoredPrefix(g, order, popped, colorMap) && popped < |order|
    ensures order[popped] in g.adj && order[popped] !in colorMap
    ensures ColoredPrefix(g, order, popped + 1, colorMap[order[popped] := color])
  {
    PoppedNext(order, popped);
    NotYetPopped(order, popped, popped);
  }

  /** The fresh colour `nextColor`, which no vertex carries yet, keeps the loop
      state. The source draws it when every colour in use is taken by a
      neighbour. */
  lemma FreshStep(g: Graph, order: seq<Vertex>, popped: nat, colorMap: map<Vertex, nat>,
                  used: set<nat>, nextColor: nat)
    requires Valid(g) && ColoringState(g, order, popped, colorMap, used, nextColor) && popped < |order|
    ensures ColoringState(g, order, popped + 1, colorMap[order[popped] := nextColor],
                          used + {nextColor}, nextColor + 1)
  {
    var node := order[popped];
    PrefixStep(g, order, popped, colorMap, nextColor);
    ColorsBelow(colorMap, used, nextColor);
    ProperUpdate(g, colorMap, node, nextColor);
    FreshColor(colorMap, used, nextColor, node);
  }

  lemma FreshColor(colorMap: map<Vertex, nat>, used: set<nat>, nextColor: nat, node: Vertex)
    requires ColorsInUse(colorMap, used, nextColor) && node !in colorMap
    ensures ColorsInUse(colorMap[node := nextColor], used + {nextColor}, nextColor + 1)
  {
    assert nextColor !in used;
    AddValue(colorMap, node, nextColor);
  }

  /** Every assigned colour is below `nextColor`. */
  lemma ColorsBelow(colorMap: map<Vertex, nat>, used: set<nat>, nextColor: nat)
    requires ColorsInUse(colorMap, used, nextColor)
    ensures forall x :: x in colorMap ==> colorMap[x] < nextColor
  {
    forall x | x in colorMap ensures colorMap[x] < nextColor {
      assert colorMap[x] in colorMap.Values;
    }
  }

  /** A reused colour keeps the colours in use. */
  lemma ReuseColor(colorMap: map<Vertex, nat>, used: set<nat>, nextColor: nat, node: Vertex, color: nat)
    requires ColorsInUse(colorMap, used, nextColor) && node !in colorMap && color in used
    ensures ColorsInUse(colorMap[node := color], used, nextColor)
  {
    AddValue(colorMap, node, color);
  }

  lemma AddValue(colorMap: map<Vertex, nat>, node: Vertex, color: nat)
    requires node !in colorMap
    ensures colorMap[node := color].Values == colorMap.Values + {color}
  {
    var m := colorMap[node := color];
    forall c | c in m.Values ensures c in colorMap.Values + {color} {
      var x :| x in m && m[x] == c;
      if x != node {
        assert colorMap[x] == c;
      }
    }
    forall c | c in colorMap.Values ensures c in m.Values {
      var x :| x in colorMap && colorMap[x] == c;
      assert x != node && m[x] == c;
    }
    assert m[node] == color;
  }

  /** Some colour in use is free among the neighbours: it may be reused, and
      reusing it keeps the colouring proper. */
  lemma ReuseStep(g: Graph, order: seq<Vertex>, popped: nat, colorMap: map<Vertex, nat>,
                  used: set<nat>, nextColor: nat, color: nat)
    requires Valid(g) && ColoringState(g, order, popped, colorMap, used, nextColor) && popped < |order|
    requires color in used - NeighborColors(g, colorMap, order[popped])
    ensures ColoringState(g, order, popped + 1, colorMap[order[popped] := color], used, nextColor)
  {
    var node := order[popped];
    PrefixStep(g, order, popped, colorMap, color);
    ProperUpdate(g, colorMap, node, color);
    ReuseColor(colorMap, used, nextColor, node, color);
  }

  /** The neighbour colours are colours in use; when there are as many of them
      as colours in use, no colour in use is free. */
  lemma NeighborColorsUsed(g: Graph, colorMap: map<Vertex, nat>, node: Vertex, used: set<nat>)
    requires node in g.adj && colorMap.Values <= used
    ensures |NeighborColors(g, colorMap, node)| == |used|
            <==> forall c :: c in used ==> c in NeighborColors(g, colorMap, node)
  {
    var nc := NeighborColors(g, colorMap, node);
    SubsetCard(nc, used);
    if forall c :: c in used ==> c in nc {
      assert nc == used;
    }
  }

  lemma PoppedNext(order: seq<Vertex>, popped: nat)
    requires popped < |order|
    ensures Popped(order, popped + 1) == Popped(order, popped) + {order[popped]}
  {
  }

  lemma {:induction false} NotYetPopped(order: seq<Vertex>, popped: nat, later: nat)
    requires Distinct(order) && popped <= later < |order|
    ensures order[later] !in Popped(order, popped)
  {
    if popped > 0 {
      NotYetPopped(order, popped - 1, later);
    }
  }

  lemma {:induction false} PoppedHas(order: seq<Vertex>, popped: nat, j: nat)
    requires j < popped <= |order|
    ensures order[j] in Popped(order, popped)
  {
    if j < popped - 1 {
      PoppedHas(order, popped - 1, j);
    }
  }

  lemma {:induction false} PoppedFrom(order: seq<Vertex>, popped: nat)
    requires popped <= |order|
    ensures forall v :: v in Popped(order, popped) ==> v in order
  {
    if popped > 0 {
      PoppedFrom(order, popped - 1);
    }
  }

  /** Once every vertex of the degree order is popped, all of V is coloured. */
  lemma AllPopped(g: Graph, order: seq<Vertex>)
    requires forall v :: v in order <==> v in g.adj
    ensures Popped(order, |order|) == g.adj.Keys
  {
    PoppedFrom(order, |order|);
    forall v | v in g.adj ensures v in Popped(order, |order|) {
      var j :| 0 <= j < |order| && order[j] == v;
      PoppedHas(order, |order|, j);
    }
  }

  /** When the loop ends every vertex is coloured, and the colours in use,
      at most |V| of them, bound the size of every clique. */
  lemma FinalState(g: Graph, order: seq<Vertex>, colorMap: map<Vertex, nat>, used: set<nat>, nextColor: nat)
    requires order == DegreeOrder(g)
    requires Valid(g) && ColoringState(g, order, |order|, colorMap, used, nextColor)
    ensures colorMap.Keys == g.adj.Keys && |used| == nextColor <= |g.adj| && colorMap.Values == used
    ensures forall x :: x in colorMap ==> colorMap[x] < nextColor
    ensures forall k :: IsClique(g, k) ==> |k| <= |used|
  {
    DegreeOrderEnumerates(g);
    AllPopped(g, order);
    DegreeOrderLength(g);
    ColorsBelow(colorMap, used, nextColor);
    forall k | IsClique(g, k) ensures |k| <= |used| {
      CliqueColorBound(g, colorMap, used, k);
    }
  }

  /** `greedy_coloring_heuristic(graph)`. On the empty graph the source fails:
      `range(0, 0)` is empty, so `next(color_num)` raises `StopIteration` (it is
      evaluated before `nodes.pop(0)`), modelled as `None`. Otherwise it colours
      every vertex properly with colours below the count, never runs past the
      `range(0, len(graph))` it draws fresh colours from, and so returns a count
      between 1 and |V| that bounds the size of every clique. */
  method GreedyColoringHeuristic(g: Graph) returns (count: Option<nat>, ghost colors: map<Vertex, nat>)
    requires Valid(g)
    ensures count.None? <==> g.adj.Keys == {}
    ensures count.Some? ==> 1 <= count.value <= |g.adj|
    ensures count.Some? ==> colors.Keys == g.adj.Keys && IsProperColoring(g, colors)
    ensures count.Some? ==> count.value == |colors.Values|
    ensures count.Some? ==> forall v :: v in colors ==> colors[v] < count.value
    ensures count.Some? ==> forall k :: IsClique(g, k) ==> |k| <= count.value
    ensures count.Some? ==> GreedyColoringOf(g, colors)
  {
    colors := map[];
    var order := DegreeOrder(g);
    DegreeOrderEnumerates(g);
    if |order| == 0 {
      // `next(color_num)` raises StopIteration
      assert g.adj.Keys == {} by {
        DegreeOrderLength(g);
      }
      return None, colors;
    }
    var nextColor := 0;  // the next value `next(color_num)` hands out
    var nodes := order;
    var colorMap: map<Vertex, nat> := map[nodes[0] := nextColor];
    nextColor := nextColor + 1;
    nodes := nodes[1..];
    var used: set<nat> := {0};
    ghost var popped := 1;
    FirstStep(g, order);
    while |nodes| != 0
      invariant popped <= |order| && nodes == order[popped..]
      invariant ColoringState(g, order, popped, colorMap, used, nextColor)
      invariant GreedyRun(g, order, popped, colorMap)
      decreases |nodes|
    {
      var node := nodes[0];
      nodes := nodes[1..];
      var color;
      color, used, nextColor := ColorNode(g, order, popped, colorMap, used, nextColor, node);
      PrefixStep(g, order, popped, colorMap, color);
      GreedyRunStep(g, order, popped, colorMap, color);
      colorMap := colorMap[node := color];
      popped := popped + 1;
    }
    assert popped == |order|;
    FinalState(g, order, colorMap, used, nextColor);
    count, colors := Some(|used|), colorMap;
  }

  /** One pass of the loop of `greedy_coloring_heuristic`: the colour of the
      next vertex `order[popped]` and the colours in use afterwards. */
  method ColorNode(g: Graph, ghost order: seq<Vertex>, ghost popped: nat, colorMap: map<Vertex, nat>,
                   used: set<nat>, nextColor: nat, node: Vertex)
    returns (color: nat, used': set<nat>, nextColor': nat)
    requires Valid(g) && ColoringState(g, order, popped, colorMap, used, nextColor)
    requires popped < |order| && node == order[popped]
    ensures ColoringState(g, order, popped + 1, colorMap[node := color], used', nextColor')
    ensures used <= NeighborColors(g, colorMap, node) ==>
              color == nextColor && used' == used + {nextColor} && nextColor' == nextColor + 1
    ensures !(used <= NeighborColors(g, colorMap, node)) ==>
              color in used - NeighborColors(g, colorMap, node) && used' == used && nextColor' == nextColor
    ensures GreedyChoice(g, colorMap, node, color)
  {
    var neighborColors := NeighborColors(g, colorMap, node);
    NeighborColorsUsed(g, colorMap, node, used);
    if |neighborColors| == |used| {
      // every used colour is taken by a neighbour: draw a fresh one
      FreshStep(g, order, popped, colorMap, used, nextColor);
      color := nextColor;
      nextColor' := nextColor + 1;
      used' := used + {color};
    } else {
      // some colour in use is free, and the source takes any one of them
      ghost var free :| free in used && free !in neighborColors;
      assert free in used - neighborColors;
      color :| color in used - neighborColors;
      ReuseStep(g, order, popped, colorMap, used, nextColor, color);
      used', nextColor' := used, nextColor;
    }
  }

  /** Colouring one more vertex with a colour none of its coloured neighbours
      has keeps the colouring proper. */
  lemma ProperUpdate(g: Graph, colors: map<Vertex, nat>, node: Vertex, color: nat)
    requires Valid(g) && IsProperColoring(g, colors) && node in g.adj && node !in colors
    requires color !in NeighborColors(g, colors, node)
    ensures IsProperColoring(g, colors[node := color])
  {
    forall u | u in g.adj[node] && u in colors ensures colors[u] != color {
      assert colors[u] in NeighborColors(g, colors, node);
    }
  }

  /** Why the colour count is an upper bound: a proper colouring gives the members
      of a clique pairwise different colours, so a clique has at most as many
      members as there are colours. */
  lemma CliqueColorBound(g: Graph, colors: map<Vertex, nat>, palette: set<nat>, k: set<Vertex>)
    requires Valid(g) && IsProperColoring(g, colors) && IsClique(g, k)
    requires k <= colors.Keys && forall v :: v in k ==> colors[v] in palette
    ensures |k| <= |palette|
  {
    var image := set v | v in k :: colors[v];
    InjectiveImage(g, colors, k);
    SubsetCard(image, palette);
  }

  lemma {:induction false} InjectiveImage(g: Graph, colors: map<Vertex, nat>, k: set<Vertex>)
    requires Valid(g) && IsProperColoring(g, colors) && IsClique(g, k) && k <= colors.Keys
    ensures |set v | v in k :: colors[v]| == |k|
    decreases k
  {
    if k != {} {
      var v :| v in k;
      var rest := k - {v};
      InjectiveImage(g, colors, rest);
      var image := set u | u in k :: colors[u];
      var restImage := set u | u in rest :: colors[u];
      assert image == restImage + {colors[v]};
      assert colors[v] !in restImage;
    }
  }
}
