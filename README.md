# Exact maximum clique by branch and bound

A Dafny model of the search engine of a maximum-clique solver for DIMACS
graphs (`main.py`, lines 80–163). The engine has five parts:

- `greedy_clique_heuristic` builds a clique greedily in degree order. Its size
  is the lower bound L.
- `greedy_coloring_heuristic` colours the graph greedily in degree order. Its
  colour count is the upper bound U.
- `branching` picks a pivot and splits the graph in two.
- `bb_maximum_clique` returns the greedy clique when L == U, and otherwise
  recurses on both branches.
- `bronk` is a Bron–Kerbosch enumeration of the maximal cliques.

## How the model is built

A graph (`Graphs.Graph`) has two parts: the node list in networkx's iteration
order, and an adjacency map from each vertex to its set of neighbours.
`Graphs.Valid` says the graph is simple and undirected: the node list is
duplicate-free and lists exactly the vertices, there are no self-loops, and
adjacency is symmetric. Vertex labels are strings, as the DIMACS reader
produces them. The networkx calls the code relies on are modelled by their
effect on these two fields:

- `copy`, `remove_node`, `remove_nodes_from` become `Graphs.RemoveNode` and
  `Graphs.RemoveNodes`, which return the induced subgraph;
- `neighbors` becomes `Graphs.Neighbors`;
- `degree` becomes `Graphs.Degree`.

`sorted(nx.degree(graph), key=..., reverse=True)` is `DegreeOrdering.DegreeOrder`.
It is a stable insertion sort by non-increasing degree. Python's sort stays
stable with `reverse=True`, so vertices of equal degree keep their node-list
order.

Each function takes the form of its source:

- The two heuristics are `while` loops. They become methods with loop
  invariants; the colouring loop body is the helper method
  `GreedyColoring.ColorNode`.
- `branching` works on fresh copies of the graph, so it becomes a method that
  reassigns its two graph values.
- `bb_maximum_clique` calls the colouring heuristic. That heuristic may take any
  free colour, so it is a method, and the driver is a recursive method too.
  Its `else` branch is the helper method `BranchAndBound.SearchBranches`. What
  the driver may return is the ghost relation `BranchAndBound.AnswerFor`: the
  greedy clique when the two bounds meet, and otherwise `max` of the answers
  for the two branches. The relation ranges over every colouring the
  heuristic can produce.
- `bronk` loops over a snapshot of P and recurses. It becomes a recursive method
  that returns the cliques it would yield, as a sequence in yield order.

The error paths follow the code:

- On an empty graph, `next(color_num)` (main.py:119) raises `StopIteration`,
  because `range(0, len(graph))` is empty and the right-hand side of the
  assignment is evaluated before `nodes.pop(0)`. The search gives no answer
  at all rather than an empty clique; the heuristic and the driver return
  `None`.
- `branching` has no fallback for a complete graph: indexing the empty
  candidate list, `partial_connected_nodes[0]` (main.py:146), raises
  `IndexError`, so `BranchingRule.Branching` returns `None`. The driver is
  proved never to reach that case, because there L == U.

## Model

| member | source | states |
|---|---|---|
| Graphs.KeepIn | main.py:106 | the filtered list keeps an element exactly when it is in the list and in the kept set, and is no longer than the list |
| Graphs.KeepInHead | main.py:143-146 | the head of a filtered list is the first element of the list that the filter keeps |
| Graphs.RemoveNodes | main.py:148-152 | removing a vertex set leaves a valid graph induced on the remaining vertices, in the original node order |
| Graphs.RemoveNode | main.py:146 | removing one vertex leaves a valid induced subgraph with one vertex fewer |
| Graphs.CompleteIffFullDegree | main.py:139-144 | a valid graph is complete exactly when every vertex has degree \|V\| - 1 |
| Graphs.DegreeBound | main.py:144 | no vertex has degree above \|V\| - 1, so the filter's second test always holds |
| Graphs.InducedCliques | main.py:146-152 | the cliques of an induced subgraph are the cliques of the graph inside the kept vertices |
| Graphs.MaximumIsMaximal | main.py:156-163 | a maximum clique cannot be extended by any vertex |
| Graphs.ExtendIffAdjacent | main.py:102-106 | a vertex outside a clique extends it exactly when it is adjacent to every member, the step of the greedy clique and of Bron–Kerbosch |
| DegreeOrdering.Insert | main.py:100-101 | inserting a vertex into a sorted list gives a list one longer that contains it |
| DegreeOrdering.SortByDegree | main.py:100-101 | the degree sort keeps the length of its input; the three lemmas below state that it is a stable sort by non-increasing degree |
| DegreeOrdering.DegreeOrder | main.py:100-101 | `sorted(nx.degree(graph), key=lambda x: x[1], reverse=True)`, as used at main.py:100-101, 117-118 and 140-141: as many entries as the node list |
| DegreeOrdering.SortByDegreePermutes | main.py:100-101 | the degree sort is a permutation of its input |
| DegreeOrdering.SortByDegreeSorted | main.py:100-101 | the degree sort yields non-increasing degrees |
| DegreeOrdering.SortByDegreeStable | main.py:100-101 | for each degree, the vertices of that degree keep their input order (stability) |
| DegreeOrdering.DegreeOrderEnumerates | main.py:100-101 | the degree order lists every vertex exactly once |
| DegreeOrdering.DegreeOrderLength | main.py:114-118 | the degree order has \|V\| entries |
| DegreeOrdering.OfDegreeHead | main.py:140-146 | the first vertex of a given degree heads the list of vertices of that degree |
| GreedyClique.GreedyFrom | main.py:102-106 | the greedy clique built from a candidate list takes only candidates, and always the first one |
| GreedyClique.GreedyCliqueOf | main.py:99-107 | the heuristic's clique, built from the degree order, holds only vertices of the graph and is nonempty when the graph is |
| GreedyClique.LoopStep | main.py:102-106 | one pass keeps the loop invariants: the clique so far plus the greedy clique of the remaining candidates is the heuristic's clique, and the pool invariant holds |
| GreedyClique.GreedyCliqueHeuristic | main.py:94-107 | the result is the greedy clique of the degree order; it is a clique of the graph; it is empty exactly when the graph is |
| GreedyClique.PoolStep | main.py:102-106 | one pass keeps the loop invariant: the result is a clique, and every remaining candidate lies outside it and is adjacent to all of it |
| GreedyClique.GreedyFromClique | main.py:102-106 | whatever the candidate pool still offers closes the clique built so far into a clique |
| GreedyClique.GreedyCliqueOfIsClique | main.py:94-107 | the heuristic's clique is a clique of the graph |
| GreedyClique.GreedyCliqueOfComplete | main.py:99-107 | on a complete graph the greedy clique is all of V |
| GreedyColoring.GreedyColoringHeuristic | main.py:110-131 | None exactly on the empty graph (as `next(color_num)` raises `StopIteration` on the empty range); otherwise the colours form a greedy run over the whole degree order (each vertex in turn gets a free colour in use, or the next fresh colour when every colour in use is blocked), every vertex is coloured, the colouring is proper, the count is the number of colours used, lies between 1 and \|V\|, exceeds every colour, and bounds the size of every clique |
| GreedyColoring.NeighborColors | main.py:123-124 | the neighbour colours are colours already assigned, and there are none when no neighbour is coloured yet |
| GreedyColoring.GreedyRunStep | main.py:121-130 | colouring the next uncoloured vertex of the order by the greedy rule extends a greedy run by one vertex |
| GreedyColoring.GreedyRunState | main.py:119-130 | every greedy run over the degree order is a proper colouring of the vertices popped so far whose colours in use are 0 .. k - 1, with k at most the number of popped vertices |
| GreedyColoring.ChoiceStep | main.py:125-130 | a colour the greedy rule allows (the fresh one when every colour in use is blocked, otherwise a free colour in use) keeps the loop state |
| GreedyColoring.NeighborColorsUsed | main.py:123-125 | the neighbour colours are colours in use, and they are as many as the colours in use exactly when every colour in use is blocked |
| GreedyColoring.FirstStep | main.py:119-120 | colouring the first vertex with colour 0 establishes the loop state |
| GreedyColoring.ColorNode | main.py:121-130 | when every colour in use is carried by a neighbour, the vertex gets the fresh colour `next` and the colours in use grow by it; otherwise it gets a colour in use that no neighbour carries and the colours in use stay; either way the loop state is kept: exactly the popped vertices are coloured, the colours in use are 0 .. next - 1, and the colouring is proper |
| GreedyColoring.FreshStep | main.py:125-128 | a fresh colour from the counter keeps the loop state |
| GreedyColoring.ReuseStep | main.py:129-130 | any colour in use that no neighbour carries keeps the loop state |
| GreedyColoring.FreshColor | main.py:126-127 | adding the fresh colour gives one more colour in use, matching the assigned colours |
| GreedyColoring.ReuseColor | main.py:130 | reusing a colour leaves the colours in use unchanged |
| GreedyColoring.ProperUpdate | main.py:125-130 | giving a vertex a colour none of its coloured neighbours has keeps the colouring proper |
| GreedyColoring.FinalState | main.py:121-131 | when the list is exhausted every vertex is coloured; the counter never passed \|V\|; the colour count bounds every clique |
| GreedyColoring.GreedyColoringBound | main.py:110-131 | every colouring the heuristic can produce (a greedy run over the whole degree order) colours all of V properly, and its number of colours bounds the size of every clique |
| GreedyColoring.CliqueColorBound | main.py:131 | under a proper colouring a clique has at most as many members as there are colours |
| BranchingRule.Branching | main.py:134-153 | None exactly on a complete graph (as indexing the empty candidate list fails); otherwise valid graphs g1 = G - p and g2 = G induced on p and its neighbours, for the pivot p |
| BranchingRule.PartialSet | main.py:142-144 | the filter of the branching rule keeps only vertices of the graph |
| BranchingRule.PartialIffNotFull | main.py:142-144 | a vertex passes the filter exactly when it is not adjacent to every other vertex |
| BranchingRule.PivotUnique | main.py:140-146 | at most one vertex is the pivot (a vertex not adjacent to all others, of largest degree among such, first of its degree in node order), so that description pins down `partial_connected_nodes[0]` |
| BranchingRule.PivotExists | main.py:140-146 | a pivot exists exactly when the graph is not complete |
| BranchingRule.PartialEmptyIffComplete | main.py:139-146 | the candidate list is empty exactly when the graph is complete |
| BranchingRule.FirstPartialIsPivot | main.py:140-146 | the head of the candidate list is the pivot: not adjacent to all others, of largest degree among such vertices, and the first vertex of its degree in node order |
| BranchingRule.HeadHasMaxDegree | main.py:140-146 | no candidate has a larger degree than the head of the candidate list |
| BranchingRule.HeadFirstOfDegree | main.py:140-146 | the head of the candidate list comes first among the vertices of its degree in node order |
| BranchingRule.KeepNeighborhood | main.py:148-152 | removing V - N(p) - {p} leaves G induced on N(p) + {p} |
| BranchingRule.SplitCliques | main.py:146-152 | a set is a clique of G exactly when it avoids p and is a clique of g1, or contains p and is a clique of g2 |
| BranchingRule.SplitShrinks | main.py:146-152 | g1 has \|V\| - 1 vertices and g2 has deg(p) + 1 vertices, both nonempty and fewer than \|V\| |
| BranchAndBound.Larger | main.py:163 | `max(..., key=len)` returns one of its arguments, one of largest size, and the first one on a tie |
| BranchAndBound.MaximumClique | main.py:156-163 | None exactly on the empty graph. Otherwise the colour count `upper` the colouring heuristic returned is the count of a colouring it can produce. The result is the one the source gives for that count: the greedy clique when its size equals `upper`, otherwise the branch answer. It is a clique of G that no clique of G exceeds in size |
| BranchAndBound.SearchBranches | main.py:161-163 | when L < U, branching on the pivot and keeping `max` of the two recursive answers gives a branch answer for G, and a maximum clique |
| BranchAndBound.BranchStep | main.py:161-163 | for a split on the pivot, the larger of answers for g1 and g2 (g1's on a tie) is an answer for G when the bounds do not meet |
| BranchAndBound.BoundsMeetMaximum | main.py:157-160 | when the greedy clique's size equals the colour count of a colouring the heuristic can produce, the greedy clique is a maximum clique |
| BranchAndBound.AnswerIsMaximum | main.py:156-163 | every answer `bb_maximum_clique` can give, for any colouring the heuristic can produce, is a maximum clique |
| BranchAndBound.BranchAnswerIsMaximum | main.py:161-163 | every branch answer is a maximum clique |
| BranchAndBound.Answered | main.py:156-163 | an answer for the colour count the heuristic returned is a maximum clique |
| BranchAndBound.CompleteBoundsMeet | main.py:157-160 | on a complete graph L == U, so L != U means the graph is not complete and a pivot exists |
| BranchAndBound.BranchesCombine | main.py:162-163 | the larger of maximum cliques of g1 and g2 is a maximum clique of G |
| BronKerbosch.ExtendIffCommonNeighbor | main.py:87-88 | a vertex outside a clique extends it exactly when it is a common neighbour of the clique, the set that P and X split |
| BronKerbosch.MaximalIffNoCommonNeighbor | main.py:84-85 | a clique is maximal exactly when it has no common neighbour, which is when P and X are both empty |
| BronKerbosch.CommonNeighborsExtend | main.py:87-88 | the common neighbours of R + {v} are those of R that are adjacent to v, which is what the recursive P and X split |
| BronKerbosch.ReportedInitially | main.py:84-85 | R is yielded exactly when it is maximal |
| BronKerbosch.ReportedStep | main.py:86-91 | exploring a vertex adds exactly the maximal cliques through it that avoid the vertices already explored, none of them reported before |
| BronKerbosch.BronK | main.py:80-91 | yields exactly the maximal cliques that contain R and add only vertices of P, each once |
| BronKerbosch.MaximalCliques | main.py:80-91 | from P = V and empty R and X, yields every maximal clique of the graph exactly once |
| BronKerbosch.MaximumCliquesReported | main.py:80-91 | every maximum clique is among the yielded cliques |
| BronKerbosch.UnionAsWritten | main.py:88 | `R.union(node)` keeps R and adds only one-character strings, so a label of any other length is in the result only if it was already in R |
| BronKerbosch.UnionAsWrittenCounterexample | main.py:88 | on the one-vertex graph "10" the code as written yields {"1", "0"}, which is not a clique, instead of the maximal clique {"10"} |

## Left out

- `time_limit`, `timing`, `get_max_clique` (main.py:17-44, 166-168): thread timers, interrupts, wall-clock measurement and printing. The search has no cancellation points to model.
- `read_dimacs_graph` (main.py:47-65): file reading and printing. The graph is an input, assumed `Valid`.
- `arguments`, `get_files_size_ordered`, `run_test`, `main`: command line, file system, spreadsheet output and exit.
- networkx is not modelled. Its calls appear only through their effect on the node list and the adjacency map.
- GreedyColoring.ColorNode: `next(iter(used_colors - neighbors_colors))` depends on set iteration order. The model picks any element of that difference, so every property holds whichever colour the set yields.
- GreedyColoring.GreedyColoringHeuristic: `next(color_num)` raises `StopIteration` only on the empty graph, where the model returns `None`. On a non-empty graph it cannot happen: the model proves that a fresh colour is drawn only while fewer than \|V\| colours are in use.
- BranchingRule.Branching: the parameter `cur_max_clique_len` is unused by the source and is left out.
- BranchingRule.Branching: `graph.copy()` and the in-place removals are modelled on graph values. Each branch is a fresh copy, so no aliasing is lost.
- BronKerbosch.BronK: the model returns the yielded cliques as a finished sequence rather than a lazy generator.
- BronKerbosch.BronK: it works on local copies of P and X. The source changes its argument P in place (it empties the caller's set). The mutable default `X=set()` is shared between top-level calls and keeps the vertices a previous call added. A caller that relies on the defaults gets a different second result; the model starts each call from the P, R and X it is given.
- BronKerbosch.BronK: with integer labels `R.union(node)` raises `TypeError`. The model has only string labels, and it uses R + {node} (see Findings).
- BranchAndBound.MaximumClique: when the graph is empty the source fails before reaching the branch-and-bound logic, and the model returns `None` rather than an empty clique.
- BranchAndBound.MaximumClique: through U, the answer depends on which free colour Python's set iteration yields, in this call and in every recursive call. The model ties the answer to the U the colouring heuristic returned, and `AnswerFor` allows every colouring the heuristic can produce, so the clique is pinned down only up to that colour choice.
- BranchingRule.Branching: there is no fallback for complete graphs; the source fails there, and the model returns `None`.
- The loop of `bronk` visits P's snapshot in set iteration order. The model picks any remaining vertex each time, so the set of yielded cliques and their uniqueness hold for every order; the order of the sequence is not pinned down.

## Findings

| source | as written | input that shows it | evidently intended | confidence | as-written member | corrected member |
|---|---|---|---|---|---|---|
| main.py:88 | `R=R.union(node)` iterates over the string label `node` and adds its characters | the graph with one vertex "10": the recursive call gets R = {"1", "0"} with P and X empty and yields it; it is not a clique of the graph | `R.union({node})`, R + {node}, which yields the maximal clique {"10"} | not executed | BronKerbosch.UnionAsWrittenCounterexample | BronKerbosch.BronK |
