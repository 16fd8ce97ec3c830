# Shortest path finder — a verified model

The path finder is a web page with a 20 × 20 board. The first click picks the
start cell, the second picks the end cell, and every later click turns a cell
into a wall or back. "Start" runs a uniform-cost search (`startDijkstra`) from
the start over the four-way neighbourhood (`getNeighbors`). When the end cell
is taken from the open list, the parent lists recorded during the search are
walked back (`reconstructPaths`). The page then shows the length of the first
rebuilt path and how many paths were rebuilt.

This project models that core in Dafny, in five modules:

- `Wrappers` holds `Option`, which stands for JavaScript's `null`/`undefined`.
- `Grid` holds the board, coordinates, walls and `getNeighbors` as a pure function.
- `Grid` also defines walks and routes, used to state the search's properties.
- `Search` models `startDijkstra` as an imperative loop over the open list, the closed list and the parent map.
- `Search` splits the `forEach` over neighbours into its own method, `ExpandNode`.
- `Paths` models `reconstructPaths` as the nested loops that `pop` parent lists in place.
- `BoardState` models the page globals as a class `Board`.
- `BoardState.SearchAndRebuild` is the search and the path rebuild on values; `Board.StartDijkstra` writes its results into the page state.
- `Board`'s methods are the click handler, `clearGrid` and the start action.

The main results:

- The search pops costs in non-decreasing order.
- The search pushes each cell at most once, so it runs at most `gridSize²` rounds.
- The search stops exactly when the end cell is popped.
- When the end is found, its cost is that of a shortest route.
- When the search gives up, no route exists.
- Every cell except the start gets exactly one parent, one step closer to the start. The start's list is `[null]`.
- The parent-list append in the search is therefore unreachable. A cell already in the parent map is either closed or open at a cost no larger than the candidate, and the open-list test uses `g >= cell.g`.
- As a result, `reconstructPaths` always rebuilds exactly one path, and `totalPaths` and the path counter are 1.
- The rebuilt path leaves out the start cell and ends at the end cell.
- Each step of the rebuilt path is an allowed move.
- The length of the rebuilt path equals the end cell's cost, which is the value shown as the step count. For start = end, the path is empty and the count is 0.

The model follows the code, also where the code does less than its comments
say:

- The comments promise every shortest path (lines 69, 89 and 138). The code yields one; see the last bullets above.
- The start cell is never pushed onto the path being built, so a path leaves it out, and the step count is the path's length (the number of moves), not the number of cells on the route.
- When no route exists, the code simply returns. No path is rebuilt, and the totals and counters keep their old values.
- `current` is not reset between rounds of the outer rebuild loop. This is modelled as written and is harmless, because only one round ever runs on a parent map produced by the search.

The sort and shift on the open list (lines 84-85) are modelled as taking the
first entry of least `g`, which is what a stable sort followed by `shift`
takes. The open list is in fact always sorted by `g` already. Every push is
at `current.g + 1`, and no open entry costs more than that. So the sort
never moves an entry, the model's open list matches the page's entry for
entry, and the entry taken is always the head (`Search.SortedHead`).

## Model

| member | source | states |
|---|---|---|
| Grid.Steps | Source_code_Shortest_path_finder/script.js:113-120 | entry i is the input cell moved by direction i of the table, one entry per direction |
| Grid.OpenSteps | Source_code_Shortest_path_finder/script.js:118-128 | the kept cells are the directions' targets in table order with some left out; each is on the board and not a wall; every such target is kept |
| Grid.DirectionTargets | Source_code_Shortest_path_finder/script.js:113-120 | the direction table sends a cell to the cells above, below, left and right of it, in that order |
| Grid.AdjacentSteps | Source_code_Shortest_path_finder/script.js:113-120 | a cell is one step up, down, left or right of another exactly when it is one of the direction table's targets |
| Grid.Neighbors | Source_code_Shortest_path_finder/script.js:111-131 | at most four cells; a cell is in the result exactly when it is one step from the input, on the board and not a wall; they come in the direction table's order (up, down, left, right) |
| Grid.NeighborsDistinct | Source_code_Shortest_path_finder/script.js:111-131 | `getNeighbors` lists no cell twice |
| Grid.BoardBound | Source_code_Shortest_path_finder/script.js:1 | a list of distinct on-board cells has at most gridSize² entries |
| Grid.RectSize | Source_code_Shortest_path_finder/script.js:1 | the board has gridSize × gridSize cells |
| Grid.WalkStaysInside | Source_code_Shortest_path_finder/script.js:93-107 | a walk that starts in a set of cells closed under allowed moves never leaves that set |
| Search.FirstMinIndex | Source_code_Shortest_path_finder/script.js:84-85 | the index taken has the least `g` of the open list, and no earlier entry has that `g` (the head after a stable sort) |
| Search.RemoveAt | Source_code_Shortest_path_finder/script.js:85 | the open list loses exactly the taken entry; the others keep their order |
| Search.SortedHead | Source_code_Shortest_path_finder/script.js:84-85 | on an open list already sorted by `g`, the first entry of least `g` is the head, so the sort moves nothing and `shift` takes it |
| Search.Search | Source_code_Shortest_path_finder/script.js:70-109 | popped `g` values never decrease; each cell is pushed at most once, the start first, and the pushed cells are exactly the discovered ones, so there are at most gridSize² rounds; no cell is popped twice, each at its recorded `g`; when the search gives up every discovered cell has been popped; the result is Found exactly when the end is popped, and no earlier pop is the end; on Found, the start maps to `[null]` and every other cell to exactly one parent with `g` one less that it was entered from; the end's `g` is at most the length of every route; NotFound only when no route from start to end exists |
| Search.ExpandNode | Source_code_Shortest_path_finder/script.js:93-107 | the old open entries stay in place, followed by one entry at `g + 1` for each neighbour that was neither closed nor open at cost at most `g + 1`, in `getNeighbors` order; exactly those cells get the popped node as their only parent, and the rest of the parent map is unchanged; the search invariant holds again with the popped `g` as the level |
| Search.Fresh | Source_code_Shortest_path_finder/script.js:93-98 | a cell is among the pushed neighbours exactly when it is a neighbour that is neither closed nor open at cost at most `g` |
| Search.AtCost | Source_code_Shortest_path_finder/script.js:99-105 | one node per pushed cell, in order, each at the candidate cost |
| Search.Adopt | Source_code_Shortest_path_finder/script.js:100-101 | the pushed cells are added to the parent map with the popped node as their only parent; every other entry is unchanged |
| Search.FreshStep | Source_code_Shortest_path_finder/script.js:93-105 | one more neighbour adds it to the pushed cells exactly when it fails both tests; because the neighbours are distinct, the entries pushed before it do not change its open-list test |
| Search.AddedStep | Source_code_Shortest_path_finder/script.js:93-105 | after the callback for one more neighbour, the open list and the parent map are still the old ones plus the entries for the neighbours pushed so far |
| Search.VisitNeighbor | Source_code_Shortest_path_finder/script.js:93-107 | a neighbour that is closed, or open at cost at most `g + 1`, leaves the open list and the parent map unchanged; any other is pushed with cost `g + 1` and gets the popped node as its only parent; the parent-list append (line 103) is proved unreachable; the invariant of the neighbour loop is kept |
| Search.FoundOutcome | Source_code_Shortest_path_finder/script.js:88-90 | popping the end cell yields the `Found` promises of the search: the end is the last pop and no earlier one, the parent map has its shape, and the end's `g` is a shortest route length |
| Search.ExhaustedOutcome | Source_code_Shortest_path_finder/script.js:83-108 | an empty open list yields the `NotFound` promises of the search: the end was never popped and no route exists |
| Search.BeginExpand | Source_code_Shortest_path_finder/script.js:86-93 | after a pop of a cell other than the end, every closed cell but the new one is expanded and the end is still not closed |
| Search.FinishExpand | Source_code_Shortest_path_finder/script.js:93-107 | once all neighbours of the popped node are discovered within one step, the popped node counts as expanded and the outer invariant holds |
| Search.AllNeighborsSeen | Source_code_Shortest_path_finder/script.js:93-107 | if every cell `getNeighbors` lists is discovered at cost at most one more, every allowed move from the cell leads to such a cell |
| Search.PushParents | Source_code_Shortest_path_finder/script.js:99-101 | giving a new cell the popped node as its only parent keeps the parent-map shape: start to `[null]`, every other cell one adjacent parent one step cheaper |
| Search.PushTracked | Source_code_Shortest_path_finder/script.js:105 | pushing a new on-board cell keeps the pushed list free of repeats, and so at most gridSize² long |
| Search.InitialInv | Source_code_Shortest_path_finder/script.js:74-81 | the initial open list `[start]` with `g = 0` and the map `start -> [null]` satisfy the search invariant |
| Search.PopKeepsCore | Source_code_Shortest_path_finder/script.js:84-86 | moving an entry of least `g` from the open to the closed list keeps the invariant, with that `g` as the new level |
| Search.PopLayered | Source_code_Shortest_path_finder/script.js:84-86 | after the pop, closed costs stay sorted and at most the popped `g`, open costs lie between the popped `g` and one more, and the open list stays sorted |
| Search.PopCosted | Source_code_Shortest_path_finder/script.js:85-86 | after the pop, every open and closed node still carries its cell's recorded `g` |
| Search.PushLayered | Source_code_Shortest_path_finder/script.js:98-105 | pushing at `lastG + 1`, the largest cost an open entry may have, keeps the open list sorted and the costs layered |
| Search.PopDistinct | Source_code_Shortest_path_finder/script.js:85-86 | after the pop, no cell is twice in either list or in both |
| Search.PopCovered | Source_code_Shortest_path_finder/script.js:85-86 | after the pop, every discovered cell is still open or closed |
| Search.PushKeepsInner | Source_code_Shortest_path_finder/script.js:94-105 | a neighbour that is neither closed nor open at cost at most `g + 1` is not yet in the parent map; giving it one parent and pushing it keeps the invariant |
| Search.SkipKeepsInner | Source_code_Shortest_path_finder/script.js:94-98 | skipping a neighbour that is closed, or open at cost at most `g + 1`, keeps the invariant |
| Search.OpenWithinOneStep | Source_code_Shortest_path_finder/script.js:98 | when open costs are at most `lastG + 1`, any open entry of a cell passes the test of line 98 for the candidate `lastG + 1` |
| Search.NoRouteWhenExhausted | Source_code_Shortest_path_finder/script.js:83-108 | when the open list runs dry without popping the end, no route from start to end exists |
| Search.ShortestAtPop | Source_code_Shortest_path_finder/script.js:84-88 | the `g` of an entry of least cost is at most the length of any route from start to end, while the end is not yet closed |
| Search.ClosedPrefixDist | Source_code_Shortest_path_finder/script.js:93-107 | along a walk from the start whose cells so far are all closed, the next cell is discovered at cost at most its position |
| Search.FirstOpenOnWalk | Source_code_Shortest_path_finder/script.js:84-107 | on a walk from the start to a cell that is not closed, the first cell that is not closed is open, with a cost no smaller than the least open cost and at most its position |
| Paths.Reverse | Source_code_Shortest_path_finder/script.js:149 | the reversed path has the same length, with entry i equal to entry length − 1 − i of the input |
| Paths.ReverseSnoc | Source_code_Shortest_path_finder/script.js:145-149 | reversing a path after a push puts the pushed cell first |
| Paths.PopStep | Source_code_Shortest_path_finder/script.js:142-147 | popping a parent list leaves every list a prefix of its original; a popped parent is one of the recorded parents and is one step cheaper than the cell it was popped for |
| Paths.SameCellSameCost | Source_code_Shortest_path_finder/script.js:144-148 | two nodes of one cell whose parent list is not empty have the same `g`, so a walk back through cheaper nodes never returns to the end's list |
| Paths.FirstRoundStep | Source_code_Shortest_path_finder/script.js:144-148 | during the first walk back, the parent list of the cell reached has not been popped yet, and after the step the trace of the end is still the trace ahead followed by the reversed path built so far |
| Paths.ReconstructPaths | Source_code_Shortest_path_finder/script.js:133-171 | one path per entry of the end's parent list; the first path is the trace of last parents from the end back to (not including) the start; the step count is its length and `totalPaths` is the number of paths |
| Paths.SearchMapRanked | Source_code_Shortest_path_finder/script.js:81-104 | the search's parent map is ranked (every recorded parent is one step cheaper than its cell, down to `null` at cost 0), and every discovered cell has a parent list of exactly one entry |
| Paths.TraceRoute | Source_code_Shortest_path_finder/script.js:139-150 | the trace from a discovered cell has as many cells as the cell's `g`, `[start] + trace` is a route of allowed moves to that cell, the start is not in it, and it is empty exactly when the cell is the start |
| BoardState.Without | Source_code_Shortest_path_finder/script.js:53 | the filtered wall list holds exactly the old walls other than the clicked cell, in their old order, and stays free of duplicates |
| BoardState.SearchAndRebuild | Source_code_Shortest_path_finder/script.js:70-109 | the search finds the end exactly when a route exists; then exactly one path is rebuilt, a route from the start (left out) to the end whose length is the step count and at most that of any route; for start = end the path is empty and the count 0; with no route no path is rebuilt |
| BoardState.Board.constructor | Source_code_Shortest_path_finder/script.js:2-20 | no start and no end, no walls, no paths, totals and counters at 0 |
| BoardState.Board.HandleCellClick | Source_code_Shortest_path_finder/script.js:40-56 | first click sets the start, second the end, without touching the walls; later clicks flip the wall mark of the clicked cell only, and push it onto the wall list or filter every copy out; the wall list always holds exactly the wall cells, once each |
| BoardState.Board.ClearGrid | Source_code_Shortest_path_finder/script.js:58-67 | start and end null, walls and paths empty, no cell marked as a wall, `totalPaths` and both counters 0 |
| BoardState.Board.StartDijkstra | Source_code_Shortest_path_finder/script.js:70-109 | when a route exists: exactly one path, `totalPaths` and the path counter 1, the path is a route from the start (left out) to the end, and the step count is its length and at most that of any route; for start = end the path is empty and the count 0; with no route nothing changes |

## Left out

- DOM construction and event wiring: element creation, `appendChild`, `addEventListener` and the `DOMContentLoaded` hook. The board is the `GridSize` constant plus a set of wall cells.
- The wall mark on a DOM cell (`classList` `wall`) is the field `wallCells`. The search reads walls from there, as `getNeighbors` does.
- Highlighting (`classList.add('path')`, the start cell's highlight) and `resetPath` are presentation only. `StartDijkstra` returns the rebuilt paths that would be highlighted.
- `innerText` writes are modelled as the integer fields `stepCount` and `pathCount`.
- The initial text of the two counters comes from the page markup, which is not part of this model. The constructor starts them at 0.
- `console.log` and the `parseInt` of `dataset` strings. Coordinates are integers throughout.
- The `"row,col"` string keys of the parent map. The map is keyed by coordinate pairs.
- The exact algorithm of `Array.prototype.sort`. Only its result is modelled: the first entry of least `g` is taken.
- `startCell` and `endCell` must be set before the start action, as lines 76 and 88 dereference them. This is a precondition of `Board.StartDijkstra`.
- Paths.ReconstructPaths: only the first path is characterised beyond its count, because the page reads only `paths[0]` and `paths.length`. Every parent map produced by the search gives a single path.
- Paths.ReconstructPaths requires a non-empty parent list for the end cell, because line 166 reads `paths[0]` unguarded. The search's map always gives one.
- Paths.ReconstructPaths also requires the parent map to be ranked: every recorded parent is one step cheaper than its cell, down to `null` at cost 0. The search's map always is (`Paths.SearchMapRanked`). On a map that is not ranked, the walk back at lines 144-148 need not end, and that case is not modelled.
