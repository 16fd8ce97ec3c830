/**
 * The page state around the search: the start and end cells chosen by the
 * first two clicks, the walls toggled by later clicks, the totals of the
 * last search and the two counters on the page.
 */
module BoardState {
  import opened Wrappers
  import opened Grid
  import opened Search
  import opened Paths

  /** The wall list with every copy of `c` removed, the rest kept in order. */
  function Without(ws: seq<Coord>, c: Coord): (r: seq<Coord>)
    ensures forall x :: x in r <==> x in ws && x != c
    ensures Subseq(r, ws)
    ensures NoDup(ws) ==> NoDup(r)
  {
    if ws == [] then []
    else
      var rest := Without(ws[1..], c);
      if ws[0] == c then
        assert rest != [] ==> rest[0] in rest;
        rest
      else
        var r := [ws[0]] + rest;
        assert r[0] == ws[0] && r[1..] == rest;
        if NoDup(ws) then
          assert ws[0] !in ws[1..];
          assert ws[0] !in rest;
          r
        else r
  }

  /** A route on the board from `s` to `e` exists. */
  ghost predicate Reachable(walls: set<Coord>, s: Coord, e: Coord) {
    exists w :: IsRoute(walls, s, e, w)
  }

  /**
   * The work of `startDijkstra` apart from the page state: the search from
   * `s` and, when it takes the end cell `e`, the rebuild of the paths with
   * the step count and the number of paths it reports. When a route exists
   * exactly one path is rebuilt; it leaves the start out, leads to the end
   * over allowed moves and is as short as any route. When none exists the
   * search returns without rebuilding anything.
   */
  method SearchAndRebuild(walls: set<Coord>, s: Coord, e: Coord)
    returns (found: bool, paths: seq<seq<Coord>>, steps: nat, total: nat)
    requires InBounds(s)
    ensures found <==> Reachable(walls, s, e)
    ensures found ==>
      && |paths| == 1 && total == 1
      && IsRoute(walls, s, e, [s] + paths[0])
      && s !in paths[0]
      && steps == |paths[0]|
      && forall w :: IsRoute(walls, s, e, w) ==> steps <= |w| - 1
    ensures s == e ==> found && paths == [[]] && steps == 0
    ensures !found ==> paths == []
  {
    var r;
    ghost var dist, popped, pushed;
    r, dist, popped, pushed := Search.Search(walls, s, e);
    paths, steps, total := [], 0, 0;
    if s == e {
      assert IsRoute(walls, s, e, [s]);
    }
    found := r.Found?;
    if r.Found? {
      TraceRoute(walls, s, r.parents, dist, e);
      assert r.endNode == Node(e, dist[e]);
      paths, steps, total := ReconstructPaths(r.endNode, r.parents);
    }
  }

  class Board {
    var startCell: Option<Coord>
    var endCell: Option<Coord>
    /** The wall list kept beside the cells. */
    var walls: seq<Coord>
    /** The cells currently marked as walls; the search reads these. */
    var wallCells: set<Coord>
    var allPaths: seq<seq<Coord>>
    var totalPaths: nat
    /** The number shown by the `stepCount` element. */
    var stepCount: nat
    /** The number shown by the `pathCount` element. */
    var pathCount: nat

    /** The wall list holds each wall cell exactly once, and every chosen cell is on the board. */
    ghost predicate Valid()
      reads this
    {
      && NoDup(walls)
      && (forall c :: c in walls <==> c in wallCells)
      && (forall c :: c in wallCells ==> InBounds(c))
      && (startCell.Some? ==> InBounds(startCell.value))
      && (endCell.Some? ==> InBounds(endCell.value))
    }

    /** The state after the page is loaded and `createGrid` has run. */
    constructor ()
      ensures Valid()
      ensures startCell == None && endCell == None
      ensures walls == [] && wallCells == {} && allPaths == [] && totalPaths == 0
      ensures stepCount == 0 && pathCount == 0
    {
      startCell, endCell := None, None;
      walls, wallCells := [], {};
      allPaths, totalPaths := [], 0;
      stepCount, pathCount := 0, 0;
    }

    /**
     * `handleCellClick(row, col)`: the first click picks the start, the
     * second the end, every later one toggles the wall mark of the cell
     * and adds it to or filters it out of the wall list.
     */
    method HandleCellClick(row: int, col: int)
      requires Valid() && InBounds(Coord(row, col))
      modifies this
      ensures Valid()
      ensures old(startCell).None? ==>
        startCell == Some(Coord(row, col)) && endCell == old(endCell) && walls == old(walls) && wallCells == old(wallCells)
      ensures old(startCell).Some? && old(endCell).None? ==>
        startCell == old(startCell) && endCell == Some(Coord(row, col)) && walls == old(walls) && wallCells == old(wallCells)
      ensures old(startCell).Some? && old(endCell).Some? ==>
        && startCell == old(startCell) && endCell == old(endCell)
        && (Coord(row, col) in wallCells <==> Coord(row, col) !in old(wallCells))
        && wallCells - {Coord(row, col)} == old(wallCells) - {Coord(row, col)}
        && walls == if Coord(row, col) in wallCells then old(walls) + [Coord(row, col)] else Without(old(walls), Coord(row, col))
      ensures allPaths == old(allPaths) && totalPaths == old(totalPaths)
      ensures stepCount == old(stepCount) && pathCount == old(pathCount)
    {
      var clicked := Coord(row, col);
      if startCell.None? {
        startCell := Some(clicked);
      } else if endCell.None? {
        endCell := Some(clicked);
      } else {
        if clicked in wallCells {
          wallCells := wallCells - {clicked};
        } else {
          wallCells := wallCells + {clicked};
        }
        if clicked in wallCells {
          walls := walls + [clicked];
        } else {
          walls := Without(walls, clicked);
        }
      }
    }

    /** `clearGrid`: everything back to the state of a freshly built grid with counters at 0. */
    method ClearGrid()
      modifies this
      ensures Valid()
      ensures startCell == None && endCell == None
      ensures walls == [] && wallCells == {} && allPaths == [] && totalPaths == 0
      ensures stepCount == 0 && pathCount == 0
    {
      startCell := None;
      endCell := None;
      walls := [];
      allPaths := [];
      totalPaths := 0;
      stepCount := 0;
      pathCount := 0;
      // `createGrid` builds fresh cells, none marked as a wall
      wallCells := {};
      walls := [];
      allPaths := [];
      totalPaths := 0;
    }

    /**
     * `startDijkstra`: search from the start to the end over the current
     * walls and, if the end is reached, rebuild the paths and show their
     * count and the length of the first one. `paths` is what is handed to
     * the highlighting. When a route exists exactly one path is rebuilt;
     * it leaves the start out, leads to the end over allowed moves and is
     * as short as any route. When none exists nothing changes.
     */
    method StartDijkstra() returns (paths: seq<seq<Coord>>)
      requires Valid() && startCell.Some? && endCell.Some?
      modifies this
      ensures Valid()
      ensures startCell == old(startCell) && endCell == old(endCell)
      ensures walls == old(walls) && wallCells == old(wallCells) && allPaths == old(allPaths)
      ensures Reachable(wallCells, startCell.value, endCell.value) ==>
        && |paths| == 1 && totalPaths == 1 && pathCount == 1
        && IsRoute(wallCells, startCell.value, endCell.value, [startCell.value] + paths[0])
        && startCell.value !in paths[0]
        && stepCount == |paths[0]|
        && forall w :: IsRoute(wallCells, startCell.value, endCell.value, w) ==> stepCount <= |w| - 1
      ensures startCell.value == endCell.value ==> paths == [[]] && stepCount == 0 && totalPaths == 1
      ensures !Reachable(wallCells, startCell.value, endCell.value) ==>
        paths == [] && totalPaths == old(totalPaths) && stepCount == old(stepCount) && pathCount == old(pathCount)
    {
      var found, steps, total;
      found, paths, steps, total := SearchAndRebuild(wallCells, startCell.value, endCell.value);
      if found {
        // `reconstructPaths` writes the step count, `totalPaths` and the path counter
        stepCount, totalPaths, pathCount := steps, total, total;
      }
    }
  }
}
