/**
 * `startDijkstra`: uniform-cost search from the start cell. The open list is
 * ordered by `g`, its head is taken each round and moved to the closed
 * list, and every neighbour that is neither closed nor already open at a
 * cost no larger than the candidate is given a parent and pushed.
 */
module Search {
  import opened Wrappers
  import opened Grid

  /** A search node: a cell and its number of steps `g` from the start. */
  datatype Node = Node(coord: Coord, g: nat)

  /** `parentMap`: each discovered cell's parent list; `None` stands for `null`. */
  type ParentMap = map<Coord, seq<Option<Node>>>

  datatype SearchResult =
    | Found(endNode: Node, parents: ParentMap)  // the end cell was taken from the open list
    | NotFound                                  // the open list ran dry

  /** `list.some(cell => same cell)`. */
  predicate Listed(ns: seq<Node>, c: Coord) {
    exists i :: 0 <= i < |ns| && ns[i].coord == c
  }

  /** The open-list test of the search: some entry for `c` costs no more than `g`. */
  predicate ListedAtMost(ns: seq<Node>, c: Coord, g: nat) {
    exists i :: 0 <= i < |ns| && ns[i].coord == c && g >= ns[i].g
  }

  /**
   * The node that sorting the open list by `g` (a stable sort) and shifting
   * its head takes: the first entry of least cost.
   */
  method FirstMinIndex(open: seq<Node>) returns (k: nat)
    requires |open| > 0
    ensures k < |open|
    ensures forall j :: 0 <= j < |open| ==> open[k].g <= open[j].g
    ensures forall j :: 0 <= j < k ==> open[k].g < open[j].g
  {
    k := 0;
    var i := 1;
    while i < |open|
      invariant k < i <= |open|
      invariant forall j :: 0 <= j < i ==> open[k].g <= open[j].g
      invariant forall j :: 0 <= j < k ==> open[k].g < open[j].g
    {
      if open[i].g < open[k].g {
        k := i;
      }
      i := i + 1;
    }
  }

  /** No two nodes of the list are for the same cell. */
  predicate DistinctCells(ns: seq<Node>) {
    forall i, j :: 0 <= i < j < |ns| ==> ns[i].coord != ns[j].coord
  }

  /**
   * The shape of the parent map the search builds: the start maps to
   * `[null]`; every other cell was entered from a neighbour and has exactly
   * one parent, a node whose `g` is one less than the cell's.
   */
  ghost predicate ParentMapInv(walls: set<Coord>, start: Coord, parents: ParentMap, dist: map<Coord, nat>) {
    && parents.Keys == dist.Keys
    && start in parents && parents[start] == [None] && dist[start] == 0
    && forall c {:trigger parents[c]} :: c in parents && c != start ==> SingleParent(walls, parents, dist, c)
  }

  ghost predicate SingleParent(walls: set<Coord>, parents: ParentMap, dist: map<Coord, nat>, c: Coord)
    requires c in parents && c in dist
  {
    && |parents[c]| == 1 && parents[c][0].Some?
    && var p := parents[c][0].value;
    && p.coord in dist && dist[p.coord] == p.g && p.g + 1 == dist[c]
    && CanMove(walls, p.coord, c)
  }

  /** Every open neighbour of `c` has been discovered, at most one step further away. */
  ghost predicate NeighborsDiscovered(walls: set<Coord>, dist: map<Coord, nat>, c: Coord) {
    c in dist && forall n :: CanMove(walls, c, n) ==> n in dist && dist[n] <= dist[c] + 1
  }

  /** `open` with its entry at `k` taken out (the `shift` after sorting). */
  function RemoveAt(open: seq<Node>, k: nat): (r: seq<Node>)
    requires k < |open|
    ensures |r| == |open| - 1
    ensures forall j :: 0 <= j < |r| ==> r[j] == if j < k then open[j] else open[j + 1]
  {
    open[..k] + open[k + 1..]
  }

  // The loop invariant of the search, in named parts.

  /** Every node carries the cost recorded for its cell. */
  ghost predicate Costed(ns: seq<Node>, dist: map<Coord, nat>) {
    forall i :: 0 <= i < |ns| ==> ns[i].coord in dist && dist[ns[i].coord] == ns[i].g
  }

  /** The open and the closed list share no cell. */
  ghost predicate Apart(open: seq<Node>, closed: seq<Node>) {
    forall i, j :: 0 <= i < |open| && 0 <= j < |closed| ==> open[i].coord != closed[j].coord
  }

  /** Every discovered cell is open or closed. */
  ghost predicate Covered(dist: map<Coord, nat>, open: seq<Node>, closed: seq<Node>) {
    forall c :: c in dist ==> Listed(open, c) || Listed(closed, c)
  }

  /** Costs along `ns` never decrease. */
  predicate SortedByCost(ns: seq<Node>) {
    forall i, j :: 0 <= i < j < |ns| ==> ns[i].g <= ns[j].g
  }

  /**
   * Costs on the closed list never decrease and stay at most `lastG`; open
   * costs are `lastG` or one more, and the open list is already sorted by cost.
   */
  ghost predicate Layered(open: seq<Node>, closed: seq<Node>, lastG: nat) {
    && SortedByCost(closed)
    && (forall i :: 0 <= i < |closed| ==> closed[i].g <= lastG)
    && (forall i :: 0 <= i < |open| ==> lastG <= open[i].g <= lastG + 1)
    && SortedByCost(open)
  }

  /** On a list sorted by cost, the first entry of least cost is the head. */
  lemma SortedHead(open: seq<Node>, k: nat)
    requires SortedByCost(open) && k < |open|
    requires forall j :: 0 <= j < k ==> open[k].g < open[j].g
    ensures open[0].g <= open[k].g
    ensures k == 0
  {
  }

  /** `pushed` lists each discovered cell once, starting with the start cell. */
  ghost predicate Tracked(start: Coord, pushed: seq<Coord>, dist: map<Coord, nat>) {
    && |pushed| > 0 && pushed[0] == start && NoDup(pushed)
    && (forall c :: c in pushed <==> c in dist)
    && (forall i :: 0 <= i < |pushed| ==> InBounds(pushed[i]))
  }

  ghost predicate Core(walls: set<Coord>, start: Coord, open: seq<Node>, closed: seq<Node>,
                       parents: ParentMap, dist: map<Coord, nat>, pushed: seq<Coord>, lastG: nat) {
    && DistinctCells(open) && DistinctCells(closed) && Apart(open, closed)
    && Costed(open, dist) && Costed(closed, dist) && Covered(dist, open, closed)
    && ParentMapInv(walls, start, parents, dist)
    && Layered(open, closed, lastG)
    && Tracked(start, pushed, dist)
    && |open| + |closed| == |pushed| <= GridSize * GridSize
  }

  /** The first `upto` closed cells have had all their neighbours discovered. */
  ghost predicate Expanded(walls: set<Coord>, dist: map<Coord, nat>, closed: seq<Node>, upto: nat) {
    upto <= |closed| && forall j :: 0 <= j < upto ==> NeighborsDiscovered(walls, dist, closed[j].coord)
  }

  ghost predicate EndNotClosed(end: Coord, closed: seq<Node>) {
    forall i :: 0 <= i < |closed| ==> closed[i].coord != end
  }

  /** The invariant of the outer loop. */
  ghost predicate Inv(walls: set<Coord>, start: Coord, end: Coord, open: seq<Node>, closed: seq<Node>,
                      parents: ParentMap, dist: map<Coord, nat>, pushed: seq<Coord>, lastG: nat) {
    && Core(walls, start, open, closed, parents, dist, pushed, lastG)
    && Expanded(walls, dist, closed, |closed|)
    && EndNotClosed(end, closed)
  }

  /** The search state while `current`, the last closed node, has its neighbours handled. */
  ghost predicate Expanding(walls: set<Coord>, start: Coord, end: Coord, open: seq<Node>, closed: seq<Node>,
                            parents: ParentMap, dist: map<Coord, nat>, pushed: seq<Coord>, current: Node) {
    && Core(walls, start, open, closed, parents, dist, pushed, current.g)
    && |closed| > 0 && closed[|closed| - 1] == current
    && Expanded(walls, dist, closed, |closed| - 1)
    && EndNotClosed(end, closed)
  }

  /** The invariant of the loop over the neighbours `nbs` of `current`: the first `i` are discovered. */
  ghost predicate InnerInv(walls: set<Coord>, start: Coord, end: Coord, open: seq<Node>, closed: seq<Node>,
                           parents: ParentMap, dist: map<Coord, nat>, pushed: seq<Coord>,
                           current: Node, nbs: seq<Coord>, i: nat) {
    && Expanding(walls, start, end, open, closed, parents, dist, pushed, current)
    && i <= |nbs|
    && forall j :: 0 <= j < i ==> nbs[j] in dist && dist[nbs[j]] <= current.g + 1
  }

  /** The promises of `Search` about its result and its ghost outputs, as one predicate. */
  ghost predicate Outcome(walls: set<Coord>, start: Coord, end: Coord, r: SearchResult,
                          dist: map<Coord, nat>, popped: seq<Node>, pushed: seq<Coord>) {
    && SortedByCost(popped)
    && Tracked(start, pushed, dist)
    && DistinctCells(popped) && Costed(popped, dist)
    && |popped| <= |pushed| <= GridSize * GridSize
    && (r.NotFound? ==> Covered(dist, [], popped))
    && (r.Found? ==> |popped| > 0 && r.endNode == popped[|popped| - 1] && r.endNode.coord == end)
    && (r.Found? ==> forall i :: 0 <= i < |popped| - 1 ==> popped[i].coord != end)
    && (r.NotFound? ==> forall i :: 0 <= i < |popped| ==> popped[i].coord != end)
    && (r.Found? ==> ParentMapInv(walls, start, r.parents, dist))
    && (r.Found? ==> end in dist && dist[end] == r.endNode.g)
    && (r.Found? ==> forall w :: IsRoute(walls, start, end, w) ==> r.endNode.g <= |w| - 1)
    && (r.NotFound? ==> forall w :: !IsRoute(walls, start, end, w))
  }

  /**
   * The search, run from `start` until `end` is taken from the open list.
   * Ghost outputs: `dist` gives the `g` of every discovered cell,
   * `popped` is the closed list in the order cells were taken, and `pushed`
   * lists every cell ever put on the open list.
   */
  method Search(walls: set<Coord>, start: Coord, end: Coord)
    returns (r: SearchResult, ghost dist: map<Coord, nat>, ghost popped: seq<Node>, ghost pushed: seq<Coord>)
    requires InBounds(start)
    // each round takes the cheapest open node, so taken costs never decrease
    ensures SortedByCost(popped)
    // each cell is pushed at most once, so there are at most GridSize² rounds;
    // `pushed` lists the discovered cells, and each is popped at most once, at its cost
    ensures Tracked(start, pushed, dist)
    ensures DistinctCells(popped) && Costed(popped, dist)
    ensures |popped| <= |pushed| <= GridSize * GridSize
    // when the search gives up, every discovered cell has been popped
    ensures r.NotFound? ==> Covered(dist, [], popped)
    // the search stops exactly when the end cell is taken
    ensures r.Found? ==> |popped| > 0 && r.endNode == popped[|popped| - 1] && r.endNode.coord == end
    ensures r.Found? ==> forall i :: 0 <= i < |popped| - 1 ==> popped[i].coord != end
    ensures r.NotFound? ==> forall i :: 0 <= i < |popped| ==> popped[i].coord != end
    // the parent map: one parent per cell, one step closer to the start
    ensures r.Found? ==> ParentMapInv(walls, start, r.parents, dist)
    ensures r.Found? ==> end in dist && dist[end] == r.endNode.g
    // the cost found for the end is that of a shortest route
    ensures r.Found? ==> forall w :: IsRoute(walls, start, end, w) ==> r.endNode.g <= |w| - 1
    // the search gives up only when no route exists
    ensures r.NotFound? ==> forall w :: !IsRoute(walls, start, end, w)
  {
    var open: seq<Node> := [Node(start, 0)];
    var closed: seq<Node> := [];
    var parents: ParentMap := map[start := [None]];
    dist := map[start := 0];
    pushed := [start];
    ghost var lastG: nat := 0;
    InitialInv(walls, start, end);

    while |open| > 0
      invariant Inv(walls, start, end, open, closed, parents, dist, pushed, lastG)
      decreases GridSize * GridSize - |closed|
    {
      var k := FirstMinIndex(open);
      // the open list is always sorted by cost, so the sort moves nothing and the head is taken
      SortedHead(open, k);
      var current := open[k];
      ShortestAtPop(walls, start, end, dist, open, closed, k);
      PopKeepsCore(walls, start, open, closed, parents, dist, pushed, lastG, k);
      open := RemoveAt(open, k);

      if current.coord == end {
        FoundOutcome(walls, start, end, open, closed, parents, dist, pushed, current);
        r := Found(current, parents);
        popped := closed + [current];
        return;
      }
      BeginExpand(walls, start, end, open, closed, parents, dist, pushed, lastG, current);
      closed := closed + [current];

      open, parents, dist, pushed := ExpandNode(walls, start, end, open, closed, parents, dist, pushed, current);
      lastG := current.g;
    }
    r := NotFound;
    popped := closed;
    ExhaustedOutcome(walls, start, end, closed, parents, dist, pushed, lastG);
  }

  /** The `forEach` over the neighbours of the node just closed, in the order `getNeighbors` gives them. */
  method ExpandNode(walls: set<Coord>, start: Coord, end: Coord, open: seq<Node>, closed: seq<Node>,
                    parents: ParentMap, ghost dist: map<Coord, nat>, ghost pushed: seq<Coord>, current: Node)
    returns (open': seq<Node>, parents': ParentMap, ghost dist': map<Coord, nat>, ghost pushed': seq<Coord>)
    requires Expanding(walls, start, end, open, closed, parents, dist, pushed, current)
    ensures Inv(walls, start, end, open', closed, parents', dist', pushed', current.g)
    // the old entries stay in place, followed by the pushed neighbours in `getNeighbors` order,
    // and exactly those neighbours get `current` as their only parent
    ensures var added := Fresh(Neighbors(walls, current.coord), open, closed, current.g + 1);
      open' == open + AtCost(added, current.g + 1) && parents' == Adopt(parents, added, current)
  {
    var nbs := Neighbors(walls, current.coord);
    NeighborsDistinct(walls, current.coord);
    open', parents', dist', pushed' := open, parents, dist, pushed;
    var i := 0;
    while i < |nbs|
      invariant InnerInv(walls, start, end, open', closed, parents', dist', pushed', current, nbs, i)
      invariant open' == open + AtCost(Fresh(nbs[..i], open, closed, current.g + 1), current.g + 1)
      invariant parents' == Adopt(parents, Fresh(nbs[..i], open, closed, current.g + 1), current)
    {
      assert nbs[i] in nbs;
      ghost var openA, parentsA := open', parents';
      open', parents', dist', pushed' := VisitNeighbor(walls, start, end, open', closed, parents', dist', pushed', current, nbs, i);
      AddedStep(nbs, i, open, closed, parents, current, openA, parentsA, open', parents');
      i := i + 1;
    }
    assert nbs[..i] == nbs;
    FinishExpand(walls, start, end, open', closed, parents', dist', pushed', current, nbs);
  }

  /**
   * The callback of the `forEach` for the neighbour `nbs[i]` of `current`:
   * a neighbour that is closed, or open at a cost no larger than
   * `current.g + 1`, is skipped; any other gets `current` as its parent and
   * is pushed with that cost.
   */
  method VisitNeighbor(walls: set<Coord>, start: Coord, end: Coord, open: seq<Node>, closed: seq<Node>,
                       parents: ParentMap, ghost dist: map<Coord, nat>, ghost pushed: seq<Coord>,
                       current: Node, nbs: seq<Coord>, i: nat)
    returns (open': seq<Node>, parents': ParentMap, ghost dist': map<Coord, nat>, ghost pushed': seq<Coord>)
    requires InnerInv(walls, start, end, open, closed, parents, dist, pushed, current, nbs, i)
    requires i < |nbs| && CanMove(walls, current.coord, nbs[i])
    ensures InnerInv(walls, start, end, open', closed, parents', dist', pushed', current, nbs, i + 1)
    ensures Listed(closed, nbs[i]) || ListedAtMost(open, nbs[i], current.g + 1) ==>
      open' == open && parents' == parents
    ensures !Listed(closed, nbs[i]) && !ListedAtMost(open, nbs[i], current.g + 1) ==>
      open' == open + [Node(nbs[i], current.g + 1)] && parents' == parents[nbs[i] := [Some(current)]]
  {
    var nb := nbs[i];
    open', parents', dist', pushed' := open, parents, dist, pushed;
    if Listed(closed, nb) {
      SkipKeepsInner(walls, start, end, open, closed, parents, dist, pushed, current, nbs, i);
      return;
    }
    var g := current.g + 1;
    if !ListedAtMost(open, nb, g) {
      PushKeepsInner(walls, start, end, open, closed, parents, dist, pushed, current, nbs, i);
      if nb !in parents {
        parents' := parents[nb := [Some(current)]];
      } else {
        // the parent-list append of the source: a cell already in the map
        // is closed, or open at a cost <= g, so this is never reached
        assert false;
      }
      open' := open + [Node(nb, g)];
      dist' := dist[nb := g];
      pushed' := pushed + [nb];
    } else {
      SkipKeepsInner(walls, start, end, open, closed, parents, dist, pushed, current, nbs, i);
    }
  }

  /**
   * The neighbours among `nbs` that the callback pushes, in order: those
   * neither closed nor open at cost at most `g`.
   */
  function Fresh(nbs: seq<Coord>, open: seq<Node>, closed: seq<Node>, g: nat): (r: seq<Coord>)
    ensures forall c :: c in r <==> c in nbs && !Listed(closed, c) && !ListedAtMost(open, c, g)
  {
    if nbs == [] then []
    else
      var c := nbs[|nbs| - 1];
      var rest := Fresh(nbs[..|nbs| - 1], open, closed, g);
      assert forall x :: x in nbs <==> x in nbs[..|nbs| - 1] || x == c;
      if Listed(closed, c) || ListedAtMost(open, c, g) then rest else rest + [c]
  }

  /** The nodes for the cells `cs`, each at cost `g`. */
  function AtCost(cs: seq<Coord>, g: nat): (r: seq<Node>)
    ensures |r| == |cs|
    ensures forall j :: 0 <= j < |cs| ==> r[j] == Node(cs[j], g)
  {
    if cs == [] then [] else AtCost(cs[..|cs| - 1], g) + [Node(cs[|cs| - 1], g)]
  }

  /** `parents` with every cell of `cs` given `p` as its only parent. */
  function Adopt(parents: ParentMap, cs: seq<Coord>, p: Node): (r: ParentMap)
    ensures forall c :: c in r <==> c in parents || c in cs
    ensures forall c :: c in r ==> r[c] == if c in cs then [Some(p)] else parents[c]
  {
    if cs == [] then parents
    else
      assert forall x :: x in cs <==> x in cs[..|cs| - 1] || x == cs[|cs| - 1];
      Adopt(parents, cs[..|cs| - 1], p)[cs[|cs| - 1] := [Some(p)]]
  }

  lemma AtCostSnoc(cs: seq<Coord>, c: Coord, g: nat)
    ensures AtCost(cs + [c], g) == AtCost(cs, g) + [Node(c, g)]
  {
    assert (cs + [c])[..|cs|] == cs;
  }

  lemma AdoptSnoc(parents: ParentMap, cs: seq<Coord>, c: Coord, p: Node)
    ensures Adopt(parents, cs + [c], p) == Adopt(parents, cs, p)[c := [Some(p)]]
  {
    assert (cs + [c])[..|cs|] == cs;
  }

  /**
   * One more neighbour handled: the pushed list grows by `nbs[i]` exactly when
   * it fails both tests, and since the neighbours are distinct, the entries
   * pushed for the earlier ones do not change the open-list test for `nbs[i]`.
   */
  lemma FreshStep(nbs: seq<Coord>, i: nat, open: seq<Node>, closed: seq<Node>, g: nat)
    requires NoDup(nbs) && i < |nbs|
    ensures Fresh(nbs[..i + 1], open, closed, g) ==
      Fresh(nbs[..i], open, closed, g) + if Listed(closed, nbs[i]) || ListedAtMost(open, nbs[i], g) then [] else [nbs[i]]
    ensures ListedAtMost(open + AtCost(Fresh(nbs[..i], open, closed, g), g), nbs[i], g) <==> ListedAtMost(open, nbs[i], g)
  {
    assert nbs[..i + 1][..i] == nbs[..i];
    var before := Fresh(nbs[..i], open, closed, g);
    var open' := open + AtCost(before, g);
    // the entries pushed for earlier neighbours are for other cells
    forall j | |open| <= j < |open'| ensures open'[j].coord != nbs[i] {
      assert open'[j].coord == before[j - |open|];
      assert before[j - |open|] in before;
    }
    if ListedAtMost(open', nbs[i], g) {
      var j :| 0 <= j < |open'| && open'[j].coord == nbs[i] && g >= open'[j].g;
      assert open[j] == open'[j];
    }
    if ListedAtMost(open, nbs[i], g) {
      var j :| 0 <= j < |open| && open[j].coord == nbs[i] && g >= open[j].g;
      assert open'[j] == open[j];
    }
  }

  /** What one call of the callback adds, in terms of the neighbours handled so far. */
  lemma AddedStep(nbs: seq<Coord>, i: nat, open: seq<Node>, closed: seq<Node>, parents: ParentMap, current: Node,
                  openA: seq<Node>, parentsA: ParentMap, openB: seq<Node>, parentsB: ParentMap)
    requires NoDup(nbs) && i < |nbs|
    requires openA == open + AtCost(Fresh(nbs[..i], open, closed, current.g + 1), current.g + 1)
    requires parentsA == Adopt(parents, Fresh(nbs[..i], open, closed, current.g + 1), current)
    requires Listed(closed, nbs[i]) || ListedAtMost(openA, nbs[i], current.g + 1) ==>
      openB == openA && parentsB == parentsA
    requires !Listed(closed, nbs[i]) && !ListedAtMost(openA, nbs[i], current.g + 1) ==>
      openB == openA + [Node(nbs[i], current.g + 1)] && parentsB == parentsA[nbs[i] := [Some(current)]]
    ensures openB == open + AtCost(Fresh(nbs[..i + 1], open, closed, current.g + 1), current.g + 1)
    ensures parentsB == Adopt(parents, Fresh(nbs[..i + 1], open, closed, current.g + 1), current)
  {
    var g := current.g + 1;
    var before := Fresh(nbs[..i], open, closed, g);
    FreshStep(nbs, i, open, closed, g);
    if Listed(closed, nbs[i]) || ListedAtMost(open, nbs[i], g) {
      assert Fresh(nbs[..i + 1], open, closed, g) == before;
    } else {
      assert Fresh(nbs[..i + 1], open, closed, g) == before + [nbs[i]];
      AtCostSnoc(before, nbs[i], g);
      AdoptSnoc(parents, before, nbs[i], current);
      assert openB == open + (AtCost(before, g) + [Node(nbs[i], g)]);
    }
  }

  lemma InitialInv(walls: set<Coord>, start: Coord, end: Coord)
    requires InBounds(start)
    ensures Inv(walls, start, end, [Node(start, 0)], [], map[start := [None]], map[start := 0], [start], 0)
  {
    assert [Node(start, 0)][0].coord == start;
  }

  /** Taking the end cell from the open list: what `Search` promises on `Found`. */
  lemma FoundOutcome(walls: set<Coord>, start: Coord, end: Coord, open: seq<Node>, closed: seq<Node>,
                     parents: ParentMap, dist: map<Coord, nat>, pushed: seq<Coord>, current: Node)
    requires Core(walls, start, open, closed + [current], parents, dist, pushed, current.g)
    requires EndNotClosed(end, closed) && current.coord == end
    requires forall w :: IsRoute(walls, start, end, w) ==> current.g <= |w| - 1
    ensures Outcome(walls, start, end, Found(current, parents), dist, closed + [current], pushed)
  {
    assert (closed + [current])[|closed|] == current;
  }

  /** The open list ran dry: what `Search` promises on `NotFound`. */
  lemma ExhaustedOutcome(walls: set<Coord>, start: Coord, end: Coord, closed: seq<Node>,
                         parents: ParentMap, dist: map<Coord, nat>, pushed: seq<Coord>, lastG: nat)
    requires Inv(walls, start, end, [], closed, parents, dist, pushed, lastG)
    ensures Outcome(walls, start, end, NotFound, dist, closed, pushed)
  {
    NoRouteWhenExhausted(walls, start, end, closed, dist);
  }

  /** After a pop of a cell other than the end, the loop over its neighbours may start. */
  lemma BeginExpand(walls: set<Coord>, start: Coord, end: Coord, open: seq<Node>, closed: seq<Node>,
                    parents: ParentMap, dist: map<Coord, nat>, pushed: seq<Coord>, lastG: nat, current: Node)
    requires Core(walls, start, open, closed + [current], parents, dist, pushed, current.g)
    requires Expanded(walls, dist, closed, |closed|) && EndNotClosed(end, closed) && current.coord != end
    ensures Expanding(walls, start, end, open, closed + [current], parents, dist, pushed, current)
  {
    var closed' := closed + [current];
    forall j | 0 <= j < |closed| ensures NeighborsDiscovered(walls, dist, closed'[j].coord) {
      assert closed'[j] == closed[j];
    }
  }

  /** Once every neighbour of `current` is handled, it counts as expanded and the outer invariant holds again. */
  lemma FinishExpand(walls: set<Coord>, start: Coord, end: Coord, open: seq<Node>, closed: seq<Node>,
                     parents: ParentMap, dist: map<Coord, nat>, pushed: seq<Coord>, current: Node, nbs: seq<Coord>)
    requires nbs == Neighbors(walls, current.coord)
    requires InnerInv(walls, start, end, open, closed, parents, dist, pushed, current, nbs, |nbs|)
    ensures Inv(walls, start, end, open, closed, parents, dist, pushed, current.g)
  {
    assert closed[|closed| - 1] == current;
    assert current.coord in dist && dist[current.coord] == current.g;
    AllNeighborsSeen(walls, dist, current.coord, nbs);
    ExpandedLast(walls, dist, closed);
  }

  lemma AllNeighborsSeen(walls: set<Coord>, dist: map<Coord, nat>, c: Coord, nbs: seq<Coord>)
    requires nbs == Neighbors(walls, c) && c in dist
    requires forall j :: 0 <= j < |nbs| ==> nbs[j] in dist && dist[nbs[j]] <= dist[c] + 1
    ensures NeighborsDiscovered(walls, dist, c)
  {
    forall n | CanMove(walls, c, n) ensures n in dist && dist[n] <= dist[c] + 1 {
      var j :| 0 <= j < |nbs| && nbs[j] == n;
    }
  }

  lemma ExpandedLast(walls: set<Coord>, dist: map<Coord, nat>, closed: seq<Node>)
    requires |closed| > 0 && Expanded(walls, dist, closed, |closed| - 1)
    requires NeighborsDiscovered(walls, dist, closed[|closed| - 1].coord)
    ensures Expanded(walls, dist, closed, |closed|)
  {
  }

  /** Taking the cheapest open node and closing it keeps the invariant, with that node's cost as the new floor. */
  lemma PopKeepsCore(walls: set<Coord>, start: Coord, open: seq<Node>, closed: seq<Node>,
                     parents: ParentMap, dist: map<Coord, nat>, pushed: seq<Coord>, lastG: nat, k: nat)
    requires Core(walls, start, open, closed, parents, dist, pushed, lastG)
    requires k < |open| && forall j :: 0 <= j < |open| ==> open[k].g <= open[j].g
    ensures Core(walls, start, RemoveAt(open, k), closed + [open[k]], parents, dist, pushed, open[k].g)
  {
    PopCovered(dist, open, closed, k);
    PopDistinct(open, closed, k);
    PopLayered(open, closed, lastG, k);
    PopCosted(open, closed, dist, k);
  }

  lemma PopCosted(open: seq<Node>, closed: seq<Node>, dist: map<Coord, nat>, k: nat)
    requires Costed(open, dist) && Costed(closed, dist) && k < |open|
    ensures Costed(RemoveAt(open, k), dist) && Costed(closed + [open[k]], dist)
  {
    var open', closed' := RemoveAt(open, k), closed + [open[k]];
    forall i | 0 <= i < |open'| ensures open'[i].coord in dist && dist[open'[i].coord] == open'[i].g {
      assert open'[i] == open[if i < k then i else i + 1];
    }
    forall i | 0 <= i < |closed'| ensures closed'[i].coord in dist && dist[closed'[i].coord] == closed'[i].g {
      assert closed'[i] == if i < |closed| then closed[i] else open[k];
    }
  }

  lemma PopCovered(dist: map<Coord, nat>, open: seq<Node>, closed: seq<Node>, k: nat)
    requires Covered(dist, open, closed) && k < |open|
    ensures Covered(dist, RemoveAt(open, k), closed + [open[k]])
  {
    var open', closed' := RemoveAt(open, k), closed + [open[k]];
    forall c | c in dist ensures Listed(open', c) || Listed(closed', c) {
      if Listed(closed, c) {
        var j :| 0 <= j < |closed| && closed[j].coord == c;
        assert closed'[j] == closed[j];
      } else {
        var j :| 0 <= j < |open| && open[j].coord == c;
        if j < k {
          assert open'[j] == open[j];
        } else if j > k {
          assert open'[j - 1] == open[j];
        } else {
          assert closed'[|closed|] == open[k];
        }
      }
    }
  }

  lemma PopDistinct(open: seq<Node>, closed: seq<Node>, k: nat)
    requires DistinctCells(open) && DistinctCells(closed) && Apart(open, closed) && k < |open|
    ensures DistinctCells(RemoveAt(open, k)) && DistinctCells(closed + [open[k]])
    ensures Apart(RemoveAt(open, k), closed + [open[k]])
  {
    var open', closed' := RemoveAt(open, k), closed + [open[k]];
    forall i, j | 0 <= i < j < |open'| ensures open'[i].coord != open'[j].coord {
      var i0 := if i < k then i else i + 1;
      var j0 := if j < k then j else j + 1;
      assert open'[i] == open[i0] && open'[j] == open[j0];
    }
    forall i, j | 0 <= i < j < |closed'| ensures closed'[i].coord != closed'[j].coord {
      assert closed'[i] == closed[i];
      if j == |closed| {
        assert closed'[j] == open[k];
      } else {
        assert closed'[j] == closed[j];
      }
    }
    forall i, j | 0 <= i < |open'| && 0 <= j < |closed'| ensures open'[i].coord != closed'[j].coord {
      var i0 := if i < k then i else i + 1;
      assert open'[i] == open[i0];
      if j == |closed| {
        assert closed'[j] == open[k];
      } else {
        assert closed'[j] == closed[j];
      }
    }
  }

  lemma PopLayered(open: seq<Node>, closed: seq<Node>, lastG: nat, k: nat)
    requires Layered(open, closed, lastG)
    requires k < |open| && forall j :: 0 <= j < |open| ==> open[k].g <= open[j].g
    ensures Layered(RemoveAt(open, k), closed + [open[k]], open[k].g)
  {
    var open', closed' := RemoveAt(open, k), closed + [open[k]];
    forall i | 0 <= i < |open'| ensures open[k].g <= open'[i].g <= open[k].g + 1 {
      var i0 := if i < k then i else i + 1;
      assert open'[i] == open[i0];
    }
    forall i | 0 <= i < |closed'| ensures closed'[i].g <= open[k].g {
      if i < |closed| {
        assert closed'[i] == closed[i];
      }
    }
    forall i, j | 0 <= i < j < |closed'| ensures closed'[i].g <= closed'[j].g {
      assert closed'[i] == closed[i];
      if j < |closed| {
        assert closed'[j] == closed[j];
      }
    }
    forall i, j | 0 <= i < j < |open'| ensures open'[i].g <= open'[j].g {
      var i0 := if i < k then i else i + 1;
      var j0 := if j < k then j else j + 1;
      assert open'[i] == open[i0] && open'[j] == open[j0];
    }
  }

  /** Pushing at cost `lastG + 1`, the largest an open entry may have, keeps the lists layered. */
  lemma PushLayered(open: seq<Node>, closed: seq<Node>, lastG: nat, nb: Coord)
    requires Layered(open, closed, lastG)
    ensures Layered(open + [Node(nb, lastG + 1)], closed, lastG)
  {
    var open' := open + [Node(nb, lastG + 1)];
    forall i, j | 0 <= i < j < |open'| ensures open'[i].g <= open'[j].g {
      assert open'[i] == open[i];
    }
  }

  /** Pushing an undiscovered neighbour of `current` keeps the inner invariant and moves on by one neighbour. */
  lemma PushKeepsInner(walls: set<Coord>, start: Coord, end: Coord, open: seq<Node>, closed: seq<Node>,
                       parents: ParentMap, dist: map<Coord, nat>, pushed: seq<Coord>,
                       current: Node, nbs: seq<Coord>, i: nat)
    requires InnerInv(walls, start, end, open, closed, parents, dist, pushed, current, nbs, i)
    requires i < |nbs| && CanMove(walls, current.coord, nbs[i])
    requires !Listed(closed, nbs[i]) && !ListedAtMost(open, nbs[i], current.g + 1)
    ensures nbs[i] !in dist && nbs[i] !in parents
    ensures InnerInv(walls, start, end, open + [Node(nbs[i], current.g + 1)], closed,
                     parents[nbs[i] := [Some(current)]], dist[nbs[i] := current.g + 1], pushed + [nbs[i]],
                     current, nbs, i + 1)
  {
    var nb, g := nbs[i], current.g + 1;
    assert closed[|closed| - 1] == current;
    OpenWithinOneStep(open, nb, current.g);
    PushFresh(dist, open, closed, nb);
    PushLists(open, closed, nb, g);
    PushCosted(open, closed, dist, nb, g);
    PushCovered(dist, open, closed, nb, g);
    PushLayered(open, closed, current.g, nb);
    PushParents(walls, start, parents, dist, current, nb);
    PushTracked(start, pushed, dist, nb, g);
    PushExpanded(walls, dist, closed, |closed| - 1, nb, g);
  }

  /** A cell that is neither open nor closed has not been discovered yet. */
  lemma PushFresh(dist: map<Coord, nat>, open: seq<Node>, closed: seq<Node>, nb: Coord)
    requires Covered(dist, open, closed) && !Listed(open, nb) && !Listed(closed, nb)
    ensures nb !in dist
  {
  }

  lemma PushLists(open: seq<Node>, closed: seq<Node>, nb: Coord, g: nat)
    requires DistinctCells(open) && Apart(open, closed) && !Listed(open, nb) && !Listed(closed, nb)
    ensures DistinctCells(open + [Node(nb, g)]) && Apart(open + [Node(nb, g)], closed)
  {
    var open' := open + [Node(nb, g)];
    forall i, j | 0 <= i < j < |open'| ensures open'[i].coord != open'[j].coord {
      if j == |open| {
        assert open'[i] == open[i];
      }
    }
  }

  lemma PushCosted(open: seq<Node>, closed: seq<Node>, dist: map<Coord, nat>, nb: Coord, g: nat)
    requires Costed(open, dist) && Costed(closed, dist) && nb !in dist
    ensures Costed(open + [Node(nb, g)], dist[nb := g]) && Costed(closed, dist[nb := g])
  {
  }

  lemma PushCovered(dist: map<Coord, nat>, open: seq<Node>, closed: seq<Node>, nb: Coord, g: nat)
    requires Covered(dist, open, closed)
    ensures Covered(dist[nb := g], open + [Node(nb, g)], closed)
  {
    var open' := open + [Node(nb, g)];
    forall c | c in dist[nb := g] ensures Listed(open', c) || Listed(closed, c) {
      if c == nb {
        assert open'[|open|].coord == nb;
      } else if Listed(open, c) {
        var j :| 0 <= j < |open| && open[j].coord == c;
        assert open'[j] == open[j];
      }
    }
  }

  /** Recording `current` as the only parent of a new neighbour keeps the parent map's shape. */
  lemma PushParents(walls: set<Coord>, start: Coord, parents: ParentMap, dist: map<Coord, nat>,
                    current: Node, nb: Coord)
    requires ParentMapInv(walls, start, parents, dist) && nb !in dist
    requires current.coord in dist && dist[current.coord] == current.g
    requires CanMove(walls, current.coord, nb)
    ensures ParentMapInv(walls, start, parents[nb := [Some(current)]], dist[nb := current.g + 1])
  {
    var parents', dist' := parents[nb := [Some(current)]], dist[nb := current.g + 1];
    assert SingleParent(walls, parents', dist', nb);
    forall c | c in parents' && c != start ensures SingleParent(walls, parents', dist', c) {
      if c != nb {
        assert SingleParent(walls, parents, dist, c);
      }
    }
  }

  lemma PushTracked(start: Coord, pushed: seq<Coord>, dist: map<Coord, nat>, nb: Coord, g: nat)
    requires Tracked(start, pushed, dist) && nb !in dist && InBounds(nb)
    ensures Tracked(start, pushed + [nb], dist[nb := g])
    ensures |pushed + [nb]| <= GridSize * GridSize
  {
    var pushed' := pushed + [nb];
    assert NoDup(pushed') by {
      assert nb !in pushed;
    }
    BoardBound(pushed');
  }

  lemma PushExpanded(walls: set<Coord>, dist: map<Coord, nat>, closed: seq<Node>, upto: nat, nb: Coord, g: nat)
    requires Expanded(walls, dist, closed, upto) && nb !in dist
    ensures Expanded(walls, dist[nb := g], closed, upto)
  {
    forall j | 0 <= j < upto ensures NeighborsDiscovered(walls, dist[nb := g], closed[j].coord) {
      assert NeighborsDiscovered(walls, dist, closed[j].coord);
    }
  }

  /** Every open node costs at most `lastG + 1`, so an open cell passes the open-list test at that cost. */
  lemma OpenWithinOneStep(open: seq<Node>, c: Coord, lastG: nat)
    requires forall i :: 0 <= i < |open| ==> open[i].g <= lastG + 1
    ensures Listed(open, c) ==> ListedAtMost(open, c, lastG + 1)
  {
    if Listed(open, c) {
      var j :| 0 <= j < |open| && open[j].coord == c;
    }
  }

  /** Skipping a neighbour that is closed, or open at a cost no larger than the candidate, keeps the inner invariant. */
  lemma SkipKeepsInner(walls: set<Coord>, start: Coord, end: Coord, open: seq<Node>, closed: seq<Node>,
                       parents: ParentMap, dist: map<Coord, nat>, pushed: seq<Coord>,
                       current: Node, nbs: seq<Coord>, i: nat)
    requires InnerInv(walls, start, end, open, closed, parents, dist, pushed, current, nbs, i)
    requires i < |nbs| && (Listed(closed, nbs[i]) || ListedAtMost(open, nbs[i], current.g + 1))
    ensures InnerInv(walls, start, end, open, closed, parents, dist, pushed, current, nbs, i + 1)
  {
    if Listed(closed, nbs[i]) {
      var j :| 0 <= j < |closed| && closed[j].coord == nbs[i];
    } else {
      var j :| 0 <= j < |open| && open[j].coord == nbs[i] && current.g + 1 >= open[j].g;
    }
  }

  /** When the open list is empty, the closed cells are closed under `Neighbors`, so no route leaves them. */
  lemma NoRouteWhenExhausted(walls: set<Coord>, start: Coord, end: Coord, closed: seq<Node>, dist: map<Coord, nat>)
    requires Covered(dist, [], closed) && Costed(closed, dist) && start in dist
    requires Expanded(walls, dist, closed, |closed|) && EndNotClosed(end, closed)
    ensures forall w :: !IsRoute(walls, start, end, w)
  {
    forall w | IsRoute(walls, start, end, w) ensures false {
      var region := dist.Keys;
      forall c, n | c in region && CanMove(walls, c, n) ensures n in region {
        var j :| 0 <= j < |closed| && closed[j].coord == c;
        assert NeighborsDiscovered(walls, dist, closed[j].coord);
      }
      WalkStaysInside(walls, region, w, |w| - 1);
    }
  }

  /**
   * At the moment a node is taken from the open list, no route from the
   * start to a cell that is not closed yet is shorter than that node's cost;
   * in particular no route to the end is.
   */
  lemma ShortestAtPop(walls: set<Coord>, start: Coord, end: Coord, dist: map<Coord, nat>,
                      open: seq<Node>, closed: seq<Node>, k: nat)
    requires k < |open| && forall j :: 0 <= j < |open| ==> open[k].g <= open[j].g
    requires start in dist && dist[start] == 0
    requires Costed(open, dist) && Costed(closed, dist) && Covered(dist, open, closed)
    requires Expanded(walls, dist, closed, |closed|) && EndNotClosed(end, closed)
    ensures forall w :: IsRoute(walls, start, end, w) ==> open[k].g <= |w| - 1
  {
    forall w | IsRoute(walls, start, end, w) ensures open[k].g <= |w| - 1 {
      assert !Listed(closed, w[|w| - 1]);
      FirstOpenOnWalk(walls, dist, open, closed, k, w, 0);
    }
  }

  /** Along a walk from the start whose first `i` cells are closed, cell `i` is at most `i` away. */
  lemma {:induction false} ClosedPrefixDist(walls: set<Coord>, dist: map<Coord, nat>, closed: seq<Node>,
                                            w: seq<Coord>, i: nat)
    requires IsWalk(walls, w) && i < |w|
    requires w[0] in dist && dist[w[0]] == 0
    requires Costed(closed, dist) && Expanded(walls, dist, closed, |closed|)
    requires forall j :: 0 <= j < i ==> Listed(closed, w[j])
    ensures w[i] in dist && dist[w[i]] <= i
  {
    if i > 0 {
      ClosedPrefixDist(walls, dist, closed, w, i - 1);
      assert Listed(closed, w[i - 1]);
      var j :| 0 <= j < |closed| && closed[j].coord == w[i - 1];
      assert CanMove(walls, w[i - 1], w[i]);
      assert NeighborsDiscovered(walls, dist, closed[j].coord);
    }
  }

  /** The first cell of the walk that is not closed is open, and at most its index away. */
  lemma {:induction false} FirstOpenOnWalk(walls: set<Coord>, dist: map<Coord, nat>,
                                           open: seq<Node>, closed: seq<Node>, k: nat, w: seq<Coord>, i: nat)
    requires k < |open| && forall j :: 0 <= j < |open| ==> open[k].g <= open[j].g
    requires IsWalk(walls, w) && i < |w| && !Listed(closed, w[|w| - 1])
    requires w[0] in dist && dist[w[0]] == 0
    requires Costed(open, dist) && Costed(closed, dist) && Covered(dist, open, closed)
    requires Expanded(walls, dist, closed, |closed|)
    requires forall j :: 0 <= j < i ==> Listed(closed, w[j])
    ensures open[k].g <= |w| - 1
    decreases |w| - i
  {
    if Listed(closed, w[i]) {
      FirstOpenOnWalk(walls, dist, open, closed, k, w, i + 1);
    } else {
      ClosedPrefixDist(walls, dist, closed, w, i);
      var j :| 0 <= j < |open| && open[j].coord == w[i];
    }
  }
}
