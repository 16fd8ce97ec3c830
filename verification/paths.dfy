/**
 * `reconstructPaths`: the walk back from the end cell through the parent
 * map. Parent lists are consumed with `pop` as the walk goes, each finished
 * walk is reversed into a path, and the length of the first path and the
 * number of paths are reported.
 */
module Paths {
  import opened Wrappers
  import opened Grid
  import opened Search

  /** What `list.pop()` returns: the last entry, or `undefined` for an empty list. */
  function LastOf(l: seq<Option<Node>>): Option<Node> {
    if l == [] then None else l[|l| - 1]
  }

  /** The list left behind by `list.pop()`. */
  function DropLast(l: seq<Option<Node>>): seq<Option<Node>> {
    if l == [] then [] else l[..|l| - 1]
  }

  function Reverse<T>(s: seq<T>): (r: seq<T>)
    ensures |r| == |s|
    ensures forall i :: 0 <= i < |s| ==> r[i] == s[|s| - 1 - i]
  {
    if s == [] then [] else [s[|s| - 1]] + Reverse(s[..|s| - 1])
  }

  lemma ReverseSnoc<T>(s: seq<T>, x: T)
    ensures Reverse(s + [x]) == [x] + Reverse(s)
  {
    assert (s + [x])[..|s|] == s;
  }

  /** A parent entry one step below cost `g`: `null` only at cost 0. */
  predicate StepsDown(e: Option<Node>, g: nat) {
    match e
    case None => g == 0
    case Some(q) => q.g + 1 == g
  }

  /** The cost of the cells whose parent list starts with `e`. */
  function CostAbove(e: Option<Node>): (g: nat)
    ensures StepsDown(e, g)
  {
    match e
    case None => 0
    case Some(q) => q.g + 1
  }

  /** `n`'s cell is in the map and every entry of its parent list is one step below `n`. */
  ghost predicate ParentOk(pm: ParentMap, n: Node) {
    n.coord in pm && forall j :: 0 <= j < |pm[n.coord]| ==> StepsDown(pm[n.coord][j], n.g)
  }

  /** Every parent recorded in the map satisfies `ParentOk`, so walking back always terminates. */
  ghost predicate Ranked(pm: ParentMap) {
    forall c, j :: c in pm && 0 <= j < |pm[c]| && pm[c][j].Some? ==> ParentOk(pm, pm[c][j].value)
  }

  /**
   * The cells met by following the last parent of each list back from `n`,
   * in order from the start side to `n`, without the cell whose last parent
   * is `null` (the start).
   */
  function Trace(pm: ParentMap, n: Node): seq<Coord>
    requires Ranked(pm) && ParentOk(pm, n)
    decreases n.g
  {
    match LastOf(pm[n.coord])
    case None => []
    case Some(p) => Trace(pm, p) + [n.coord]
  }

  /** Two nodes for one cell with a non-empty parent list have the same cost. */
  lemma SameCellSameCost(pm: ParentMap, a: Node, b: Node)
    requires ParentOk(pm, a) && ParentOk(pm, b) && a.coord == b.coord && |pm[a.coord]| > 0
    ensures a.g == b.g
  {
    assert StepsDown(pm[a.coord][0], a.g) && StepsDown(pm[a.coord][0], b.g);
  }

  /** Every list of `pm` is what is left of the matching list of `orig` after some pops. */
  ghost predicate PoppedFrom(orig: ParentMap, pm: ParentMap) {
    && pm.Keys == orig.Keys
    && forall c :: c in pm ==> |pm[c]| <= |orig[c]| && pm[c] == orig[c][..|pm[c]|]
  }

  /** Popping the list of `c` in a popped map gives a popped map and an entry of `orig`. */
  lemma PopStep(orig: ParentMap, pm: ParentMap, c: Coord)
    requires Ranked(orig) && PoppedFrom(orig, pm) && c in pm
    ensures PoppedFrom(orig, pm[c := DropLast(pm[c])])
    ensures LastOf(pm[c]).Some? ==> ParentOk(orig, LastOf(pm[c]).value)
    ensures forall n :: ParentOk(orig, n) && n.coord == c ==> StepsDown(LastOf(pm[c]), n.g) || pm[c] == []
  {
    if pm[c] != [] {
      assert pm[c][|pm[c]| - 1] == orig[c][|pm[c]| - 1];
    }
  }

  /**
   * While the first path is being built: the pops so far were all at cells
   * of cost at least `current.g`, and the trace of `cell` is the trace still
   * ahead followed by the reversed path built so far.
   */
  ghost predicate FirstRound(orig: ParentMap, pm: ParentMap, cell: Node, current: Node,
                             parent: Option<Node>, currentPath: seq<Coord>)
    requires Ranked(orig) && ParentOk(orig, cell)
  {
    && (forall c :: c in pm && c in orig && pm[c] != orig[c] ==> |orig[c]| > 0 && CostAbove(orig[c][0]) >= current.g)
    && match parent
       case None => Trace(orig, cell) == Reverse(currentPath)
       case Some(p) =>
         && ParentOk(orig, p) && p.g + 1 == current.g
         && Trace(orig, cell) == Trace(orig, p) + [current.coord] + Reverse(currentPath)
  }

  /**
   * One step back during the first round: the list of the parent's cell was
   * not popped yet, and the walk goes on from its last entry.
   */
  lemma FirstRoundStep(orig: ParentMap, pm: ParentMap, cell: Node, current: Node, p: Node,
                       currentPath: seq<Coord>)
    requires Ranked(orig) && ParentOk(orig, cell) && PoppedFrom(orig, pm)
    requires FirstRound(orig, pm, cell, current, Some(p), currentPath)
    ensures pm[p.coord] == orig[p.coord]
    ensures FirstRound(orig, pm[p.coord := DropLast(pm[p.coord])], cell, p,
                       LastOf(pm[p.coord]), currentPath + [current.coord])
  {
    var pm' := pm[p.coord := DropLast(pm[p.coord])];
    ReverseSnoc(currentPath, current.coord);
    assert pm[p.coord] == orig[p.coord] by {
      // a pop at `p`'s cell would have been at a cell of cost `p.g`, below `current.g`
      if orig[p.coord] != [] {
        assert StepsDown(orig[p.coord][0], p.g);
      }
    }
    forall c | c in pm' && c in orig && pm'[c] != orig[c]
      ensures |orig[c]| > 0 && CostAbove(orig[c][0]) >= p.g
    {
      if c == p.coord {
        assert StepsDown(orig[c][0], p.g);
      }
    }
    var cp := currentPath + [current.coord];
    assert Reverse(cp) == [current.coord] + Reverse(currentPath);
    match LastOf(orig[p.coord]) {
      case None =>
        assert Trace(orig, p) == [];
        assert Trace(orig, cell) == Reverse(cp);
      case Some(q) =>
        assert orig[p.coord][|orig[p.coord]| - 1] == Some(q);
        assert ParentOk(orig, q) && q.g + 1 == p.g;
        assert Trace(orig, p) == Trace(orig, q) + [p.coord];
        assert Trace(orig, cell) == Trace(orig, q) + [p.coord] + Reverse(cp);
    }
  }

  /**
   * `reconstructPaths(cell, parentMap)`: for each entry of the end cell's
   * parent list, popped from the back, walk back by popping the last parent
   * of each cell met, collecting the cells left behind, and record the
   * reversed walk as a path. `current` is not reset between rounds and the
   * cell whose parent is `null` is never collected, as in the source.
   */
  method ReconstructPaths(cell: Node, parentMap: ParentMap)
    returns (paths: seq<seq<Coord>>, stepCount: nat, totalPaths: nat)
    requires Ranked(parentMap) && ParentOk(parentMap, cell)
    requires |parentMap[cell.coord]| > 0  // `paths[0]` is read unguarded
    ensures |paths| == |parentMap[cell.coord]| && totalPaths == |paths|
    ensures paths[0] == Trace(parentMap, cell) && stepCount == |paths[0]|
  {
    var pm := parentMap;
    paths := [];
    var currentPath: seq<Coord> := [];
    var current := cell;
    var endKey := cell.coord;  // `parents` is the list stored under the end cell
    while |pm[endKey]| > 0
      invariant PoppedFrom(parentMap, pm) && currentPath == []
      invariant |paths| + |pm[endKey]| == |parentMap[endKey]|
      invariant |paths| > 0 ==> paths[0] == Trace(parentMap, cell)
      invariant |paths| == 0 ==> pm == parentMap && current == cell
      decreases |pm[endKey]|
    {
      PopStep(parentMap, pm, endKey);
      var parent := LastOf(pm[endKey]);
      pm := pm[endKey := DropLast(pm[endKey])];
      ghost var endList := pm[endKey];
      while parent.Some?
        invariant PoppedFrom(parentMap, pm) && pm[endKey] == endList
        invariant parent.Some? ==> ParentOk(parentMap, parent.value) && parent.value.g < cell.g
        invariant |paths| == 0 ==> FirstRound(parentMap, pm, cell, current, parent, currentPath)
        decreases if parent.Some? then parent.value.g + 1 else 0
      {
        var p := parent.value;
        if p.coord == endKey {
          SameCellSameCost(parentMap, p, cell);
        }
        if |paths| == 0 {
          FirstRoundStep(parentMap, pm, cell, current, p, currentPath);
        }
        currentPath := currentPath + [current.coord];
        current := p;
        PopStep(parentMap, pm, current.coord);
        parent := LastOf(pm[current.coord]);
        pm := pm[current.coord := DropLast(pm[current.coord])];
      }
      paths := paths + [Reverse(currentPath)];
      currentPath := [];
    }
    stepCount := |paths[0]|;
    totalPaths := |paths|;
  }

  /**
   * The parent map the search hands over is ranked, and every discovered
   * cell, taken at its cost, has a parent list of exactly one entry.
   */
  lemma SearchMapRanked(walls: set<Coord>, start: Coord, pm: ParentMap, dist: map<Coord, nat>)
    requires ParentMapInv(walls, start, pm, dist)
    ensures Ranked(pm)
    ensures forall c :: c in dist ==> ParentOk(pm, Node(c, dist[c])) && |pm[c]| == 1
  {
    forall c | c in dist ensures ParentOk(pm, Node(c, dist[c])) && |pm[c]| == 1 {
      if c != start {
        assert SingleParent(walls, pm, dist, c);
      }
    }
    forall c, j | c in pm && 0 <= j < |pm[c]| && pm[c][j].Some? ensures ParentOk(pm, pm[c][j].value) {
      assert c != start && SingleParent(walls, pm, dist, c);
      var q := pm[c][j].value;
      assert q == Node(q.coord, dist[q.coord]);
    }
  }

  /**
   * Walking back from a discovered cell through the search's parent map
   * gives a shortest-cost route from the start: `[start] + Trace` is a route
   * to the cell, its trace has as many cells as the cell's cost, and the
   * trace leaves the start out (so it is empty exactly for the start).
   */
  lemma {:induction false} TraceRoute(walls: set<Coord>, start: Coord, pm: ParentMap,
                                      dist: map<Coord, nat>, c: Coord)
    requires ParentMapInv(walls, start, pm, dist) && c in dist
    ensures Ranked(pm) && ParentOk(pm, Node(c, dist[c]))
    ensures |Trace(pm, Node(c, dist[c]))| == dist[c]
    ensures IsRoute(walls, start, c, [start] + Trace(pm, Node(c, dist[c])))
    ensures start !in Trace(pm, Node(c, dist[c]))
    ensures Trace(pm, Node(c, dist[c])) == [] <==> c == start
    decreases dist[c]
  {
    SearchMapRanked(walls, start, pm, dist);
    if c != start {
      assert SingleParent(walls, pm, dist, c);
      var p := pm[c][0].value;
      TraceRoute(walls, start, pm, dist, p.coord);
      assert p == Node(p.coord, dist[p.coord]);
      var t := Trace(pm, p);
      assert Trace(pm, Node(c, dist[c])) == t + [c];
      var w := [start] + t;
      var w2 := [start] + (t + [c]);
      assert w2 == w + [c];
      forall i | 0 <= i < |w2| - 1 ensures CanMove(walls, w2[i], w2[i + 1]) {
        if i < |w| - 1 {
          assert w2[i] == w[i] && w2[i + 1] == w[i + 1];
        }
      }
    }
  }
}
