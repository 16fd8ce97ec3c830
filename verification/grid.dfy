/**
 * The board of the path finder: a fixed square of cells addressed by
 * (row, col), some of which are walls, and the four-way neighbourhood the
 * search moves through.
 */
module Grid {

  /** Number of rows and of columns of the board. */
  const GridSize: nat := 20

  datatype Coord = Coord(row: int, col: int)

  /** A move on the board, as an entry of the direction table. */
  datatype Offset = Offset(dRow: int, dCol: int)

  predicate InBounds(c: Coord) {
    0 <= c.row < GridSize && 0 <= c.col < GridSize
  }

  /** A cell the search may enter: on the board and not a wall. */
  predicate IsOpen(walls: set<Coord>, c: Coord) {
    InBounds(c) && c !in walls
  }

  function Abs(x: int): nat {
    if x < 0 then -x else x
  }

  /** One step up, down, left or right. */
  predicate Adjacent(a: Coord, b: Coord) {
    Abs(a.row - b.row) + Abs(a.col - b.col) == 1
  }

  /** A move from `a` to `b` the search may make: one step, onto an open cell. */
  predicate CanMove(walls: set<Coord>, a: Coord, b: Coord) {
    Adjacent(a, b) && IsOpen(walls, b)
  }

  /** The direction table: up, down, left, right. */
  const Directions: seq<Offset> := [Offset(-1, 0), Offset(1, 0), Offset(0, -1), Offset(0, 1)]

  function Step(c: Coord, d: Offset): Coord {
    Coord(c.row + d.dRow, c.col + d.dCol)
  }

  /** The cells reached from `c` by each direction of `dirs`, in order. */
  function Steps(c: Coord, dirs: seq<Offset>): (r: seq<Coord>)
    ensures |r| == |dirs|
    ensures forall i :: 0 <= i < |dirs| ==> r[i] == Step(c, dirs[i])
  {
    if dirs == [] then [] else [Step(c, dirs[0])] + Steps(c, dirs[1..])
  }

  /** `a` is `b` with some elements left out, the rest kept in order. */
  predicate Subseq<T(==)>(a: seq<T>, b: seq<T>)
    decreases |b|
  {
    if a == [] then true
    else if b == [] then false
    else if a[0] == b[0] then Subseq(a[1..], b[1..])
    else Subseq(a, b[1..])
  }

  lemma {:induction false} SubseqMember<T>(a: seq<T>, b: seq<T>, x: T)
    requires Subseq(a, b) && x in a
    ensures x in b
    decreases |b|
  {
    if a[0] == b[0] {
      if x != a[0] {
        SubseqMember(a[1..], b[1..], x);
      }
    } else {
      SubseqMember(a, b[1..], x);
    }
  }

  /**
   * The walk over a direction table done by `getNeighbors`: each step that
   * stays on the board and does not land on a wall is kept, in table order.
   */
  function OpenSteps(walls: set<Coord>, c: Coord, dirs: seq<Offset>): (r: seq<Coord>)
    ensures |r| <= |dirs|
    ensures Subseq(r, Steps(c, dirs))
    ensures forall i :: 0 <= i < |r| ==> IsOpen(walls, r[i])
    ensures forall d :: d in dirs && IsOpen(walls, Step(c, d)) ==> Step(c, d) in r
  {
    if dirs == [] then []
    else
      var n := Step(c, dirs[0]);
      var rest := OpenSteps(walls, c, dirs[1..]);
      assert Steps(c, dirs) == [n] + Steps(c, dirs[1..]);
      if IsOpen(walls, n) then [n] + rest else rest
  }

  /** The direction table's targets from `c`: up, down, left, right. */
  lemma DirectionTargets(c: Coord)
    ensures |Steps(c, Directions)| == 4
    ensures Steps(c, Directions)[0] == Coord(c.row - 1, c.col)
    ensures Steps(c, Directions)[1] == Coord(c.row + 1, c.col)
    ensures Steps(c, Directions)[2] == Coord(c.row, c.col - 1)
    ensures Steps(c, Directions)[3] == Coord(c.row, c.col + 1)
  {
  }

  /** The cells one step from `c` are exactly the direction table's targets. */
  lemma AdjacentSteps(c: Coord, n: Coord)
    ensures Adjacent(c, n) <==> n in Steps(c, Directions)
  {
    DirectionTargets(c);
  }

  /**
   * `getNeighbors`: the open cells one step up, down, left and right of
   * `c`, in that order.
   */
  function Neighbors(walls: set<Coord>, c: Coord): (r: seq<Coord>)
    ensures |r| <= 4
    ensures forall n :: n in r <==> CanMove(walls, c, n)
    ensures Subseq(r, Steps(c, Directions))
  {
    var r := OpenSteps(walls, c, Directions);
    forall n | n in r ensures CanMove(walls, c, n) {
      SubseqMember(r, Steps(c, Directions), n);
      AdjacentSteps(c, n);
    }
    forall n | CanMove(walls, c, n) ensures n in r {
      AdjacentSteps(c, n);
      var i :| 0 <= i < |Directions| && Steps(c, Directions)[i] == n;
      assert Directions[i] in Directions;
    }
    r
  }

  /** A list kept in order from a list without repeats has no repeats. */
  lemma {:induction false} SubseqNoDup<T>(a: seq<T>, b: seq<T>)
    requires Subseq(a, b) && NoDup(b)
    ensures NoDup(a)
    decreases |b|
  {
    if a != [] {
      assert NoDup(b[1..]);
      if a[0] == b[0] {
        SubseqNoDup(a[1..], b[1..]);
        if a[0] in a[1..] {
          SubseqMember(a[1..], b[1..], a[0]);
        }
        forall i, j | 0 <= i < j < |a| ensures a[i] != a[j] {
          if i == 0 {
            assert a[j] in a[1..];
          } else {
            assert a[i] == a[1..][i - 1] && a[j] == a[1..][j - 1];
          }
        }
      } else {
        SubseqNoDup(a, b[1..]);
      }
    }
  }

  /** `getNeighbors` lists each cell at most once. */
  lemma NeighborsDistinct(walls: set<Coord>, c: Coord)
    ensures NoDup(Neighbors(walls, c))
  {
    DirectionTargets(c);
    SubseqNoDup(Neighbors(walls, c), Steps(c, Directions));
  }

  /** Each cell of `w` after the first is one allowed move from the one before. */
  predicate IsWalk(walls: set<Coord>, w: seq<Coord>) {
    forall i :: 0 <= i < |w| - 1 ==> CanMove(walls, w[i], w[i + 1])
  }

  /** A walk from `s` to `e` (a single cell when `s == e`). */
  predicate IsRoute(walls: set<Coord>, s: Coord, e: Coord, w: seq<Coord>) {
    |w| > 0 && w[0] == s && w[|w| - 1] == e && IsWalk(walls, w)
  }

  /** A walk that starts in a set closed under allowed moves never leaves it. */
  lemma {:induction false} WalkStaysInside(walls: set<Coord>, region: set<Coord>, w: seq<Coord>, i: nat)
    requires IsWalk(walls, w) && |w| > 0 && w[0] in region
    requires forall c, n :: c in region && CanMove(walls, c, n) ==> n in region
    requires i < |w|
    ensures w[i] in region
  {
    if i > 0 {
      WalkStaysInside(walls, region, w, i - 1);
      assert CanMove(walls, w[i - 1], w[i]);
    }
  }

  /** The cells of row `r` from column 0 up to `cols`. */
  function RowCells(r: int, cols: nat): set<Coord> {
    set c | 0 <= c < cols :: Coord(r, c)
  }

  /** The cells of the first `rows` rows of a board `cols` wide, added row by row. */
  function Rect(rows: nat, cols: nat): set<Coord> {
    if rows == 0 then {} else Rect(rows - 1, cols) + RowCells(rows - 1, cols)
  }

  lemma {:induction false} RowCellsSize(r: int, cols: nat)
    ensures |RowCells(r, cols)| == cols
  {
    if cols > 0 {
      RowCellsSize(r, cols - 1);
      assert RowCells(r, cols) == RowCells(r, cols - 1) + {Coord(r, cols - 1)};
    }
  }

  lemma {:induction false} RectMembers(rows: nat, cols: nat, x: Coord)
    ensures x in Rect(rows, cols) <==> 0 <= x.row < rows && 0 <= x.col < cols
  {
    if rows > 0 {
      RectMembers(rows - 1, cols, x);
      assert x.row == rows - 1 && 0 <= x.col < cols ==> x == Coord(rows - 1, x.col);
    }
  }

  lemma {:induction false} RectSize(rows: nat, cols: nat)
    ensures |Rect(rows, cols)| == rows * cols
  {
    if rows > 0 {
      var top, last := Rect(rows - 1, cols), RowCells(rows - 1, cols);
      RectSize(rows - 1, cols);
      RowCellsSize(rows - 1, cols);
      forall x | x in top ensures x !in last {
        RectMembers(rows - 1, cols, x);
      }
      assert top * last == {};
      assert rows * cols == (rows - 1) * cols + cols;
    }
  }

  predicate NoDup<T(==)>(s: seq<T>) {
    forall i, j :: 0 <= i < j < |s| ==> s[i] != s[j]
  }

  lemma {:induction false} DistinctCount<T>(s: seq<T>)
    requires NoDup(s)
    ensures |set x | x in s| == |s|
  {
    if s != [] {
      var t := s[..|s| - 1];
      DistinctCount(t);
      assert (set x | x in s) == (set x | x in t) + {s[|s| - 1]};
      assert s[|s| - 1] !in (set x | x in t);
    }
  }

  /** A list of distinct cells of the board has at most GridSize² entries. */
  lemma BoardBound(s: seq<Coord>)
    requires NoDup(s)
    requires forall i :: 0 <= i < |s| ==> InBounds(s[i])
    ensures |s| <= GridSize * GridSize
  {
    DistinctCount(s);
    RectSize(GridSize, GridSize);
    var cells := set x | x in s;
    forall x | x in cells ensures x in Rect(GridSize, GridSize) {
      RectMembers(GridSize, GridSize, x);
    }
    SubsetSize(cells, Rect(GridSize, GridSize));
  }

  lemma {:induction false} SubsetSize<T>(a: set<T>, b: set<T>)
    requires a <= b
    ensures |a| <= |b|
  {
    assert b == a + (b - a);
  }
}
