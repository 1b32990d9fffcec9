/**
 * Cell coordinates of the word-search grid and the straight-line paths the
 * grid highlights: a path steps one cell at a time from an anchor by the
 * sign of the row delta and the sign of the column delta.
 */
module Geometry {

  /** A (row, column) pair. The grid keys a cell by the string `row-col`,
      which is injective on integers, so a set of cells stands for the set
      of keys. */
  datatype Cell = Cell(row: int, col: int)

  function Abs(x: int): nat { if x < 0 then -x else x }

  function Max(a: nat, b: nat): nat { if a < b then b else a }

  /** The unit step towards `d`: 0, 1 or -1. */
  function Sign(d: int): int { if d == 0 then 0 else if d > 0 then 1 else -1 }

  /** Same row, same column, or an exact diagonal. */
  predicate Straight(a: Cell, b: Cell) {
    var dr, dc := b.row - a.row, b.col - a.col;
    dr == 0 || dc == 0 || Abs(dr) == Abs(dc)
  }

  /** The number of single steps from `a` to `b`: the larger of the two deltas. */
  function Steps(a: Cell, b: Cell): nat {
    Max(Abs(b.row - a.row), Abs(b.col - a.col))
  }

  /** The cell `i` steps from `a` in the direction of `b`. */
  function CellAt(a: Cell, b: Cell, i: int): Cell {
    Cell(a.row + i * Sign(b.row - a.row), a.col + i * Sign(b.col - a.col))
  }

  /** The stepped path from `a` towards `b`, in stepping order. */
  function Path(a: Cell, b: Cell): (p: seq<Cell>)
    ensures |p| == Steps(a, b) + 1 && p[0] == a
  {
    seq(Steps(a, b) + 1, i => CellAt(a, b, i))
  }

  /** The path as a set of cells, as the grid stores it. */
  function PathCells(a: Cell, b: Cell): set<Cell> {
    set x | x in Path(a, b)
  }

  predicate Between(lo: int, x: int, hi: int) {
    (lo <= x <= hi) || (hi <= x <= lo)
  }

  lemma Scale(i: int, d: int)
    ensures i * Sign(d) == if d > 0 then i else if d < 0 then -i else 0
  {
  }

  /** The last cell of the path is the target exactly when the pair is
      straight; for any other pair the stepping overshoots or undershoots
      in one coordinate. */
  lemma PathEndsAtTarget(a: Cell, b: Cell)
    ensures Path(a, b)[Steps(a, b)] == b <==> Straight(a, b)
  {
    var n := Steps(a, b);
    Scale(n, b.row - a.row);
    Scale(n, b.col - a.col);
  }

  /** For a straight pair, the path from `b` to `a` is the path from `a` to
      `b` read backwards. */
  lemma PathReversed(a: Cell, b: Cell)
    requires Straight(a, b)
    ensures |Path(b, a)| == |Path(a, b)|
    ensures forall i :: 0 <= i < |Path(a, b)| ==> Path(b, a)[i] == Path(a, b)[|Path(a, b)| - 1 - i]
  {
    var n := Steps(a, b);
    assert Steps(b, a) == n;
    forall i | 0 <= i <= n
      ensures CellAt(b, a, i) == CellAt(a, b, n - i)
    {
      Scale(i, a.row - b.row);
      Scale(i, a.col - b.col);
      Scale(n - i, b.row - a.row);
      Scale(n - i, b.col - a.col);
      Scale(n, b.row - a.row);
      Scale(n, b.col - a.col);
    }
  }

  /** As sets of cells, the path from `a` to `b` and the path from `b` to `a`
      are the same. */
  lemma PathCellsSymmetric(a: Cell, b: Cell)
    requires Straight(a, b)
    ensures PathCells(a, b) == PathCells(b, a)
  {
    PathReversed(a, b);
    var n := Steps(a, b);
    forall x | x in Path(a, b) ensures x in Path(b, a) {
      var i :| 0 <= i <= n && Path(a, b)[i] == x;
      assert Path(b, a)[n - i] == x;
    }
    forall x | x in Path(b, a) ensures x in Path(a, b) {
      var i :| 0 <= i <= n && Path(b, a)[i] == x;
      assert Path(a, b)[n - i] == x;
    }
  }

  /** An independent description of a straight path: a cell is on it exactly
      when it lies in the rectangle spanned by the endpoints and a shortest
      king's walk from `a` to `b` can pass through it. */
  lemma OnPath(a: Cell, b: Cell, x: Cell)
    requires Straight(a, b)
    ensures x in Path(a, b) <==>
      Between(a.row, x.row, b.row) && Between(a.col, x.col, b.col) &&
      Steps(a, x) + Steps(x, b) == Steps(a, b)
  {
    if x in Path(a, b) {
      var i :| 0 <= i < |Path(a, b)| && Path(a, b)[i] == x;
      OnPathStep(a, b, i);
    }
    if Between(a.row, x.row, b.row) && Between(a.col, x.col, b.col) &&
       Steps(a, x) + Steps(x, b) == Steps(a, b) {
      OnPathComplete(a, b, x);
    }
  }

  /** The i-th cell of a straight path lies within the bounding box, i
      steps from the start and the rest of the way from the target. */
  lemma OnPathStep(a: Cell, b: Cell, i: nat)
    requires Straight(a, b) && i <= Steps(a, b)
    ensures var x := CellAt(a, b, i);
      Between(a.row, x.row, b.row) && Between(a.col, x.col, b.col) &&
      Steps(a, x) == i && Steps(x, b) == Steps(a, b) - i
  {
    var n := Steps(a, b);
    PathEndsAtTarget(a, b);
    Scale(n, b.row - a.row);
    Scale(n, b.col - a.col);
    Scale(i, b.row - a.row);
    Scale(i, b.col - a.col);
  }

  /** A cell in the bounding box whose distances to both ends add up lies
      on the path. */
  lemma OnPathComplete(a: Cell, b: Cell, x: Cell)
    requires Straight(a, b)
    requires Between(a.row, x.row, b.row) && Between(a.col, x.col, b.col)
    requires Steps(a, x) + Steps(x, b) == Steps(a, b)
    ensures x in Path(a, b)
  {
    var n := Steps(a, b);
    PathEndsAtTarget(a, b);
    Scale(n, b.row - a.row);
    Scale(n, b.col - a.col);
    var i := Steps(a, x);
    Scale(i, b.row - a.row);
    Scale(i, b.col - a.col);
    assert CellAt(a, b, i) == x;
    assert Path(a, b)[i] == x;
  }

  /** No cell repeats along a path. */
  lemma PathDistinct(a: Cell, b: Cell)
    ensures forall i, j :: 0 <= i < j < |Path(a, b)| ==> Path(a, b)[i] != Path(a, b)[j]
  {
    forall i, j | 0 <= i < j < |Path(a, b)|
      ensures Path(a, b)[i] != Path(a, b)[j]
    {
      Scale(i, b.row - a.row);
      Scale(i, b.col - a.col);
      Scale(j, b.row - a.row);
      Scale(j, b.col - a.col);
    }
  }

  lemma {:induction false} DistinctCount<T>(s: seq<T>)
    requires forall i, j :: 0 <= i < j < |s| ==> s[i] != s[j]
    ensures |set x | x in s| == |s|
  {
    if s != [] {
      DistinctCount(s[1..]);
      assert (set x | x in s) == {s[0]} + (set x | x in s[1..]);
      assert s[0] !in (set x | x in s[1..]);
    }
  }

  /** The highlighted set holds exactly `Steps + 1` cells: the anchor, the
      target (for a straight pair) and every cell between. */
  lemma PathCellCount(a: Cell, b: Cell)
    ensures |PathCells(a, b)| == Steps(a, b) + 1
    ensures a in PathCells(a, b)
    ensures Straight(a, b) ==> b in PathCells(a, b)
  {
    PathDistinct(a, b);
    DistinctCount(Path(a, b));
    PathEndsAtTarget(a, b);
  }
}
