/** The board: a fixed 10 x 15 grid of cell tags plus the list of rows matched by the
    latest match check, waiting to be removed on the next tick.
    The grid is indexed [x][y] (column-major): g[x] is column x, and row y is the
    set of cells g[0][y] .. g[9][y]. Tags: 0 empty, 1..7 a placed piece, 8 matched. */
module TetrisBoard {
  import opened Geometry
  import opened Matrix

  const GRID_WIDTH: int := 10
  const GRID_HEIGHT: int := 15
  const EMPTY: int := 0
  const MATCHED: int := 8

  type Grid = seq<seq<int>>

  datatype Board = Board(grid: Grid, matches: seq<int>)

  /** The grid has its fixed dimensions. */
  predicate WellShaped(g: Grid)
  {
    |g| == GRID_WIDTH && forall x :: 0 <= x < |g| ==> |g[x]| == GRID_HEIGHT
  }

  /** Every cell holds one of the tags 0..8. */
  predicate TagsInRange(g: Grid)
    requires WellShaped(g)
  {
    forall x, y :: 0 <= x < GRID_WIDTH && 0 <= y < GRID_HEIGHT ==> 0 <= g[x][y] <= MATCHED
  }

  /** Every pending match is a row index of the grid. */
  predicate MatchesInRange(ms: seq<int>)
  {
    forall i :: 0 <= i < |ms| ==> 0 <= ms[i] < GRID_HEIGHT
  }

  predicate StrictlyAscending(s: seq<int>)
  {
    forall i, j :: 0 <= i < j < |s| ==> s[i] < s[j]
  }

  // ---------------------------------------------------------------------------
  // reset

  function EmptyGrid(): Grid
  {
    seq(GRID_WIDTH, x => seq(GRID_HEIGHT, y => EMPTY))
  }

  /** A new board: an empty grid and no pending matches. */
  function NewBoard(): (r: Board)
    ensures WellShaped(r.grid) && r.matches == []
    ensures forall x, y :: 0 <= x < GRID_WIDTH && 0 <= y < GRID_HEIGHT ==> r.grid[x][y] == EMPTY
  {
    Board(EmptyGrid(), [])
  }

  /** Fills the grid with empty cells; the pending matches are left as they are. */
  function Reset(b: Board): (r: Board)
    ensures WellShaped(r.grid)
    ensures forall x, y :: 0 <= x < GRID_WIDTH && 0 <= y < GRID_HEIGHT ==> r.grid[x][y] == EMPTY
    ensures r.matches == b.matches
  {
    b.(grid := EmptyGrid())
  }

  // ---------------------------------------------------------------------------
  // Placement of a shape at a top-left cell

  /** The shape's bounding box lies within the columns and does not reach below the
      last row; it may still stick out above row 0. */
  predicate BoxInBounds(tl: Position, data: Shape)
    requires Rect(data)
  {
    0 <= tl.x && tl.x + |data| <= GRID_WIDTH && tl.y + |data[0]| <= GRID_HEIGHT
  }

  /** The bounding box lies entirely on the board. */
  predicate BoxOnBoard(tl: Position, data: Shape)
    requires Rect(data)
  {
    BoxInBounds(tl, data) && 0 <= tl.y
  }

  /** The tag the shape placed at tl puts on board cell (x, y); EMPTY outside its box. */
  function ShapeCellAt(tl: Position, data: Shape, x: int, y: int): int
    requires Rect(data)
  {
    if tl.x <= x < tl.x + |data| && tl.y <= y < tl.y + |data[0]| then data[x - tl.x][y - tl.y] else EMPTY
  }

  /** Board cell (x, y) lies under a non-empty cell of the shape placed at tl. */
  predicate Covers(tl: Position, data: Shape, x: int, y: int)
    requires Rect(data)
  {
    ShapeCellAt(tl, data, x, y) != EMPTY
  }

  /** Some non-empty cell of the shape lands on a non-empty board cell. */
  predicate Collides(g: Grid, tl: Position, data: Shape)
    requires WellShaped(g) && Rect(data) && BoxOnBoard(tl, data)
  {
    exists i, j :: 0 <= i < |data| && 0 <= j < |data[0]| &&
      data[i][j] != EMPTY && g[tl.x + i][tl.y + j] != EMPTY
  }

  // ---------------------------------------------------------------------------
  // lockInPiece

  /** The inner loop of lock-in: writes the non-empty cells d[j..] into column col
      starting at row top + j. */
  function WriteColumn(col: seq<int>, top: int, d: seq<int>, j: nat): (r: seq<int>)
    requires 0 <= top && top + |d| <= |col| && j <= |d|
    decreases |d| - j
    ensures |r| == |col|
    ensures forall y :: 0 <= y < |col| ==>
              r[y] == if top + j <= y < top + |d| && d[y - top] != EMPTY then d[y - top] else col[y]
  {
    if j == |d| then col
    else WriteColumn(if d[j] != EMPTY then col[top + j := d[j]] else col, top, d, j + 1)
  }

  /** The tag the shape puts on a cell of its column i. */
  lemma ColumnCell(tl: Position, data: Shape, i: int, y: int)
    requires Rect(data) && 0 <= i < |data|
    ensures ShapeCellAt(tl, data, tl.x + i, y) ==
              if tl.y <= y < tl.y + |data[i]| then data[i][y - tl.y] else EMPTY
  {
  }

  /** Lock-in of shape column i: column tl.x + i receives the non-empty cells of data[i]. */
  function LockColumn(g: Grid, tl: Position, data: Shape, i: nat): (r: Grid)
    requires WellShaped(g) && Rect(data) && BoxOnBoard(tl, data) && i < |data|
    ensures WellShaped(r)
    ensures forall x, y {:trigger r[x][y]} :: 0 <= x < GRID_WIDTH && 0 <= y < GRID_HEIGHT ==>
              r[x][y] == if x == tl.x + i && Covers(tl, data, x, y) then ShapeCellAt(tl, data, x, y) else g[x][y]
  {
    var x := tl.x + i;
    var d := data[i];
    var col := WriteColumn(g[x], tl.y, d, 0);
    var r := g[x := col];
    forall x', y | 0 <= x' < GRID_WIDTH && 0 <= y < GRID_HEIGHT
      ensures r[x'][y] == if x' == x && Covers(tl, data, x', y) then ShapeCellAt(tl, data, x', y) else g[x'][y]
    {
      if x' == x {
        ColumnCell(tl, data, i, y);
        assert r[x'] == col;
        assert col[y] == if tl.y <= y < tl.y + |d| && d[y - tl.y] != EMPTY then d[y - tl.y] else g[x][y];
      } else {
        assert r[x'] == g[x'];
      }
    }
    r
  }

  /** The outer loop of lock-in: writes the shape's columns i.. into the grid. */
  function LockColumns(g: Grid, tl: Position, data: Shape, i: nat): (r: Grid)
    requires WellShaped(g) && Rect(data) && BoxOnBoard(tl, data) && i <= |data|
    decreases |data| - i
    ensures WellShaped(r)
    ensures forall x, y {:trigger r[x][y]} :: 0 <= x < GRID_WIDTH && 0 <= y < GRID_HEIGHT ==>
              r[x][y] == if tl.x + i <= x && Covers(tl, data, x, y) then ShapeCellAt(tl, data, x, y) else g[x][y]
  {
    if i == |data| then g
    else
      LockColumns(LockColumn(g, tl, data, i), tl, data, i + 1)
  }

  /** Writes every non-empty cell of the shape into the grid at its offset from tl.
      The caller must have placed the bounding box on the board. */
  function LockIn(b: Board, tl: Position, data: Shape): (r: Board)
    requires WellShaped(b.grid) && Rect(data) && BoxOnBoard(tl, data)
    ensures WellShaped(r.grid)
    ensures forall x, y {:trigger r.grid[x][y]} :: 0 <= x < GRID_WIDTH && 0 <= y < GRID_HEIGHT ==>
              r.grid[x][y] == if Covers(tl, data, x, y) then ShapeCellAt(tl, data, x, y) else b.grid[x][y]
    ensures r.matches == b.matches
  {
    b.(grid := LockColumns(b.grid, tl, data, 0))
  }

  // ---------------------------------------------------------------------------
  // isValidOnBoard

  /** The inner overlap loop over the cells d[j..] of one shape column. */
  function ColumnFree(col: seq<int>, top: int, d: seq<int>, j: nat): (r: bool)
    requires 0 <= top && top + |d| <= |col| && j <= |d|
    decreases |d| - j
    ensures r <==> forall k :: j <= k < |d| ==> d[k] == EMPTY || col[top + k] == EMPTY
  {
    j == |d| || ((d[j] == EMPTY || col[top + j] == EMPTY) && ColumnFree(col, top, d, j + 1))
  }

  /** The outer overlap loop over the shape columns i.. */
  function ColumnsFree(g: Grid, tl: Position, data: Shape, i: nat): (r: bool)
    requires WellShaped(g) && Rect(data) && BoxOnBoard(tl, data) && i <= |data|
    decreases |data| - i
    ensures r <==> forall a, c :: i <= a < |data| && 0 <= c < |data[0]| ==>
                     data[a][c] == EMPTY || g[tl.x + a][tl.y + c] == EMPTY
  {
    i == |data| || (ColumnFree(g[tl.x + i], tl.y, data[i], 0) && ColumnsFree(g, tl, data, i + 1))
  }

  /** The placement test. A box outside the columns or below the floor is invalid; a
      box that still sticks out above row 0 is valid without looking at the cells;
      otherwise the placement is valid exactly when nothing collides. The grid is
      never changed (the model is a pure function). */
  function IsValidOnBoard(b: Board, tl: Position, data: Shape): (r: bool)
    requires WellShaped(b.grid) && Rect(data)
    ensures r ==> BoxInBounds(tl, data)
    ensures BoxInBounds(tl, data) && tl.y < 0 ==> r
    ensures BoxOnBoard(tl, data) ==> (r <==> !Collides(b.grid, tl, data))
  {
    if tl.x < 0 || tl.x + |data| > GRID_WIDTH || tl.y + |data[0]| > GRID_HEIGHT then false
    else if tl.y < 0 then true
    else ColumnsFree(b.grid, tl, data, 0)
  }

  /** A valid on-board placement locks in onto empty cells only: every cell that was
      occupied keeps its tag, and exactly the covered cells change. */
  lemma ValidLockFillsOnlyEmptyCells(b: Board, tl: Position, data: Shape)
    requires WellShaped(b.grid) && Rect(data) && BoxOnBoard(tl, data)
    requires IsValidOnBoard(b, tl, data)
    ensures forall x, y :: 0 <= x < GRID_WIDTH && 0 <= y < GRID_HEIGHT && b.grid[x][y] != EMPTY ==>
              LockIn(b, tl, data).grid[x][y] == b.grid[x][y]
    ensures forall x, y :: 0 <= x < GRID_WIDTH && 0 <= y < GRID_HEIGHT && Covers(tl, data, x, y) ==>
              b.grid[x][y] == EMPTY && LockIn(b, tl, data).grid[x][y] != EMPTY
  {
    forall x, y | 0 <= x < GRID_WIDTH && 0 <= y < GRID_HEIGHT && Covers(tl, data, x, y)
      ensures b.grid[x][y] == EMPTY
    {
      var i, j := x - tl.x, y - tl.y;
      assert data[i][j] != EMPTY;
    }
  }

  /** Once a shape with a non-empty cell is locked in on the board, the same placement
      is no longer valid. */
  lemma LockedPlacementBecomesInvalid(b: Board, tl: Position, data: Shape, i: int, j: int)
    requires WellShaped(b.grid) && Rect(data) && BoxOnBoard(tl, data)
    requires 0 <= i < |data| && 0 <= j < |data[0]| && data[i][j] != EMPTY
    ensures !IsValidOnBoard(LockIn(b, tl, data), tl, data)
  {
    LockedCell(b, tl, data, i, j);
    assert Collides(LockIn(b, tl, data).grid, tl, data);
  }

  /** A non-empty shape cell is on the board after lock-in. */
  lemma LockedCell(b: Board, tl: Position, data: Shape, i: int, j: int)
    requires WellShaped(b.grid) && Rect(data) && BoxOnBoard(tl, data)
    requires 0 <= i < |data| && 0 <= j < |data[0]| && data[i][j] != EMPTY
    ensures LockIn(b, tl, data).grid[tl.x + i][tl.y + j] == data[i][j]
  {
    assert ShapeCellAt(tl, data, tl.x + i, tl.y + j) == data[i][j];
  }

  /** On a reset board every placement whose box is in bounds is valid. */
  lemma ResetBoardAcceptsEveryBoxInBounds(b: Board, tl: Position, data: Shape)
    requires Rect(data)
    ensures IsValidOnBoard(Reset(b), tl, data) <==> BoxInBounds(tl, data)
  {
  }

  // ---------------------------------------------------------------------------
  // checkForMatches

  /** Row y has no empty cell. */
  predicate RowFull(g: Grid, y: int)
    requires WellShaped(g) && 0 <= y < GRID_HEIGHT
  {
    forall x :: 0 <= x < GRID_WIDTH ==> g[x][y] != EMPTY
  }

  /** The indices of the full rows. */
  function FullRows(g: Grid): set<int>
    requires WellShaped(g)
  {
    set y | 0 <= y < GRID_HEIGHT && RowFull(g, y)
  }

  /** Overwrites every cell of row y with the matched tag. */
  function MarkRow(g: Grid, y: int): (r: Grid)
    requires WellShaped(g) && 0 <= y < GRID_HEIGHT
    ensures WellShaped(r)
    ensures forall x, z {:trigger r[x][z]} :: 0 <= x < GRID_WIDTH && 0 <= z < GRID_HEIGHT ==>
              r[x][z] == if z == y then MATCHED else g[x][z]
  {
    seq(GRID_WIDTH, x requires 0 <= x < GRID_WIDTH => g[x][y := MATCHED])
  }

  /** Marking row y does not change which other rows are full. */
  lemma MarkRowKeepsOtherRows(g: Grid, y: int)
    requires WellShaped(g) && 0 <= y < GRID_HEIGHT
    ensures forall z :: 0 <= z < GRID_HEIGHT && z != y ==> (RowFull(MarkRow(g, y), z) <==> RowFull(g, z))
  {
    var m := MarkRow(g, y);
    forall z | 0 <= z < GRID_HEIGHT && z != y
      ensures RowFull(m, z) <==> RowFull(g, z)
    {
      assert forall x :: 0 <= x < GRID_WIDTH ==> m[x][z] == g[x][z];
    }
  }

  /** The row loop of the match check from row y on: returns the marked grid and the
      indices of the rows it matched, in the order it found them. */
  function MarkFrom(g: Grid, y: nat): (r: (Grid, seq<int>))
    requires WellShaped(g) && y <= GRID_HEIGHT
    decreases GRID_HEIGHT - y
    ensures WellShaped(r.0)
    ensures forall x, z {:trigger r.0[x][z]} :: 0 <= x < GRID_WIDTH && 0 <= z < GRID_HEIGHT ==>
              r.0[x][z] == if y <= z && RowFull(g, z) then MATCHED else g[x][z]
    ensures forall z :: z in r.1 <==> y <= z < GRID_HEIGHT && RowFull(g, z)
    ensures StrictlyAscending(r.1)
  {
    if y == GRID_HEIGHT then (g, [])
    else if RowFull(g, y) then
      var g1 := MarkRow(g, y);
      MarkRowKeepsOtherRows(g, y);
      var rest := MarkFrom(g1, y + 1);
      var found := [y] + rest.1;
      forall z
        ensures z in found <==> y <= z < GRID_HEIGHT && RowFull(g, z)
      {
        assert z in found <==> z == y || z in rest.1;
      }
      forall i, j | 0 <= i < j < |found|
        ensures found[i] < found[j]
      {
        assert found[j] == rest.1[j - 1] && found[j] in rest.1;
        if i > 0 {
          assert found[i] == rest.1[i - 1];
        }
      }
      (rest.0, found)
    else
      MarkFrom(g, y + 1)
  }

  /** A strictly ascending sequence has as many distinct elements as entries. */
  lemma {:induction false} AscendingCardinality(s: seq<int>)
    requires StrictlyAscending(s)
    ensures |set z | z in s| == |s|
  {
    if |s| > 0 {
      var tail := s[1..];
      AscendingCardinality(tail);
      assert (set z | z in s) == {s[0]} + (set z | z in tail);
      assert s[0] !in (set z | z in tail);
    }
  }

  /** The match check: every full row (one with no empty cell; a row already marked
      with the matched tag counts as full) is overwritten with the matched tag and its
      index is appended to the pending matches, in ascending order, after the entries
      already pending. All other rows are unchanged. Returns the new board and the
      number of rows matched. */
  function CheckForMatches(b: Board): (r: (Board, nat))
    requires WellShaped(b.grid)
    ensures WellShaped(r.0.grid)
    ensures forall x, y {:trigger r.0.grid[x][y]} :: 0 <= x < GRID_WIDTH && 0 <= y < GRID_HEIGHT ==>
              r.0.grid[x][y] == if RowFull(b.grid, y) then MATCHED else b.grid[x][y]
    ensures |b.matches| <= |r.0.matches| && r.0.matches[..|b.matches|] == b.matches
    ensures forall z :: z in r.0.matches[|b.matches|..] <==> z in FullRows(b.grid)
    ensures StrictlyAscending(r.0.matches[|b.matches|..])
    ensures r.1 == |r.0.matches| - |b.matches| == |FullRows(b.grid)|
  {
    var m := MarkFrom(b.grid, 0);
    FoundAreFullRows(b.grid, m.1);
    var ms := b.matches + m.1;
    assert ms[..|b.matches|] == b.matches;
    assert ms[|b.matches|..] == m.1;
    (Board(m.0, ms), |m.1|)
  }

  lemma FoundAreFullRows(g: Grid, found: seq<int>)
    requires WellShaped(g) && StrictlyAscending(found)
    requires forall z :: z in found <==> 0 <= z < GRID_HEIGHT && RowFull(g, z)
    ensures |found| == |FullRows(g)|
  {
    AscendingCardinality(found);
    assert (set z | z in found) == FullRows(g);
  }

  /** A row still marked as matched is matched again by the next check, and is
      queued a second time. */
  lemma MarkedRowMatchesAgain(b: Board, y: int)
    requires WellShaped(b.grid) && 0 <= y < GRID_HEIGHT
    requires forall x :: 0 <= x < GRID_WIDTH ==> b.grid[x][y] == MATCHED
    ensures y in CheckForMatches(b).0.matches[|b.matches|..]
    ensures CheckForMatches(b).1 >= 1
  {
    assert RowFull(b.grid, y);
    assert y in FullRows(b.grid);
  }

  // ---------------------------------------------------------------------------
  // clearMatchedRows

  /** One step of the shift loop: row y takes a copy of row y - 1. */
  function CopyRowFromAbove(g: Grid, y: int): (r: Grid)
    requires WellShaped(g) && 0 < y < GRID_HEIGHT
    ensures WellShaped(r)
    ensures forall x, z {:trigger r[x][z]} :: 0 <= x < GRID_WIDTH && 0 <= z < GRID_HEIGHT ==>
              r[x][z] == if z == y then g[x][y - 1] else g[x][z]
  {
    seq(GRID_WIDTH, x requires 0 <= x < GRID_WIDTH => g[x][y := g[x][y - 1]])
  }

  /** The shift loop for y, y-1, ..., 1: every row from 1 to y takes the row that was
      above it, because the loop copies downward before the rows above are overwritten. */
  function ShiftDown(g: Grid, y: int): (r: Grid)
    requires WellShaped(g) && y < GRID_HEIGHT
    decreases y
    ensures WellShaped(r)
    ensures forall x, z {:trigger r[x][z]} :: 0 <= x < GRID_WIDTH && 0 <= z < GRID_HEIGHT ==>
              r[x][z] == if 1 <= z <= y then g[x][z - 1] else g[x][z]
  {
    if y <= 0 then g else ShiftDown(CopyRowFromAbove(g, y), y - 1)
  }

  /** Clears the top row. */
  function ZeroTopRow(g: Grid): (r: Grid)
    requires WellShaped(g)
    ensures WellShaped(r)
    ensures forall x, z {:trigger r[x][z]} :: 0 <= x < GRID_WIDTH && 0 <= z < GRID_HEIGHT ==>
              r[x][z] == if z == 0 then EMPTY else g[x][z]
  {
    seq(GRID_WIDTH, x requires 0 <= x < GRID_WIDTH => g[x][0 := EMPTY])
  }

  /** Removes one matched row: shift everything above it down one row, then empty row 0. */
  function ClearRow(g: Grid, y: int): (r: Grid)
    requires WellShaped(g) && 0 <= y < GRID_HEIGHT
    ensures WellShaped(r)
  {
    ZeroTopRow(ShiftDown(g, y))
  }

  /** Removes the pending rows one after the other, in the order they were recorded. */
  function ClearAll(g: Grid, ms: seq<int>): (r: Grid)
    requires WellShaped(g) && MatchesInRange(ms)
    decreases |ms|
    ensures WellShaped(r)
  {
    if |ms| == 0 then g else ClearAll(ClearRow(g, ms[0]), ms[1..])
  }

  /** Clearing rows only moves cells and empties cells, so tags stay in range. */
  lemma {:induction false} ClearAllKeepsTags(g: Grid, ms: seq<int>)
    requires WellShaped(g) && MatchesInRange(ms) && TagsInRange(g)
    ensures TagsInRange(ClearAll(g, ms))
    decreases |ms|
  {
    if |ms| > 0 {
      var s := ShiftDown(g, ms[0]);
      assert TagsInRange(s) by {
        forall x, z | 0 <= x < GRID_WIDTH && 0 <= z < GRID_HEIGHT
          ensures 0 <= s[x][z] <= MATCHED
        {
          assert s[x][z] == if 1 <= z <= ms[0] then g[x][z - 1] else g[x][z];
        }
      }
      var c := ClearRow(g, ms[0]);
      assert TagsInRange(c) by {
        forall x, z | 0 <= x < GRID_WIDTH && 0 <= z < GRID_HEIGHT
          ensures 0 <= c[x][z] <= MATCHED
        {
          assert c[x][z] == if z == 0 then EMPTY else s[x][z];
        }
      }
      ClearAllKeepsTags(c, ms[1..]);
    }
  }

  /** The clear pass run at the start of every tick: removes every pending row and
      empties the pending list. */
  function ClearMatchedRows(b: Board): (r: Board)
    requires WellShaped(b.grid) && MatchesInRange(b.matches)
    ensures WellShaped(r.grid) && r.matches == []
  {
    Board(ClearAll(b.grid, b.matches), [])
  }
}
