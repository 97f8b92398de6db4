/** A falling piece: one of seven constant shape templates, an anchor position on the
    board, the template's rotation centre and the spawn position it was created with.
    The piece's bounding box starts at the top-left cell anchor - centre. The board is
    passed in wherever the piece must be validated against it. */
module TetrisPiece {
  import Geometry
  import opened Matrix
  import opened TetrisBoard

  type Position = Geometry.Position

  /** The seven shape templates, indexed [x][y] like the grid: PIECE_1 is a vertical bar. */
  const PIECE_1: Shape := [[1, 1, 1, 1]]
  const PIECE_2: Shape := [[2, 0], [2, 2], [0, 2]]
  const PIECE_3: Shape := [[0, 3], [3, 3], [3, 0]]
  const PIECE_4: Shape := [[4, 0], [4, 4], [4, 0]]
  const PIECE_5: Shape := [[5, 5], [5, 5]]
  const PIECE_6: Shape := [[6, 6, 6], [0, 0, 6]]
  const PIECE_7: Shape := [[0, 0, 7], [7, 7, 7]]

  const Templates: seq<Shape> := [PIECE_1, PIECE_2, PIECE_3, PIECE_4, PIECE_5, PIECE_6, PIECE_7]

  /** The rotation centre of each template, offset from the top-left cell. */
  const Centres: seq<Position> := [
    Geometry.Position(0, 1), Geometry.Position(1, 1), Geometry.Position(1, 1),
    Geometry.Position(1, 0), Geometry.Position(0, 0), Geometry.Position(0, 1),
    Geometry.Position(1, 1)]

  /** A template number; the random draw of the game becomes a parameter of this type. */
  type PieceIndex = k: int | 0 <= k < 7

  datatype Piece = Piece(data: Shape, anchor: Position, centre: Position, start: Position)

  /** The piece's shape is a non-empty rectangle. */
  predicate Valid(p: Piece)
  {
    Rect(p.data)
  }

  function Width(p: Piece): int
    requires Valid(p)
  {
    |p.data|
  }

  function Height(p: Piece): int
    requires Valid(p)
  {
    |p.data[0]|
  }

  /** Every non-empty cell of the shape carries tag t. */
  predicate Tagged(d: Shape, t: int)
    requires Rect(d)
  {
    forall i, j :: 0 <= i < |d| && 0 <= j < |d[0]| ==> d[i][j] == EMPTY || d[i][j] == t
  }

  /** Every cell of the shape is empty or carries a piece tag 1..7. */
  predicate PieceTags(d: Shape)
    requires Rect(d)
  {
    forall i, j :: 0 <= i < |d| && 0 <= j < |d[0]| ==> 0 <= d[i][j] <= 7
  }

  /** The cell bag of a shape of at most three columns, column by column. */
  lemma CellBagOfNarrow(d: Shape)
    requires 1 <= |d| <= 3
    ensures CellBag(d) == multiset(d[0]) + (if |d| > 1 then multiset(d[1]) else multiset{})
                          + (if |d| > 2 then multiset(d[2]) else multiset{})
  {
    assert CellBag(d[..1]) == multiset(d[0]) by {
      assert d[..1][..0] == [];
    }
    if |d| > 1 {
      assert d[..2][..1] == d[..1];
    }
    if |d| > 2 {
      assert d[..3] == d;
      assert d[..2][..1] == d[..1];
    }
  }

  /** Each template has exactly four non-empty cells, counted column by column. */
  lemma Piece1HasFourCells()
    ensures Rect(PIECE_1) && NonZeroCount(PIECE_1) == 4
  {
    CellBagOfNarrow(PIECE_1);
    assert multiset(PIECE_1[0]) == multiset{1, 1, 1, 1};
  }

  lemma Piece2HasFourCells()
    ensures Rect(PIECE_2) && NonZeroCount(PIECE_2) == 4
  {
    CellBagOfNarrow(PIECE_2);
    assert multiset(PIECE_2[0]) == multiset{2, 0};
    assert multiset(PIECE_2[1]) == multiset{2, 2};
    assert multiset(PIECE_2[2]) == multiset{0, 2};
  }

  lemma Piece3HasFourCells()
    ensures Rect(PIECE_3) && NonZeroCount(PIECE_3) == 4
  {
    CellBagOfNarrow(PIECE_3);
    assert multiset(PIECE_3[0]) == multiset{0, 3};
    assert multiset(PIECE_3[1]) == multiset{3, 3};
    assert multiset(PIECE_3[2]) == multiset{3, 0};
  }

  lemma Piece4HasFourCells()
    ensures Rect(PIECE_4) && NonZeroCount(PIECE_4) == 4
  {
    CellBagOfNarrow(PIECE_4);
    assert multiset(PIECE_4[0]) == multiset{4, 0};
    assert multiset(PIECE_4[1]) == multiset{4, 4};
    assert multiset(PIECE_4[2]) == multiset{4, 0};
  }

  lemma Piece5HasFourCells()
    ensures Rect(PIECE_5) && NonZeroCount(PIECE_5) == 4
  {
    CellBagOfNarrow(PIECE_5);
    assert multiset(PIECE_5[0]) == multiset{5, 5};
    assert multiset(PIECE_5[1]) == multiset{5, 5};
  }

  lemma Piece6HasFourCells()
    ensures Rect(PIECE_6) && NonZeroCount(PIECE_6) == 4
  {
    CellBagOfNarrow(PIECE_6);
    assert multiset(PIECE_6[0]) == multiset{6, 6, 6};
    assert multiset(PIECE_6[1]) == multiset{0, 0, 6};
  }

  lemma Piece7HasFourCells()
    ensures Rect(PIECE_7) && NonZeroCount(PIECE_7) == 4
  {
    CellBagOfNarrow(PIECE_7);
    assert multiset(PIECE_7[0]) == multiset{0, 0, 7};
    assert multiset(PIECE_7[1]) == multiset{7, 7, 7};
  }

  /** Template k is a rectangle with exactly four non-empty cells. */
  lemma TemplateHasFourCells(k: PieceIndex)
    ensures Rect(Templates[k]) && NonZeroCount(Templates[k]) == 4
  {
    match k {
      case 0 => Piece1HasFourCells();
      case 1 => Piece2HasFourCells();
      case 2 => Piece3HasFourCells();
      case 3 => Piece4HasFourCells();
      case 4 => Piece5HasFourCells();
      case 5 => Piece6HasFourCells();
      case 6 => Piece7HasFourCells();
    }
  }

  /** Every non-empty cell of template k is tagged k + 1. */
  lemma TemplateTags(k: PieceIndex)
    ensures Rect(Templates[k]) && Tagged(Templates[k], k + 1) && PieceTags(Templates[k])
  {
  }

  /** A fresh piece of template k at the start position: the anchor is a copy of the
      start, the shape is the template and the centre is the template's centre. */
  function NewPiece(start: Position, k: PieceIndex): (r: Piece)
    ensures Valid(r) && PieceTags(r.data) && NonZeroCount(r.data) == 4
    ensures r.anchor == start && r.start == start
    ensures r.data == Templates[k] && r.centre == Centres[k]
    ensures Width(r) == |Templates[k]| && Height(r) == |Templates[k][0]|
  {
    TemplateHasFourCells(k);
    TemplateTags(k);
    Piece(Templates[k], Geometry.Copy(start), Centres[k], Geometry.Copy(start))
  }

  /** Rerolls the piece: a new template at the piece's own start position. */
  function Reset(p: Piece, k: PieceIndex): (r: Piece)
    ensures Valid(r) && PieceTags(r.data) && NonZeroCount(r.data) == 4
    ensures r.start == p.start && r.anchor == p.start
    ensures r.data == Templates[k] && r.centre == Centres[k]
  {
    NewPiece(p.start, k)
  }

  /** The top-left board cell of the piece's bounding box. */
  function TopLeft(p: Piece): (r: Position)
    ensures Geometry.Move(r, p.centre) == p.anchor
  {
    Geometry.Position(p.anchor.x - p.centre.x, p.anchor.y - p.centre.y)
  }

  /** Moves the anchor by the vector; the top-left cell moves by the same vector and the
      shape, centre and start position stay as they are. */
  function Move(p: Piece, v: Position): (r: Piece)
    ensures TopLeft(r) == Geometry.Move(TopLeft(p), v)
    ensures r.data == p.data && r.centre == p.centre && r.start == p.start
  {
    p.(anchor := Geometry.Move(p.anchor, v))
  }

  /** The move test: the translation is valid exactly when the moved piece sits validly
      on the board; neither the piece nor the board changes. */
  function IsMoveValid(b: Board, t: Position, p: Piece): (r: bool)
    requires WellShaped(b.grid) && Valid(p)
    ensures r <==> IsValidOnBoard(b, TopLeft(Move(p, t)), p.data)
    ensures r ==> BoxInBounds(TopLeft(Move(p, t)), p.data)
  {
    var tl := Geometry.Move(TopLeft(p), t);
    IsValidOnBoard(b, tl, p.data)
  }

  /** The clockwise rotation. No change while the top-left cell is above the board;
      otherwise the clockwise candidate replaces the shape exactly when it is valid at
      the unchanged top-left cell, and width and height swap. */
  function RotateClockwise(b: Board, p: Piece): (r: Piece)
    requires WellShaped(b.grid) && Valid(p)
    ensures Valid(r) && TopLeft(r) == TopLeft(p)
    ensures TopLeft(p).y < 0 ==> r == p
    ensures TopLeft(p).y >= 0 && !IsValidOnBoard(b, TopLeft(p), Clockwise(p.data)) ==> r == p
    ensures TopLeft(p).y >= 0 && IsValidOnBoard(b, TopLeft(p), Clockwise(p.data)) ==>
              r == p.(data := Clockwise(p.data)) && Width(r) == Height(p) && Height(r) == Width(p)
  {
    if TopLeft(p).y < 0 then p
    else
      var candidate := Clockwise(p.data);
      ClockwiseCells(p.data);
      if !IsValidOnBoard(b, TopLeft(p), candidate) then p
      else p.(data := candidate)
  }

  /** The counter-clockwise rotation, with the same rules as the clockwise one. */
  function RotateCounterClockwise(b: Board, p: Piece): (r: Piece)
    requires WellShaped(b.grid) && Valid(p)
    ensures Valid(r) && TopLeft(r) == TopLeft(p)
    ensures TopLeft(p).y < 0 ==> r == p
    ensures TopLeft(p).y >= 0 && !IsValidOnBoard(b, TopLeft(p), CounterClockwise(p.data)) ==> r == p
    ensures TopLeft(p).y >= 0 && IsValidOnBoard(b, TopLeft(p), CounterClockwise(p.data)) ==>
              r == p.(data := CounterClockwise(p.data)) && Width(r) == Height(p) && Height(r) == Width(p)
  {
    if TopLeft(p).y < 0 then p
    else
      var candidate := CounterClockwise(p.data);
      CounterClockwiseCells(p.data);
      if !IsValidOnBoard(b, TopLeft(p), candidate) then p
      else p.(data := candidate)
  }

  /** Both rotation transforms keep piece tags piece tags (each candidate cell is a cell
      of the original). */
  lemma TransformsKeepPieceTags(d: Shape)
    requires Rect(d) && PieceTags(d)
    ensures Rect(Clockwise(d)) && PieceTags(Clockwise(d))
    ensures Rect(CounterClockwise(d)) && PieceTags(CounterClockwise(d))
  {
    ClockwiseCells(d);
    CounterClockwiseCells(d);
    var cw, ccw := Clockwise(d), CounterClockwise(d);
    forall i, j | 0 <= i < |cw| && 0 <= j < |cw[0]|
      ensures 0 <= cw[i][j] <= 7
    {
      assert cw[i][j] == d[j][|d[0]| - 1 - i];
    }
    forall i, j | 0 <= i < |ccw| && 0 <= j < |ccw[0]|
      ensures 0 <= ccw[i][j] <= 7
    {
      assert ccw[i][j] == d[|d| - 1 - j][i];
    }
  }

  /** A clockwise rotation keeps the cells of the piece: the same multiset of tags, the
      same number of non-empty cells, and piece tags only. */
  lemma ClockwiseKeepsCells(b: Board, p: Piece)
    requires WellShaped(b.grid) && Valid(p)
    ensures CellBag(RotateClockwise(b, p).data) == CellBag(p.data)
    ensures NonZeroCount(RotateClockwise(b, p).data) == NonZeroCount(p.data)
    ensures PieceTags(p.data) ==> PieceTags(RotateClockwise(b, p).data)
  {
    var r := RotateClockwise(b, p);
    if r.data != p.data {
      assert r.data == Clockwise(p.data);
      RotationsPreserveCells(p.data);
      if PieceTags(p.data) {
        TransformsKeepPieceTags(p.data);
      }
    }
  }

  /** The same for the counter-clockwise rotation. */
  lemma CounterClockwiseKeepsCells(b: Board, p: Piece)
    requires WellShaped(b.grid) && Valid(p)
    ensures CellBag(RotateCounterClockwise(b, p).data) == CellBag(p.data)
    ensures NonZeroCount(RotateCounterClockwise(b, p).data) == NonZeroCount(p.data)
    ensures PieceTags(p.data) ==> PieceTags(RotateCounterClockwise(b, p).data)
  {
    var r := RotateCounterClockwise(b, p);
    if r.data != p.data {
      assert r.data == CounterClockwise(p.data);
      RotationsPreserveCells(p.data);
      if PieceTags(p.data) {
        TransformsKeepPieceTags(p.data);
      }
    }
  }

  /** An accepted clockwise rotation of a validly placed piece is undone by the
      counter-clockwise rotation on the same board. */
  lemma ClockwiseThenBack(b: Board, p: Piece)
    requires WellShaped(b.grid) && Valid(p)
    requires IsValidOnBoard(b, TopLeft(p), p.data)
    ensures IsValidOnBoard(b, TopLeft(p), Clockwise(p.data)) ==>
              RotateCounterClockwise(b, RotateClockwise(b, p)) == p
  {
    if TopLeft(p).y >= 0 && IsValidOnBoard(b, TopLeft(p), Clockwise(p.data)) {
      var r := RotateClockwise(b, p);
      assert r == p.(data := Clockwise(p.data));
      CounterClockwiseUndoesClockwise(p.data);
      assert CounterClockwise(r.data) == p.data;
    }
  }

  /** An accepted counter-clockwise rotation of a validly placed piece is undone by the
      clockwise rotation on the same board. */
  lemma CounterClockwiseThenBack(b: Board, p: Piece)
    requires WellShaped(b.grid) && Valid(p)
    requires IsValidOnBoard(b, TopLeft(p), p.data)
    ensures IsValidOnBoard(b, TopLeft(p), CounterClockwise(p.data)) ==>
              RotateClockwise(b, RotateCounterClockwise(b, p)) == p
  {
    if TopLeft(p).y >= 0 && IsValidOnBoard(b, TopLeft(p), CounterClockwise(p.data)) {
      var r := RotateCounterClockwise(b, p);
      assert r == p.(data := CounterClockwise(p.data));
      ClockwiseUndoesCounterClockwise(p.data);
      assert Clockwise(r.data) == p.data;
    }
  }

  /** A rotation never moves a piece out of bounds: an accepted rotation passed the
      placement test, and a rejected one leaves the piece as it was. */
  lemma RotationKeepsBoxInBounds(b: Board, p: Piece)
    requires WellShaped(b.grid) && Valid(p) && BoxInBounds(TopLeft(p), p.data)
    ensures BoxInBounds(TopLeft(RotateClockwise(b, p)), RotateClockwise(b, p).data)
    ensures BoxInBounds(TopLeft(RotateCounterClockwise(b, p)), RotateCounterClockwise(b, p).data)
  {
  }
}
