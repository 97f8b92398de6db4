# Falling-block puzzle engine in Dafny

This project models the game logic of a small Java falling-block puzzle ("Tetris")
and proves properties of it. The Swing user interface is not modelled. The game
has four parts, and each is one Dafny module:

- `Geometry` (`geometry.dfy`): the `Position` record. It is an integer cell
  coordinate or translation vector with the four unit vectors. `y` grows downward.
- `Matrix` (`matrix.dfy`): piece shapes as column-major integer matrices, and the
  two rotation transforms. Clockwise is transpose then reverse the column order.
  Counter-clockwise is transpose then reverse every column. It also defines the
  multiset of a shape's cells.
- `TetrisBoard` (`board.dfy`): the board, a 10 x 15 grid of cell tags indexed
  `[x][y]`. Tag 0 is empty, 1..7 is a placed piece and 8 is a matched row. The
  board also holds the list of rows waiting to be cleared. Operations:
  - reset;
  - lock-in of a shape at a top-left cell;
  - the placement test;
  - the two-phase line clear. The match check marks full rows with 8 and queues
    their indices. The clear pass at the next tick removes the queued rows.
- `RowCompaction` (`compaction.dfy`): a declarative account of the clear pass. With
  k distinct rows queued in ascending order, every column becomes k empty cells
  followed by the cells of the unmatched rows, in their original order.
- `TetrisPiece` (`piece.dfy`): the seven constant shape templates and their rotation
  centres. A piece is a shape, an anchor, a centre and a start position. Its
  top-left cell is the anchor minus the centre. A piece can move, be tested
  against the board, and rotate. A rotation is silently rejected when its
  candidate shape does not fit.
- `GameSession` (`session.dfy`): the logic half of the game panel. A session holds:
  - the board;
  - the falling piece and the next piece;
  - the requested move;
  - score, level and the timer delay;
  - the game-over and running flags.

  Each event is a function from one session to the next: timer tick, lock,
  hard drop, key press, pause and restart. Every transition keeps the invariant
  `Inv`:
  - the grid keeps its dimensions and tags 0..8;
  - both pieces are rectangles of four cells with piece tags, inside the columns
    and above the floor;
  - the score is never negative and the level follows the score;
  - the delay stays between 30 and 300 ms.

Randomness becomes a parameter. Every event that may draw a new template takes
the template index (`PieceIndex`, 0..6) as an argument.

The match check only looks for empty cells, so a row still marked 8 counts as full
again. A hard drop locks a piece without running the pending clear first. After a
line clear, a second hard drop inside one timer period therefore queues the marked
rows a second time and scores them again (`TetrisBoard.MarkedRowMatchesAgain`).
That is why the compaction theorem assumes distinct, ascending queued rows.

## Model

| member | source | states |
|---|---|---|
| Geometry.Copy | Tetris/src/Position.java:52-55 | The copy has exactly the coordinates of the original. |
| Geometry.MoveIsComponentwise | Tetris/src/Position.java:62-65 | Moving adds the vector's x to x and its y to y. |
| Geometry.MoveComposes | Tetris/src/Position.java:62-65 | Moving by u and then by v is moving by u + v. |
| Geometry.MoveThenBack | Tetris/src/Position.java:62-65 | Moving by a vector and then by its opposite gives back the original position. |
| Geometry.UnitVectors | Tetris/src/Position.java:13-25 | DOWN and UP, and LEFT and RIGHT, are opposite. LEFT then RIGHT, or UP then DOWN, returns to the start. DOWN adds one to y and RIGHT adds one to x. |
| Matrix.ClockwiseCells | Tetris/src/TetrisPiece.java:154-167 | The clockwise candidate is a rectangle with width and height swapped. Its cell (i, j) is the original's cell (j, h-1-i). |
| Matrix.CounterClockwiseCells | Tetris/src/TetrisPiece.java:189-202 | The counter-clockwise candidate is a rectangle with width and height swapped. Its cell (i, j) is the original's cell (w-1-j, i). |
| Matrix.RotationsAreInverse | Tetris/src/TetrisPiece.java:154-202 | Counter-clockwise after clockwise gives back the original matrix, and so does clockwise after counter-clockwise. |
| Matrix.HalfTurn | Tetris/src/TetrisPiece.java:154-167 | Two clockwise transforms give cell (i, j) = original (w-1-i, h-1-j) with the original dimensions. |
| Matrix.FourClockwiseIsIdentity | Tetris/src/TetrisPiece.java:154-167 | Four clockwise transforms give back the original matrix. |
| Matrix.RotationsPreserveCells | Tetris/src/TetrisPiece.java:154-202 | Both transforms keep the multiset of cell tags, so they also keep the number of non-empty cells. |
| TetrisBoard.NewBoard | Tetris/src/TetrisBoard.java:49-53 | A new board is 10 x 15, every cell is empty, and no rows are queued. |
| TetrisBoard.Reset | Tetris/src/TetrisBoard.java:58-64 | Every cell of the 10 x 15 grid becomes empty. The queued rows are left as they are. |
| TetrisBoard.LockIn | Tetris/src/TetrisBoard.java:71-81 | Each cell under a non-empty shape cell gets that shape cell's tag. Every other cell and the queued rows are unchanged. |
| TetrisBoard.IsValidOnBoard | Tetris/src/TetrisBoard.java:157-174 | A valid box lies within the columns and above the floor. An in-bounds box above row 0 is valid without any overlap test. A box on the board is valid exactly when no non-empty shape cell lands on a non-empty grid cell. |
| TetrisBoard.ValidLockFillsOnlyEmptyCells | Tetris/src/TetrisBoard.java:71-81 | After a valid placement is locked in, every previously occupied cell keeps its tag. Every covered cell was empty before and is non-empty after. |
| TetrisBoard.LockedPlacementBecomesInvalid | Tetris/src/TetrisBoard.java:167-173 | Once a shape with a non-empty cell is locked in on the board, the same placement is rejected. |
| TetrisBoard.ResetBoardAcceptsEveryBoxInBounds | Tetris/src/TetrisBoard.java:157-174 | On a reset grid, a placement is valid exactly when its box is in bounds. |
| TetrisBoard.MarkFrom | Tetris/src/TetrisBoard.java:92-109 | From row y down, exactly the full rows are overwritten with 8. Their indices are returned, strictly ascending. |
| TetrisBoard.CheckForMatches | Tetris/src/TetrisBoard.java:90-111 | Exactly the full rows become 8 and all other cells are unchanged. The earlier queue is kept as a prefix. The appended part holds exactly the full rows, in ascending order. The returned count is the number of full rows. |
| TetrisBoard.MarkedRowMatchesAgain | Tetris/src/TetrisBoard.java:95-104 | A row whose cells are all 8 is queued again by the next match check, and counted. |
| TetrisBoard.ShiftDown | Tetris/src/TetrisBoard.java:119-124 | After the shift loop from row y, each row 1..y holds the row that was above it. Every other row is unchanged. |
| TetrisBoard.ClearAllKeepsTags | Tetris/src/TetrisBoard.java:117-131 | Clearing queued rows keeps every tag in 0..8. |
| TetrisBoard.ClearMatchedRows | Tetris/src/TetrisBoard.java:117-131 | The clear pass keeps the grid 10 x 15 and empties the queue. |
| RowCompaction.ClearRowRemovesRow | Tetris/src/TetrisBoard.java:118-128 | Clearing row r removes entry r from every column and puts one empty cell on top. |
| RowCompaction.ClearMatchedRowsCompacts | Tetris/src/TetrisBoard.java:117-131 | With k distinct, ascending queued rows, every column becomes k empty cells followed by the unmatched cells in their original order. The queue ends empty, and an empty queue leaves the grid unchanged. |
| RowCompaction.ClearKeepsEmptyGridEmpty | Tetris/src/TetrisBoard.java:117-131 | Clearing any queued rows of an empty grid leaves it empty. |
| TetrisPiece.TemplateHasFourCells | Tetris/src/TetrisPiece.java:17-41 | Every template is a rectangle with exactly four non-empty cells. |
| TetrisPiece.TemplateTags | Tetris/src/TetrisPiece.java:17-41 | Every non-empty cell of template k carries tag k + 1. |
| TetrisPiece.NewPiece | Tetris/src/TetrisPiece.java:100-105 | A new piece has template k's shape and centre. Its anchor and start are copies of the start position. Its width and height are the template's dimensions, with four cells tagged 1..7. |
| TetrisPiece.Reset | Tetris/src/TetrisPiece.java:216-218 | A reroll takes template k and moves the anchor back to the piece's own start position. |
| TetrisPiece.TopLeft | Tetris/src/TetrisPiece.java:225-227 | The top-left cell moved by the centre is the anchor. |
| TetrisPiece.Move | Tetris/src/TetrisPiece.java:139-141 | The top-left cell moves by the vector. Shape, centre and start are unchanged. |
| TetrisPiece.IsMoveValid | Tetris/src/TetrisBoard.java:141-145 | A move is valid exactly when the moved piece's placement is valid, and then its box is in bounds. |
| TetrisPiece.RotateClockwise | Tetris/src/TetrisPiece.java:150-176 | Nothing happens while the top-left row is negative or when the candidate is rejected. Otherwise the shape becomes the clockwise candidate, width and height swap, and the top-left cell stays. |
| TetrisPiece.RotateCounterClockwise | Tetris/src/TetrisPiece.java:185-211 | The same rules as the clockwise rotation, with the counter-clockwise candidate. |
| TetrisPiece.ClockwiseKeepsCells | Tetris/src/TetrisPiece.java:150-176 | A clockwise rotation keeps the multiset of cells, the count of non-empty cells and the piece tags. |
| TetrisPiece.CounterClockwiseKeepsCells | Tetris/src/TetrisPiece.java:185-211 | A counter-clockwise rotation keeps the multiset of cells, the count of non-empty cells and the piece tags. |
| TetrisPiece.ClockwiseThenBack | Tetris/src/TetrisPiece.java:150-211 | For a validly placed piece, an accepted clockwise rotation is undone by a counter-clockwise rotation on the same board. |
| TetrisPiece.CounterClockwiseThenBack | Tetris/src/TetrisPiece.java:150-211 | For a validly placed piece, an accepted counter-clockwise rotation is undone by a clockwise rotation on the same board. |
| TetrisPiece.RotationKeepsBoxInBounds | Tetris/src/TetrisPiece.java:169-170 | A piece whose box is in bounds stays in bounds after either rotation. |
| GameSession.SpawnInBounds | Tetris/src/TetrisPanel.java:73 | Every template spawned at (5, -2) is in bounds with four tagged cells, and its top-left row is negative. |
| GameSession.LockWritesInsideBoard | Tetris/src/TetrisPanel.java:186-191 | Once the top-left row is not negative, every non-empty cell of the falling piece lies on the grid. |
| GameSession.Init | Tetris/src/TetrisPanel.java:69-84 | The first session satisfies the invariant. It has an empty grid, no queue, two fresh pieces at the start, DOWN requested, score and level 0, delay 300, not over, and running. |
| GameSession.DelayForLevel | Tetris/src/TetrisPanel.java:201 | From level 1 on, the delay lies in 30..300. It reaches 30 exactly from level 10 on. |
| GameSession.DelayNeverGrows | Tetris/src/TetrisPanel.java:201 | A higher level never gives a longer delay. |
| GameSession.Settle | Tetris/src/TetrisPanel.java:191-195 | The board after a lock is the match check of the locked-in board. It keeps the board invariant, and the count is the number of full rows. |
| GameSession.Award | Tetris/src/TetrisPanel.java:196-202 | With no rows matched, score, level and delay are unchanged. With m rows, the score grows by m * m, the level becomes 1 + score / 5 and the delay follows the level. The score never decreases and the scoring invariant holds. |
| GameSession.Lock | Tetris/src/TetrisPanel.java:185-203 | A top-left row above the board sets game over and changes nothing else. Otherwise the board settles, the next piece falls, a fresh next piece spawns and the award applies. The invariant holds either way. |
| GameSession.ClearStep | Tetris/src/TetrisPanel.java:214 | The clear pass at the start of a tick empties the queue and keeps the invariant. |
| GameSession.Drop | Tetris/src/TetrisPanel.java:175-176 | The drop ends some whole number of rows lower, where a further DOWN move is invalid, and keeps the box in bounds. |
| GameSession.DropStopsAtFirstBlockedRow | Tetris/src/TetrisPanel.java:175-176 | Every row the drop passed through allowed a DOWN move, so it stops at the first blocked row. |
| GameSession.HardDrop | Tetris/src/TetrisPanel.java:173-178 | The hard drop requests DOWN, drops to a blocked row and locks there. It keeps the invariant and never lowers the score. |
| GameSession.Tick | Tetris/src/TetrisPanel.java:213-221 | The queued rows are cleared first. Then the piece moves if the requested move is valid. Otherwise it locks when the move was not sideways; a blocked sideways move does nothing. DOWN is requested afterwards. |
| GameSession.TogglePause | Tetris/src/TetrisPanel.java:145-151 | Only the running flag changes, and it flips. |
| GameSession.Restart | Tetris/src/TetrisPanel.java:156-168 | Score 0, level 1, DOWN requested, both pieces rerolled at the start, an empty grid, not over, running. The delay and the queued rows are kept. |
| GameSession.Control | Tetris/src/TetrisPanel.java:237-250 | The piece controls act only while running and not over. Arrows set the requested move, Space drops hard, Z rotates counter-clockwise and X rotates clockwise. |
| GameSession.HandleKey | Tetris/src/TetrisPanel.java:236-257 | A key press applies the controls. P toggles the pause and R restarts at any time. Every other key does nothing while paused or over. The invariant holds. |
| GameSession.TimerFires | Tetris/src/TetrisPanel.java:80-83 | The repeating timer ticks only while running, including after game over. |

## Left out

- Painting and pixel geometry are not modelled: the `paint` methods, the grid lines, the centred messages, colours and the cell and panel sizes. They produce only screen output.
- The game window, the status panel and the preview panel are not modelled, and neither are the score, level and next-piece notifications sent to them (`Game.java`, `StatusPanel.java`, `PreviewPanel.java`). They only display state.
- The Swing timer is replaced by a `running` flag, an integer `delay` and an explicit `Tick`. Wall-clock time is not modelled.
- The random template draw becomes a `PieceIndex` parameter of every event that may draw one.
- Key event decoding is replaced by the `Key` datatype.
- Escape quits the Java program. The model leaves the session unchanged on Escape, because there is no next state.
- The static list of template matrices, which is refilled by every piece constructor, is a constant table. Nothing ever modifies it.
- A piece's `pieceType` field is never assigned (the random draw stores it in a local of the same name), so it is not modelled.
- Width and height are not stored. They are read from the shape, which is what the Java keeps them equal to. The width and height arguments of the placement test are likewise taken from the shape, because every caller passes the shape's own dimensions.
- Positions are immutable values. The Java `move` changes its receiver in place and never its argument. Every caller moves a fresh copy or the piece's own anchor, so no aliasing effect is lost.
- GameSession.Award: the score is an unbounded integer. The Java `int` would wrap after 2^31 points, which is not modelled. The score is never negative, so Java's truncating division and Dafny's division agree.
- TetrisBoard.LockIn: requires the shape's whole box to lie on the board. The Java writes only the non-empty cells and would accept a box whose off-board part is empty. The game only locks in pieces whose box is in bounds with a top-left row that is not negative (`GameSession.LockWritesInsideBoard`).
- RowCompaction.ClearMatchedRowsCompacts: stated only for distinct, ascending queued rows. After a hard drop the queue can hold a row twice, and the clear pass then removes a row that was not matched as well. That case is modelled by `TetrisBoard.ClearMatchedRows` but has no declarative description.
- TetrisBoard.ClearMatchedRows: its own contract only states the dimensions and the empty queue. Its content is described by `RowCompaction.ClearMatchedRowsCompacts` and `TetrisBoard.ClearAllKeepsTags`.
