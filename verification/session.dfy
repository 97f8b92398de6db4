/** The game session: the board, the falling piece and the one shown next, the move
    requested from the keyboard, score, level, the timer's delay, and the game-over and
    running flags. Every event of the game (a timer tick, a key press) is a function
    from one session to the next. The random template draws an event may need are
    passed in as piece indices. */
module GameSession {
  import Geometry
  import opened Matrix
  import opened TetrisBoard
  import opened TetrisPiece

  const SCORE_PER_LEVEL: int := 5
  const INITIAL_DELAY: int := 300
  const MIN_DELAY: int := 30
  const DELAY_STEP: int := 30

  /** Where every piece appears: column 5, two rows above the board. */
  const START: Position := Geometry.Position(GRID_WIDTH / 2, -2)

  datatype Session = Session(
    board: Board,
    current: Piece,
    next: Piece,
    nextMove: Position,
    score: int,
    level: int,
    delay: int,
    gameOver: bool,
    running: bool)

  /** A piece as the game keeps it: a rectangle of four non-empty cells with piece tags,
      created at the start position, whose box lies within the columns and above the
      floor. */
  predicate PieceOk(p: Piece)
  {
    && Valid(p)
    && PieceTags(p.data)
    && NonZeroCount(p.data) == 4
    && p.start == START
    && BoxInBounds(TopLeft(p), p.data)
  }

  /** The board's part of the invariant: fixed dimensions, tags 0..8, row indices queued. */
  predicate BoardOk(b: Board)
  {
    WellShaped(b.grid) && TagsInRange(b.grid) && MatchesInRange(b.matches)
  }

  /** The scoring part of the invariant: the score is never negative, the level is 0
      before anything was scored and otherwise follows the score, and the delay stays
      between 30 and 300 ms. */
  predicate ScoreOk(score: int, level: int, delay: int)
  {
    && 0 <= score
    && ((level == 0 && score == 0) || level == 1 + score / SCORE_PER_LEVEL)
    && MIN_DELAY <= delay <= INITIAL_DELAY
  }

  /** What every reachable session satisfies. */
  predicate Inv(s: Session)
  {
    && BoardOk(s.board)
    && PieceOk(s.current)
    && PieceOk(s.next)
    && s.next.anchor == START
    && s.nextMove in {Geometry.DOWN, Geometry.LEFT, Geometry.RIGHT}
    && ScoreOk(s.score, s.level, s.delay)
  }

  /** Every template spawns with its box inside the columns, above the floor and still
      partly above row 0. */
  lemma SpawnInBounds(k: PieceIndex)
    ensures PieceOk(NewPiece(START, k))
    ensures TopLeft(NewPiece(START, k)).y < 0
  {
  }

  /** Once the top-left cell is on the board, every non-empty cell of the piece lies
      on the board, so locking it in writes only cells of the grid. */
  lemma LockWritesInsideBoard(s: Session)
    requires Inv(s) && TopLeft(s.current).y >= 0
    ensures BoxOnBoard(TopLeft(s.current), s.current.data)
    ensures forall i, j :: 0 <= i < |s.current.data| && 0 <= j < |s.current.data[0]| && s.current.data[i][j] != EMPTY ==>
              0 <= TopLeft(s.current).x + i < GRID_WIDTH && 0 <= TopLeft(s.current).y + j < GRID_HEIGHT
  {
    assert PieceOk(s.current);
  }

  /** The first session: an empty board, two fresh pieces at the start position, a
      downward move requested, score and level 0, the timer running every 300 ms. */
  function Init(k1: PieceIndex, k2: PieceIndex): (r: Session)
    ensures Inv(r)
    ensures r.current == NewPiece(START, k1) && r.next == NewPiece(START, k2)
    ensures forall x, y :: 0 <= x < GRID_WIDTH && 0 <= y < GRID_HEIGHT ==> r.board.grid[x][y] == EMPTY
    ensures r.board.matches == []
    ensures r.score == 0 && r.level == 0 && r.delay == INITIAL_DELAY
    ensures r.nextMove == Geometry.DOWN && !r.gameOver && r.running
  {
    SpawnInBounds(k1);
    SpawnInBounds(k2);
    Session(NewBoard(), NewPiece(START, k1), NewPiece(START, k2), Geometry.DOWN,
            0, 0, INITIAL_DELAY, false, true)
  }

  /** The timer delay for a level: 30 ms faster per level above 1, never below 30 ms. */
  function DelayForLevel(level: int): (d: int)
    ensures level >= 1 ==> MIN_DELAY <= d <= INITIAL_DELAY
    ensures d == MIN_DELAY <==> level >= 10
  {
    var d := INITIAL_DELAY - (level - 1) * DELAY_STEP;
    if d < MIN_DELAY then MIN_DELAY else d
  }

  /** Higher levels never make the timer slower. */
  lemma DelayNeverGrows(l1: int, l2: int)
    requires l1 <= l2
    ensures DelayForLevel(l2) <= DelayForLevel(l1)
  {
  }

  /** Locking the tags of a piece into the grid keeps every tag in 0..8. */
  lemma LockInKeepsTags(b: Board, tl: Position, data: Shape)
    requires WellShaped(b.grid) && Rect(data) && BoxOnBoard(tl, data)
    requires TagsInRange(b.grid) && PieceTags(data)
    ensures TagsInRange(LockIn(b, tl, data).grid)
  {
    var g := LockIn(b, tl, data).grid;
    forall x, y | 0 <= x < GRID_WIDTH && 0 <= y < GRID_HEIGHT
      ensures 0 <= g[x][y] <= MATCHED
    {
      assert g[x][y] == if Covers(tl, data, x, y) then ShapeCellAt(tl, data, x, y) else b.grid[x][y];
    }
  }

  /** The match check keeps tags in 0..8 and queues only row indices. */
  lemma MatchKeepsRanges(b: Board)
    requires WellShaped(b.grid) && TagsInRange(b.grid) && MatchesInRange(b.matches)
    ensures TagsInRange(CheckForMatches(b).0.grid)
    ensures MatchesInRange(CheckForMatches(b).0.matches)
  {
    var r := CheckForMatches(b).0;
    var n := |b.matches|;
    forall i | 0 <= i < |r.matches|
      ensures 0 <= r.matches[i] < GRID_HEIGHT
    {
      if i < n {
        assert r.matches[i] == r.matches[..n][i];
      } else {
        assert r.matches[i] == r.matches[n..][i - n];
        assert r.matches[i] in FullRows(b.grid);
      }
    }
  }

  /** The board half of a lock: the piece's cells are written to the board, then full
      rows are marked and queued. Returns the board and the number of rows matched,
      which is the number of full rows once the piece is in. */
  function Settle(b: Board, p: Piece): (r: (Board, nat))
    requires BoardOk(b) && PieceOk(p) && TopLeft(p).y >= 0
    ensures BoardOk(r.0)
    ensures var locked := LockIn(b, TopLeft(p), p.data);
            r.1 == |FullRows(locked.grid)| && r == CheckForMatches(locked)
  {
    var locked := LockIn(b, TopLeft(p), p.data);
    LockInKeepsTags(b, TopLeft(p), p.data);
    MatchKeepsRanges(locked);
    CheckForMatches(locked)
  }

  /** The scoring half of a lock: m matched rows add m * m to the score; a scoring lock
      sets the level from the score and the delay from the level. */
  function Award(score: int, level: int, delay: int, m: nat): (r: (int, int, int))
    requires ScoreOk(score, level, delay)
    ensures ScoreOk(r.0, r.1, r.2) && r.0 >= score
    ensures m == 0 ==> r == (score, level, delay)
    ensures m > 0 ==> r.0 == score + m * m && r.1 == 1 + r.0 / SCORE_PER_LEVEL && r.2 == DelayForLevel(r.1)
  {
    if m > 0 then
      var s := score + m * m;
      var l := 1 + s / SCORE_PER_LEVEL;
      (s, l, DelayForLevel(l))
    else (score, level, delay)
  }

  /** Locks the falling piece in. While its top-left cell is above the board the game
      is over and nothing else changes. Otherwise the board settles, the next piece
      falls, a fresh piece of template k becomes the next one, and the score, level and
      delay are awarded for the rows matched. */
  function Lock(s: Session, k: PieceIndex): (r: Session)
    requires Inv(s)
    ensures Inv(r)
    ensures r.score >= s.score && (s.gameOver ==> r.gameOver)
    ensures r.running == s.running && r.nextMove == s.nextMove
    ensures TopLeft(s.current).y < 0 ==> r == s.(gameOver := true)
    ensures TopLeft(s.current).y >= 0 ==>
              var (board, m) := Settle(s.board, s.current);
              && r.board == board
              && r.current == s.next && r.next == NewPiece(START, k)
              && r.gameOver == s.gameOver
              && (r.score, r.level, r.delay) == Award(s.score, s.level, s.delay, m)
  {
    if TopLeft(s.current).y < 0 then s.(gameOver := true)
    else
      var (board, m) := Settle(s.board, s.current);
      var (score, level, delay) := Award(s.score, s.level, s.delay, m);
      SpawnInBounds(k);
      s.(board := board, current := s.next, next := NewPiece(START, k),
         score := score, level := level, delay := delay)
  }

  /** The clear pass at the start of a tick: every queued row is removed. */
  function ClearStep(s: Session): (r: Session)
    requires Inv(s)
    ensures Inv(r) && r.board.matches == []
    ensures r == s.(board := ClearMatchedRows(s.board))
  {
    ClearAllKeepsTags(s.board.grid, s.board.matches);
    s.(board := ClearMatchedRows(s.board))
  }

  /** The falling piece lowered by n rows. */
  function Lowered(p: Piece, n: int): Piece
  {
    p.(anchor := Geometry.Position(p.anchor.x, p.anchor.y + n))
  }

  /** Lowering by one row and then by n rows is lowering by n + 1 rows. */
  lemma LoweredTwice(p: Piece, n: int)
    ensures Lowered(Lowered(p, 1), n) == Lowered(p, n + 1)
  {
  }

  /** The drop loop: moves the piece down while the downward move is valid, and ends
      where a further downward move is invalid, some whole number of rows lower. */
  function Drop(b: Board, p: Piece): (r: Piece)
    requires WellShaped(b.grid) && Valid(p)
    decreases GRID_HEIGHT - (TopLeft(p).y + Height(p))
    ensures Valid(r) && !IsMoveValid(b, Geometry.DOWN, r)
    ensures r.anchor.y >= p.anchor.y && r == Lowered(p, r.anchor.y - p.anchor.y)
    ensures BoxInBounds(TopLeft(p), p.data) ==> BoxInBounds(TopLeft(r), r.data)
  {
    if IsMoveValid(b, Geometry.DOWN, p) then
      var q := Move(p, Geometry.DOWN);
      assert q == Lowered(p, 1);
      assert TopLeft(q).y + Height(q) <= GRID_HEIGHT;
      var r := Drop(b, q);
      LoweredTwice(p, r.anchor.y - q.anchor.y);
      r
    else p
  }

  /** The drop passes only through positions from which the downward move was valid:
      the piece stops at the first row where moving down is invalid. */
  lemma {:induction false} DropStopsAtFirstBlockedRow(b: Board, p: Piece)
    requires WellShaped(b.grid) && Valid(p)
    decreases GRID_HEIGHT - (TopLeft(p).y + Height(p))
    ensures forall n :: 0 <= n < Drop(b, p).anchor.y - p.anchor.y ==> IsMoveValid(b, Geometry.DOWN, Lowered(p, n))
  {
    if IsMoveValid(b, Geometry.DOWN, p) {
      var q := Move(p, Geometry.DOWN);
      assert q == Lowered(p, 1);
      assert TopLeft(q).y + Height(q) <= GRID_HEIGHT;
      DropStopsAtFirstBlockedRow(b, q);
      var d := Drop(b, q).anchor.y - q.anchor.y;
      assert Drop(b, p) == Drop(b, q);
      forall n | 0 <= n < d + 1
        ensures IsMoveValid(b, Geometry.DOWN, Lowered(p, n))
      {
        if n == 0 {
          assert Lowered(p, 0) == p;
        } else {
          LoweredTwice(p, n - 1);
          assert IsMoveValid(b, Geometry.DOWN, Lowered(q, n - 1));
        }
      }
    }
  }

  /** The hard drop: the requested move becomes DOWN, the piece drops as far as it can
      and is locked in there. */
  function HardDrop(s: Session, k: PieceIndex): (r: Session)
    requires Inv(s)
    ensures Inv(r)
    ensures r.score >= s.score && (s.gameOver ==> r.gameOver)
    ensures r.running == s.running && r.nextMove == Geometry.DOWN
    ensures var dropped := Drop(s.board, s.current);
            !IsMoveValid(s.board, Geometry.DOWN, dropped) &&
            r == Lock(s.(nextMove := Geometry.DOWN, current := dropped), k)
  {
    var dropped := Drop(s.board, s.current);
    Lock(s.(nextMove := Geometry.DOWN, current := dropped), k)
  }

  /** One timer tick: remove the queued rows, then move the piece by the requested move
      when that is valid; otherwise lock it in, but only when the requested move was not
      sideways, so a blocked sideways move neither moves nor locks. The requested move is
      DOWN again afterwards. */
  function Tick(s: Session, k: PieceIndex): (r: Session)
    requires Inv(s)
    ensures Inv(r)
    ensures r.score >= s.score && (s.gameOver ==> r.gameOver)
    ensures r.running == s.running && r.nextMove == Geometry.DOWN
    ensures var c := ClearStep(s);
            if IsMoveValid(c.board, s.nextMove, s.current) then
              r == c.(current := Move(s.current, s.nextMove), nextMove := Geometry.DOWN)
            else if s.nextMove.x != 0 then
              r == c.(nextMove := Geometry.DOWN)
            else
              r == Lock(c, k).(nextMove := Geometry.DOWN)
  {
    var c := ClearStep(s);
    var s2 :=
      if IsMoveValid(c.board, s.nextMove, s.current) then c.(current := Move(s.current, s.nextMove))
      else if s.nextMove.x == 0 then Lock(c, k)
      else c;
    s2.(nextMove := Geometry.DOWN)
  }

  /** Stops a running timer or starts a stopped one; nothing else changes. */
  function TogglePause(s: Session): (r: Session)
    ensures r.running != s.running && r.(running := s.running) == s
  {
    s.(running := !s.running)
  }

  /** Starts over: score 0, level 1, a downward move requested, both pieces rerolled at
      their start position, an empty grid, not over and running. The timer delay and the
      queued rows are kept. */
  function Restart(s: Session, k1: PieceIndex, k2: PieceIndex): (r: Session)
    requires Inv(s)
    ensures Inv(r)
    ensures r.score == 0 && r.level == 1 && r.nextMove == Geometry.DOWN
    ensures r.current == NewPiece(START, k1) && r.next == NewPiece(START, k2)
    ensures forall x, y :: 0 <= x < GRID_WIDTH && 0 <= y < GRID_HEIGHT ==> r.board.grid[x][y] == EMPTY
    ensures r.board.matches == s.board.matches && r.delay == s.delay
    ensures !r.gameOver && r.running
  {
    SpawnInBounds(k1);
    SpawnInBounds(k2);
    s.(score := 0, level := 1, nextMove := Geometry.DOWN,
       current := TetrisPiece.Reset(s.current, k1), next := TetrisPiece.Reset(s.next, k2),
       board := TetrisBoard.Reset(s.board), gameOver := false, running := true)
  }

  datatype Key = ArrowLeft | ArrowRight | ArrowDown | Space | KeyZ | KeyX | KeyP | KeyR | Escape | Other

  /** The piece controls, honoured only while running and not over: the arrows set the
      requested move, Space drops hard, Z and X rotate. Any other key changes nothing. */
  function Control(s: Session, key: Key, k: PieceIndex): (r: Session)
    requires Inv(s)
    ensures Inv(r)
    ensures r.score >= s.score && (s.gameOver ==> r.gameOver) && r.running == s.running
    ensures !s.running || s.gameOver ==> r == s
    ensures s.running && !s.gameOver ==>
              (key == ArrowLeft ==> r == s.(nextMove := Geometry.LEFT)) &&
              (key == ArrowRight ==> r == s.(nextMove := Geometry.RIGHT)) &&
              (key == ArrowDown ==> r == s.(nextMove := Geometry.DOWN)) &&
              (key == Space ==> r == HardDrop(s, k)) &&
              (key == KeyZ ==> r == s.(current := RotateCounterClockwise(s.board, s.current))) &&
              (key == KeyX ==> r == s.(current := RotateClockwise(s.board, s.current))) &&
              (key in {KeyP, KeyR, Escape, Other} ==> r == s)
  {
    if !s.running || s.gameOver then s
    else
      match key
      case ArrowLeft => s.(nextMove := Geometry.LEFT)
      case ArrowRight => s.(nextMove := Geometry.RIGHT)
      case ArrowDown => s.(nextMove := Geometry.DOWN)
      case Space => HardDrop(s, k)
      case KeyZ =>
        CounterClockwiseKeepsCells(s.board, s.current);
        s.(current := RotateCounterClockwise(s.board, s.current))
      case KeyX =>
        ClockwiseKeepsCells(s.board, s.current);
        s.(current := RotateClockwise(s.board, s.current))
      case _ => s
  }

  /** A key press: the piece controls first (only while running and not over), then P
      toggles the pause and R restarts at any time. Escape, which quits the program,
      leaves the session as it is. k1 is the template drawn if a hard drop locks a piece,
      k1 and k2 the templates drawn on a restart. */
  function HandleKey(s: Session, key: Key, k1: PieceIndex, k2: PieceIndex): (r: Session)
    requires Inv(s)
    ensures Inv(r)
    ensures key == KeyP ==> r == TogglePause(s)
    ensures key == KeyR ==> r == Restart(s, k1, k2)
    ensures key != KeyP && key != KeyR ==> r == Control(s, key, k1)
    ensures key != KeyR ==> r.score >= s.score && (s.gameOver ==> r.gameOver)
    ensures (!s.running || s.gameOver) && key != KeyP && key != KeyR ==> r == s
  {
    var s1 := Control(s, key, k1);
    match key
    case KeyP => TogglePause(s1)
    case KeyR => Restart(s1, k1, k2)
    case _ => s1
  }

  /** The repeating timer fires only while it runs; a game that is over keeps ticking. */
  function TimerFires(s: Session, k: PieceIndex): (r: Session)
    requires Inv(s)
    ensures Inv(r)
    ensures !s.running ==> r == s
    ensures s.running ==> r == Tick(s, k)
  {
    if s.running then Tick(s, k) else s
  }
}
