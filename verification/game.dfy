/**
 The game state and the operations the player and the gravity timer apply
 to it: moving, rotating with a minimal wall kick, hard dropping, merging a
 landed piece (line clearing, scoring, spawning, game-over detection) and
 the pause/game-over flags.

 Random piece kinds are parameters (`kind < KINDS`); the timer is replaced
 by explicit gravity ticks.
 */
module Game {
  import opened Grid
  import opened Pieces
  import opened Rotation
  import opened Collision
  import opened Merge
  import opened Lines
  import opened Scoring

  datatype Option<T> = None | Some(value: T)

  datatype GameState = GameState(
    board: Board,
    current: Option<Piece>,
    next: Piece,
    score: int,
    lines: int,
    gameOver: bool,
    paused: bool)

  /** Moves, rotations and drops act only on a present piece while neither paused nor over. */
  predicate Active(g: GameState) {
    g.current.Some? && !g.paused && !g.gameOver
  }

  /**
   The invariant of every state the game reaches: a well-formed board with
   no complete row, well-formed current and next pieces, the next piece not
   above the board, and, while the game is not over, a current piece that
   fits where it stands with its box top on the board.
   */
  predicate Valid(g: GameState) {
    && WellFormed(g.board) && CellsInRange(g.board) && NoFullRow(g.board)
    && g.current.Some? && PieceOk(g.current.value)
    && PieceOk(g.next) && g.next.y >= 0
    && (!g.gameOver ==>
          !Collides(g.board, g.current.value.shape, g.current.value.x, g.current.value.y)
          && g.current.value.y >= 0)
    && g.score >= 0 && g.lines >= 0
  }

  /** A freshly spawned piece fits on an empty board. */
  lemma SpawnFitsEmptyBoard(kind: nat)
    requires kind < KINDS
    ensures var p := CreatePiece(kind); !Collides(InitBoard(), p.shape, p.x, p.y)
  {
    var p := CreatePiece(kind);
    var b := InitBoard();
    CollidesSpec(b, p.shape, p.x, p.y);
    forall y, x | 0 <= y < |p.shape| && 0 <= x < |p.shape[y]| && p.shape[y][x]
      ensures !Blocked(b, p.x + x, p.y + y)
    {
      assert |p.shape[y]| == |p.shape[0]|;
    }
  }

  /** A new game: empty board, zero totals, flags cleared, the first two pieces spawned. */
  function InitGame(first: nat, second: nat): (g: GameState)
    requires first < KINDS && second < KINDS
    ensures Valid(g) && Active(g)
    ensures g.score == 0 && g.lines == 0
    ensures g.current == Some(CreatePiece(first)) && g.next == CreatePiece(second)
    ensures Empty(g.board)
  {
    SpawnFitsEmptyBoard(first);
    GameState(InitBoard(), Some(CreatePiece(first)), CreatePiece(second), 0, 0, false, false)
  }

  /** A piece that fits has every occupied cell inside the columns and above the floor. */
  lemma FitsInBounds(b: Board, p: Piece)
    requires WellFormed(b) && !Collides(b, p.shape, p.x, p.y)
    ensures InBounds(p.shape, p.x, p.y)
  {
    CollidesSpec(b, p.shape, p.x, p.y);
    forall y, x | 0 <= y < |p.shape| && 0 <= x < |p.shape[y]| && p.shape[y][x]
      ensures 0 <= p.x + x < COLS && p.y + y < ROWS
    {
      assert !Blocked(b, p.x + x, p.y + y);
    }
  }

  /** The board right after the current piece is written into it, before line clearing. */
  function MergedBoard(g: GameState): (b: Board)
    requires Valid(g) && !g.gameOver
    ensures WellFormed(b) && CellsInRange(b)
    ensures CountFull(b) <= |g.current.value.shape| <= 4
    ensures forall i, j :: 0 <= i < ROWS && 0 <= j < COLS ==>
      b[i][j] == (if Covers(g.current.value.shape, g.current.value.x, g.current.value.y, i, j)
                  then g.current.value.color else g.board[i][j])
  {
    var p := g.current.value;
    FitsInBounds(g.board, p);
    var merged := MergeCells(g.board, p).0;
    forall r | 0 <= r < |merged| && Full(merged[r])
      ensures p.y <= r < p.y + |p.shape|
    {
      if !(p.y <= r < p.y + |p.shape|) {
        MergeTouchesOnlyPieceRows(g.board, p, r);
      }
    }
    FullRowsWithin(merged, p.y, p.y + |p.shape|);
    merged
  }

  /**
   Lands the current piece: writes it into the board, clears complete rows
   and scores them, promotes the next piece and spawns a new one of the
   given kind. The game is over when a written cell was above row 0 (which
   cannot happen here) or when the promoted piece does not fit.
   */
  function MergePiece(g: GameState, kind: nat): (res: GameState)
    requires Valid(g) && !g.gameOver && kind < KINDS
    ensures Valid(res)
    ensures res.current == Some(g.next) && res.next == CreatePiece(kind) && res.paused == g.paused
    ensures res.board == ClearLines(MergedBoard(g)).0
    ensures var n := CountFull(MergedBoard(g));
      n <= 4 && res.lines == g.lines + n && res.score == g.score + LineScore(n)
    ensures res.gameOver <==> Collides(res.board, g.next.shape, g.next.x, g.next.y)
  {
    var p := g.current.value;
    FitsInBounds(g.board, p);
    MergeOnBoardNeverAbove(g.board, p);
    var merged := MergeCells(g.board, p);
    assert merged.0 == MergedBoard(g);
    var cleared := ClearLines(merged.0);
    var totals := ApplyClear(g.score, g.lines, cleared.1);
    var over := merged.1 || Collides(cleared.0, g.next.shape, g.next.x, g.next.y);
    GameState(cleared.0, Some(g.next), CreatePiece(kind), totals.0, totals.1, over, g.paused)
  }

  /**
   Moves the current piece by (dx, dy). A move that fits is applied and
   reported as true; a blocked move down lands the piece; any other blocked
   move changes nothing. Nothing happens without an active piece.
   */
  function MovePiece(g: GameState, dx: int, dy: int, kind: nat): (res: (GameState, bool))
    requires Valid(g) && kind < KINDS
    ensures !Active(g) ==> res == (g, false)
    ensures res.1 <==> (Active(g) &&
      !Collides(g.board, g.current.value.shape, g.current.value.x + dx, g.current.value.y + dy))
    ensures res.1 ==> res.0 == g.(current := Some(g.current.value.(x := g.current.value.x + dx, y := g.current.value.y + dy)))
    ensures Active(g) && !res.1 && dy <= 0 ==> res.0 == g
    ensures Active(g) && !res.1 && dy > 0 ==> res.0 == MergePiece(g, kind)
    ensures dy >= 0 ==> Valid(res.0)
  {
    if !Active(g) then (g, false)
    else
      var p := g.current.value;
      if !Collides(g.board, p.shape, p.x + dx, p.y + dy) then
        (g.(current := Some(p.(x := p.x + dx, y := p.y + dy))), true)
      else if dy > 0 then
        (MergePiece(g, kind), false)
      else
        (g, false)
  }

  /** A sideways move that succeeds is undone by the opposite move, which always succeeds. */
  lemma MoveRoundTrip(g: GameState, dx: int, kind: nat)
    requires Valid(g) && kind < KINDS && MovePiece(g, dx, 0, kind).1
    ensures var back := MovePiece(MovePiece(g, dx, 0, kind).0, -dx, 0, kind);
      back.1 && back.0 == g
  {
    var p := g.current.value;
    var moved := MovePiece(g, dx, 0, kind).0;
    assert moved.current.value == p.(x := p.x + dx);
    assert moved.current.value.(x := p.x + dx - dx) == p;
  }

  /** Horizontal offsets tried, in order, when a rotated piece does not fit. */
  const KICKS: seq<int> := [0, -1, 1]

  /**
   The piece after a clockwise turn with the minimal wall kick: the turned
   shape is placed at the first offset of KICKS where it fits; if it fits at
   none, the piece stays as it was. The row and colour never change.
   */
  function Kick(b: Board, p: Piece): (q: Piece)
    requires WellFormed(b) && ShapeOk(p.shape)
    ensures q.y == p.y && q.color == p.color
    ensures q == p || (ShapeOk(q.shape) && !Collides(b, q.shape, q.x, q.y))
    ensures (forall k :: 0 <= k < |KICKS| ==> Collides(b, Rotate(p.shape), p.x + KICKS[k], p.y)) ==> q == p
    ensures forall k :: (0 <= k < |KICKS| && !Collides(b, Rotate(p.shape), p.x + KICKS[k], p.y) &&
      (forall e :: 0 <= e < k ==> Collides(b, Rotate(p.shape), p.x + KICKS[e], p.y))) ==>
      q == p.(shape := Rotate(p.shape), x := p.x + KICKS[k])
  {
    var turned := Rotate(p.shape);
    RotateKeepsShapeOk(p.shape);
    assert KICKS[0] == 0 && KICKS[1] == -1 && KICKS[2] == 1;
    if !Collides(b, turned, p.x, p.y) then
      p.(shape := turned)
    else if !Collides(b, turned, p.x - 1, p.y) then
      p.(x := p.x - 1, shape := turned)
    else if !Collides(b, turned, p.x + 1, p.y) then
      p.(x := p.x + 1, shape := turned)
    else
      p
  }

  /** Replacing the current piece of a running game by one that fits, on the board, keeps the state valid. */
  lemma ValidWithPiece(g: GameState, q: Piece)
    requires Valid(g) && !g.gameOver
    requires PieceOk(q) && !Collides(g.board, q.shape, q.x, q.y) && q.y >= 0
    ensures Valid(g.(current := Some(q)))
  {
  }

  /** Turns the current piece clockwise with the minimal wall kick; no effect without an active piece. */
  function RotatePiece(g: GameState): (res: GameState)
    requires Valid(g)
    ensures Valid(res)
    ensures !Active(g) ==> res == g
    ensures Active(g) ==> res == g.(current := Some(Kick(g.board, g.current.value)))
  {
    if !Active(g) then g
    else
      var q := Kick(g.board, g.current.value);
      if q == g.current.value then g
      else
        ValidWithPiece(g, q);
        g.(current := Some(q))
  }

  /** The piece fits when lowered by k rows. */
  predicate FitsAt(b: Board, p: Piece, k: int)
    requires WellFormed(b)
  {
    !Collides(b, p.shape, p.x, p.y + k)
  }

  /**
   Lowered by d rows the piece has landed: it fits at every depth from 0 to
   d and not one row further down.
   */
  predicate Lands(b: Board, p: Piece, d: int)
    requires WellFormed(b)
  {
    d >= 0 && (forall k :: 0 <= k <= d ==> FitsAt(b, p, k)) && !FitsAt(b, p, d + 1)
  }

  /** A piece has exactly one landing depth. */
  lemma LandingUnique(b: Board, p: Piece, d: int, e: int)
    requires WellFormed(b) && Lands(b, p, d) && e >= 0 && e != d
    ensures !Lands(b, p, e)
  {
    if e < d {
      assert FitsAt(b, p, e + 1);
    } else {
      assert !FitsAt(b, p, d + 1);
    }
  }

  function Lowered(g: GameState, d: int): GameState
    requires g.current.Some?
  {
    g.(current := Some(g.current.value.(y := g.current.value.y + d)))
  }

  /** The state after the current piece is lowered d rows to its landing depth and merged. */
  function LandAt(g: GameState, d: int, kind: nat): (res: GameState)
    requires Valid(g) && Active(g) && kind < KINDS && Lands(g.board, g.current.value, d)
    ensures Valid(res)
  {
    assert FitsAt(g.board, g.current.value, d);
    MergePiece(Lowered(g, d), kind)
  }

  /** A landing depth of the piece one row lower is one less than the piece's own. */
  lemma LandsStep(b: Board, p: Piece, d: int)
    requires WellFormed(b) && FitsAt(b, p, 0) && Lands(b, p.(y := p.y + 1), d)
    ensures Lands(b, p, d + 1)
  {
    var q := p.(y := p.y + 1);
    forall k | 0 <= k <= d + 1 ensures FitsAt(b, p, k) {
      if k > 0 {
        assert FitsAt(b, q, k - 1);
      }
    }
    assert !FitsAt(b, q, d + 1);
  }

  /**
   How many rows the piece can fall: it keeps moving down while the move
   fits. That depth is its landing depth, and its box top stays above the
   floor.
   */
  function FallDepth(b: Board, p: Piece): (d: nat)
    requires WellFormed(b) && Occupied(p.shape) && FitsAt(b, p, 0)
    ensures Lands(b, p, d) && p.y + d < ROWS
    decreases ROWS - p.y
  {
    FitsAboveFloor(b, p.shape, p.x, p.y);
    if !FitsAt(b, p, 1) then 0
    else
      var lower := p.(y := p.y + 1);
      FitsAboveFloor(b, p.shape, p.x, p.y + 1);
      assert FitsAt(b, lower, 0);
      var d := FallDepth(b, lower);
      LandsStep(b, p, d);
      d + 1
  }

  /**
   Drops the current piece straight down to its landing depth, at most
   ROWS - 1 rows below, and merges it there.
   */
  function HardDrop(g: GameState, kind: nat): (res: GameState)
    requires Valid(g) && kind < KINDS
    ensures Valid(res)
    ensures !Active(g) ==> res == g
    ensures Active(g) ==> exists d :: 0 <= d < ROWS && Lands(g.board, g.current.value, d) && res == LandAt(g, d, kind)
  {
    if !Active(g) then g
    else
      var d := FallDepth(g.board, g.current.value);
      LandAt(g, d, kind)
  }

  /** The hard drop ends where the piece lands. */
  lemma HardDropLandsAt(g: GameState, kind: nat, d: int)
    requires Valid(g) && Active(g) && kind < KINDS && Lands(g.board, g.current.value, d)
    ensures HardDrop(g, kind) == LandAt(g, d, kind)
  {
  }

  /**
   The hard drop is the loop that repeats the downward move until it
   fails: after a successful move the drop goes on from the lowered piece,
   and the first failing move (which merges the piece) is its result.
   */
  lemma HardDropRepeatsMoveDown(g: GameState, kind: nat)
    requires Valid(g) && Active(g) && kind < KINDS
    ensures var step := MovePiece(g, 0, 1, kind);
      && (step.1 ==> Valid(step.0) && Active(step.0) && HardDrop(g, kind) == HardDrop(step.0, kind))
      && (!step.1 ==> HardDrop(g, kind) == step.0)
  {
    var p := g.current.value;
    if FitsAt(g.board, p, 1) {
      HardDropAfterStep(g, kind);
    } else {
      assert Lands(g.board, p, 0);
      HardDropLandsAt(g, kind, 0);
      LoweredZero(g);
    }
  }

  /** When the piece can move one row down, the hard drop from the lowered piece ends in the same state. */
  lemma HardDropAfterStep(g: GameState, kind: nat)
    requires Valid(g) && Active(g) && kind < KINDS && FitsAt(g.board, g.current.value, 1)
    ensures Valid(Lowered(g, 1)) && HardDrop(g, kind) == HardDrop(Lowered(g, 1), kind)
  {
    var p := g.current.value;
    var b := g.board;
    var lower := p.(y := p.y + 1);
    var h := g.(current := Some(lower));
    assert h == Lowered(g, 1);
    ValidWithPiece(g, lower);
    var d := FallDepth(b, lower);
    LandsStep(b, p, d);
    HardDropLandsAt(g, kind, d + 1);
    assert Active(h) && h.board == b && h.current.value == lower;
    HardDropLandsAt(h, kind, d);
    LoweredTwice(g, 1, d);
  }

  /** Lowering by no rows changes nothing. */
  lemma LoweredZero(g: GameState)
    requires g.current.Some?
    ensures Lowered(g, 0) == g
  {
    assert g.current.value.(y := g.current.value.y) == g.current.value;
  }

  /** Lowering by a rows and then by e rows is lowering by a + e rows. */
  lemma LoweredTwice(g: GameState, a: int, e: int)
    requires g.current.Some?
    ensures Lowered(Lowered(g, a), e) == Lowered(g, a + e)
  {
    var p := g.current.value;
    assert p.(y := p.y + a).(y := p.y + a + e) == p.(y := p.y + (a + e));
  }

  /** Flips the pause flag, unless the game is over. */
  function TogglePause(g: GameState): (res: GameState)
    ensures Valid(g) ==> Valid(res)
    ensures g.gameOver ==> res == g
    ensures !g.gameOver ==> res.paused != g.paused && res.(paused := g.paused) == g
  {
    if g.gameOver then g else g.(paused := !g.paused)
  }

  lemma TogglePauseTwice(g: GameState)
    ensures TogglePause(TogglePause(g)) == g
  {
  }

  /** The keys the game listens to; every other key is ignored. */
  datatype Key = ArrowLeft | ArrowRight | ArrowDown | ArrowUp | Space | KeyP | OtherKey

  /**
   The keyboard handler: ignored once the game is over, otherwise one key,
   one command. While paused only the pause key has an effect.
   */
  function KeyDown(g: GameState, key: Key, kind: nat): (res: GameState)
    requires Valid(g) && kind < KINDS
    ensures Valid(res)
    ensures g.gameOver ==> res == g
    ensures g.paused && key != KeyP ==> res == g
  {
    if g.gameOver then g
    else
      match key
      case ArrowLeft => MovePiece(g, -1, 0, kind).0
      case ArrowRight => MovePiece(g, 1, 0, kind).0
      case ArrowDown => MovePiece(g, 0, 1, kind).0
      case ArrowUp => RotatePiece(g)
      case Space => HardDrop(g, kind)
      case KeyP => TogglePause(g)
      case OtherKey => g
  }

  /**
   One gravity tick is a downward move: the piece drops a row if it fits
   there and lands otherwise. The timer is stopped while the game is paused
   or over; a tick then would change nothing anyway.
   */
  function Tick(g: GameState, kind: nat): (res: GameState)
    requires Valid(g) && kind < KINDS
    ensures Valid(res)
    ensures !Active(g) ==> res == g
    ensures Active(g) && FitsAt(g.board, g.current.value, 1) ==> res == Lowered(g, 1)
    ensures Active(g) && !FitsAt(g.board, g.current.value, 1) ==> res == MergePiece(g, kind)
  {
    MovePiece(g, 0, 1, kind).0
  }

  /** The start button restarts a game that is over or paused, and does nothing otherwise. */
  function StartButton(g: GameState, first: nat, second: nat): (res: GameState)
    requires first < KINDS && second < KINDS
    ensures !g.gameOver && !g.paused ==> res == g
    ensures g.gameOver || g.paused ==> Valid(res) && Active(res) && res.score == 0 && res.lines == 0
    ensures g.gameOver || g.paused ==>
      && res.current == Some(CreatePiece(first)) && res.next == CreatePiece(second)
      && Empty(res.board)
  {
    if !g.gameOver && !g.paused then g else InitGame(first, second)
  }

  /** Everything that can happen to a game: a key, a timer tick, the start, pause or reset button. */
  datatype Event =
    | KeyPress(key: Key, kind: nat)
    | TimerTick(kind: nat)
    | PausePressed
    | StartPressed(first: nat, second: nat)
    | ResetPressed(first: nat, second: nat)

  predicate EventOk(e: Event) {
    match e
    case KeyPress(_, kind) => kind < KINDS
    case TimerTick(kind) => kind < KINDS
    case PausePressed => true
    case StartPressed(first, second) => first < KINDS && second < KINDS
    case ResetPressed(first, second) => first < KINDS && second < KINDS
  }

  /**
   One event applied to the game. The reset button restarts from any state,
   even in the middle of a game; the pause button only touches the paused flag.
   */
  function Step(g: GameState, e: Event): (res: GameState)
    requires Valid(g) && EventOk(e)
    ensures Valid(res)
    ensures e.ResetPressed? ==>
      && Active(res) && res.score == 0 && res.lines == 0
      && res.current == Some(CreatePiece(e.first)) && res.next == CreatePiece(e.second)
      && Empty(res.board)
    ensures e.PausePressed? ==> res.(paused := g.paused) == g && (g.gameOver <==> res.paused == g.paused)
  {
    match e
    case KeyPress(key, kind) => KeyDown(g, key, kind)
    case TimerTick(kind) => Tick(g, kind)
    case PausePressed => TogglePause(g)
    case StartPressed(first, second) => StartButton(g, first, second)
    case ResetPressed(first, second) => InitGame(first, second)
  }

  /** Every state reached from a valid state by any sequence of events is valid. */
  function Run(g: GameState, events: seq<Event>): (res: GameState)
    requires Valid(g) && forall i :: 0 <= i < |events| ==> EventOk(events[i])
    ensures Valid(res)
    decreases |events|
  {
    if |events| == 0 then g else Run(Step(g, events[0]), events[1..])
  }

  /** Game over is final: keys, ticks and the pause button leave such a game exactly as it is. */
  lemma {:induction false} GameOverIsFinal(g: GameState, events: seq<Event>)
    requires Valid(g) && g.gameOver
    requires forall i :: 0 <= i < |events| ==> EventOk(events[i]) && !events[i].StartPressed? && !events[i].ResetPressed?
    ensures Run(g, events) == g
    decreases |events|
  {
    if |events| > 0 {
      GameOverIsFinal(Step(g, events[0]), events[1..]);
    }
  }
}
