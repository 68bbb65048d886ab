/**
 * The rules of one tick of play, on values. The sketch keeps its state in
 * globals (breakout.cpp:38, 43-61); here that state is a State value, and
 * each phase of moveBall (breakout.cpp:248-290) is a function from the
 * state before the phase to the state after it. The Game class of module
 * Breakout is proved to change its fields exactly as these functions say.
 */
module Rules {
  import opened Collision
  import opened Bricks

  /** Size of the ST7735 "black tab" panel, which tft.width() and tft.height() report. */
  const Width := 128
  const Height := 160
  /** The score bar takes the top of the screen; a ball above this row reflects (breakout.cpp:367). */
  const Ceiling := 16
  /** The paddle row set by drawPaddle (breakout.cpp:141) and the paddle's size (breakout.cpp:256). */
  const PaddleY := 155
  const PaddleWidth := 20
  const PaddleHeight := 5

  /**
   * The joystick-button flag joy_button. High: waiting for a launch (at
   * the start, after a lost ball) or the game is over; Low: in play.
   */
  datatype Button = High | Low

  /** The sketch's globals as one value, with the wall in scan order. */
  datatype State = State(
    ballX: int, ballY: int,
    ballDirectionX: int, ballDirectionY: int,
    points: int, oldpoints: int,
    lives: int, oldlives: int,
    joyButton: Button,
    bricks: seq<BrickPosition>)

  /** The state set up by the global initialisers (breakout.cpp:47-54) and setup (breakout.cpp:86, 92). */
  function Initial(button: Button): (s: State)
    ensures InLayout(s.bricks)
    ensures forall k :: 0 <= k < |s.bricks| ==> s.bricks[k].brickExists
  {
    State(0, 0, 2, 5, 0, 0, 3, 3, button,
          seq(Columns * Rows, k => BrickPosition(1 + 21 * (k / Rows), 15 + 6 * (k % Rows), true)))
  }

  function Abs(v: int): nat
  {
    if v < 0 then -v else v
  }

  /** The direction component d after n successive negations. */
  function Flip(d: int, n: nat): (r: int)
    ensures r == if n % 2 == 0 then d else -d
  {
    if n == 0 then d else -Flip(d, n - 1)
  }

  /** Negating a times and then b times is negating a + b times; magnitude is kept. */
  lemma {:induction false} FlipAdd(d: int, a: nat, b: nat)
    ensures Flip(Flip(d, a), b) == Flip(d, a + b)
    ensures Abs(Flip(d, a)) == Abs(d)
  {
  }

  /** ballOffscreen's side test (breakout.cpp:363). */
  predicate LeavesSide(ballX: int)
  {
    ballX > Width - 1 || ballX < 0
  }

  /** ballOffscreen's bottom test (breakout.cpp:371). */
  predicate LeavesBottom(ballY: int)
  {
    ballY > Height
  }

  /**
   * Whether a scan that starts at `before` points and scores `hits` passes
   * through Rows * Columns, the value the win test of breakout.cpp:276
   * compares against after each point.
   */
  predicate WinReached(before: int, hits: nat): (r: bool)
    ensures r <==> PointTestFires(before, hits)
  {
    WinByPointTests(before, hits);
    before < Rows * Columns <= before + hits
  }

  /**
   * Whether the test points == Rows * Columns of breakout.cpp:276, made
   * after each of `hits` increments starting from `before` points, fires.
   */
  predicate PointTestFires(before: int, hits: nat)
  {
    hits > 0 && (before + hits == Rows * Columns || PointTestFires(before, hits - 1))
  }

  /** The per-point tests fire exactly when the score passes through Rows * Columns. */
  lemma {:induction false} WinByPointTests(before: int, hits: nat)
    ensures PointTestFires(before, hits) <==> before < Rows * Columns <= before + hits
  {
    if hits > 0 {
      WinByPointTests(before, hits - 1);
    }
  }

  /** ballOffscreen (breakout.cpp:361-377). */
  function Offscreen(s: State): (r: State)
    ensures r.ballX == s.ballX && r.ballY == s.ballY && r.bricks == s.bricks
    ensures r.points == s.points && r.oldpoints == s.oldpoints
    ensures Abs(r.ballDirectionX) == Abs(s.ballDirectionX) && Abs(r.ballDirectionY) == Abs(s.ballDirectionY)
    ensures r.lives == s.lives || (r.lives == s.lives - 1 && r.joyButton == High)
  {
    var dx := if LeavesSide(s.ballX) then -s.ballDirectionX else s.ballDirectionX;
    var dy := if s.ballY < Ceiling then -s.ballDirectionY else s.ballDirectionY;
    if LeavesBottom(s.ballY) then
      s.(ballDirectionX := dx, ballDirectionY := dy, joyButton := High, oldlives := s.lives, lives := s.lives - 1)
    else
      s.(ballDirectionX := dx, ballDirectionY := dy)
  }

  /** The paddle test of moveBall (breakout.cpp:256-260) with the paddle at `paddleX`. */
  function Bounce(s: State, paddleX: int): (r: State)
    ensures r == s.(ballDirectionY := r.ballDirectionY)
    ensures Abs(r.ballDirectionY) == Abs(s.ballDirectionY)
  {
    if InPaddle(s.ballX, s.ballY, paddleX, PaddleY, PaddleWidth, PaddleHeight) then
      s.(ballDirectionY := -s.ballDirectionY)
    else
      s
  }

  /**
   * The brick loop of moveBall (breakout.cpp:264-282): every brick hit is
   * killed and negates the vertical direction once; each scores a point,
   * oldpoints trails by one, and the flag is raised when the score passes
   * Rows * Columns.
   */
  function Scan(s: State): (r: State)
    ensures r.ballX == s.ballX && r.ballY == s.ballY && r.ballDirectionX == s.ballDirectionX
    ensures r.lives == s.lives && r.oldlives == s.oldlives
    ensures s.points <= r.points && r.points + Alive(r.bricks) == s.points + Alive(s.bricks)
    ensures Abs(r.ballDirectionY) == Abs(s.ballDirectionY)
  {
    var n := Hits(s.bricks, s.ballX, s.ballY);
    StruckAllCount(s.bricks, s.ballX, s.ballY);
    FlipAdd(s.ballDirectionY, n, 0);
    s.(ballDirectionY := Flip(s.ballDirectionY, n),
       points := s.points + n,
       oldpoints := if n == 0 then s.oldpoints else s.points + n - 1,
       joyButton := if WinReached(s.points, n) then High else s.joyButton,
       bricks := StruckAll(s.bricks, s.ballX, s.ballY))
  }

  /**
   * The end of moveBall (breakout.cpp:284-289): the ball moves by its
   * direction, then drawBall puts it on the launch position (breakout.cpp:230-234)
   * when the flag is High.
   */
  function Advance(s: State): (r: State)
    ensures r == s.(ballX := r.ballX, ballY := r.ballY)
    ensures r.joyButton == High ==> r.ballX == Width / 2 && r.ballY == Height - 8
  {
    if s.joyButton == High then s.(ballX := Width / 2, ballY := Height - 8)
    else s.(ballX := s.ballX + s.ballDirectionX, ballY := s.ballY + s.ballDirectionY)
  }

  /** One tick of moveBall with the paddle at `paddleX`. */
  function Tick(s: State, paddleX: int): (r: State)
    ensures s.points <= r.points
    ensures r.lives == s.lives || r.lives == s.lives - 1
    ensures |r.bricks| == |s.bricks|
  {
    Advance(Scan(Bounce(Offscreen(s), paddleX)))
  }

  /**
   * How many times one tick negates ballDirectionY for a ball at
   * (ballX, ballY): once for the ceiling, once for the paddle, once per
   * brick hit.
   */
  function VerticalReflections(ballX: int, ballY: int, paddleX: int, cells: seq<BrickPosition>): nat
  {
    (if ballY < Ceiling then 1 else 0)
    + (if InPaddle(ballX, ballY, paddleX, PaddleY, PaddleWidth, PaddleHeight) then 1 else 0)
    + Hits(cells, ballX, ballY)
  }

  /**
   * A ceiling negation, then a paddle negation, then n more: the direction
   * has been negated once per reflection.
   */
  lemma FlipChain(d: int, ceiling: bool, paddle: bool, n: nat)
    ensures var d1 := if ceiling then -d else d;
            Flip(if paddle then -d1 else d1, n) == Flip(d, (if ceiling then 1 else 0) + (if paddle then 1 else 0) + n)
  {
    var c, p := if ceiling then 1 else 0, if paddle then 1 else 0;
    FlipAdd(d, c, p);
    FlipAdd(d, c + p, n);
  }

  /**
   * How one tick turns the ball: a side exit negates the horizontal
   * direction, and the vertical direction is negated once per vertical
   * reflection, all judged on the ball where it was when the tick began.
   */
  lemma TickDirection(s: State, paddleX: int)
    ensures Tick(s, paddleX).ballDirectionX == (if LeavesSide(s.ballX) then -s.ballDirectionX else s.ballDirectionX)
    ensures Tick(s, paddleX).ballDirectionY == Flip(s.ballDirectionY, VerticalReflections(s.ballX, s.ballY, paddleX, s.bricks))
  {
    FlipChain(s.ballDirectionY, s.ballY < Ceiling,
              InPaddle(s.ballX, s.ballY, paddleX, PaddleY, PaddleWidth, PaddleHeight),
              Hits(s.bricks, s.ballX, s.ballY));
  }

  /**
   * What else one tick does, in terms of the state before it: the score,
   * the lives, the flag, the ball's new position and the wall.
   */
  lemma TickEffect(s: State, paddleX: int)
    ensures var t, n, lost := Tick(s, paddleX), Hits(s.bricks, s.ballX, s.ballY), LeavesBottom(s.ballY);
            && t.points == s.points + n
            && t.oldpoints == (if n == 0 then s.oldpoints else s.points + n - 1)
            && t.lives == (if lost then s.lives - 1 else s.lives)
            && t.oldlives == (if lost then s.lives else s.oldlives)
            && t.joyButton == (if lost || WinReached(s.points, n) then High else s.joyButton)
            && (t.joyButton == High ==> t.ballX == Width / 2 && t.ballY == Height - 8)
            && (t.joyButton == Low ==> t.ballX == s.ballX + t.ballDirectionX && t.ballY == s.ballY + t.ballDirectionY)
            && t.bricks == StruckAll(s.bricks, s.ballX, s.ballY)
  {
  }

  /** Reflections only negate: a tick keeps the ball's speed along each axis. */
  lemma TickKeepsSpeed(s: State, paddleX: int)
    ensures Abs(Tick(s, paddleX).ballDirectionX) == Abs(s.ballDirectionX)
    ensures Abs(Tick(s, paddleX).ballDirectionY) == Abs(s.ballDirectionY)
  {
    TickDirection(s, paddleX);
    FlipAdd(s.ballDirectionX, if LeavesSide(s.ballX) then 1 else 0, 0);
    FlipAdd(s.ballDirectionY, VerticalReflections(s.ballX, s.ballY, paddleX, s.bricks), 0);
  }

  /**
   * Every point a tick scores is a brick it removed; on a wall in the
   * layout that keeps the score invariant and scores at most one point.
   */
  lemma TickKeepsScore(s: State, paddleX: int)
    ensures Tick(s, paddleX).points + Alive(Tick(s, paddleX).bricks) == s.points + Alive(s.bricks)
    ensures ScoreMatches(s.points, s.bricks) ==>
              ScoreMatches(Tick(s, paddleX).points, Tick(s, paddleX).bricks)
              && Tick(s, paddleX).points <= s.points + 1
  {
    TickEffect(s, paddleX);
    StruckAllCount(s.bricks, s.ballX, s.ballY);
    if ScoreMatches(s.points, s.bricks) {
      ScanKeepsScore(s.points, s.bricks, s.ballX, s.ballY);
    }
  }

  /**
   * The tick that scores the last point clears the wall and raises the
   * flag, which puts the ball back on the launch position.
   */
  lemma TickWins(s: State, paddleX: int)
    requires ScoreMatches(s.points, s.bricks)
    ensures var t := Tick(s, paddleX);
            (t.points == Rows * Columns <==> Alive(t.bricks) == 0)
            && (t.points == Rows * Columns && s.points != t.points ==>
                  t.joyButton == High && t.ballX == Width / 2 && t.ballY == Height - 8)
  {
    TickEffect(s, paddleX);
    TickKeepsScore(s, paddleX);
  }

  /** No point of the paddle lies in a layout brick, so a paddle bounce never scores. */
  lemma PaddleClearOfBricks(cells: seq<BrickPosition>, ballX: int, ballY: int, paddleX: int)
    requires InLayout(cells)
    requires InPaddle(ballX, ballY, paddleX, PaddleY, PaddleWidth, PaddleHeight)
    ensures Hits(cells, ballX, ballY) == 0
  {
    assert forall m :: 0 <= m < |cells| ==> !HitBy(cells[m], ballX, ballY);
    HitsOnlyAt(cells, ballX, ballY, -1);
  }

  /**
   * A ball on the paddle is reflected exactly once, scores nothing and
   * leaves the wall and the lives as they were.
   */
  lemma PaddleBounce(s: State, paddleX: int)
    requires InLayout(s.bricks)
    requires InPaddle(s.ballX, s.ballY, paddleX, PaddleY, PaddleWidth, PaddleHeight)
    ensures var t := Tick(s, paddleX);
            t.ballDirectionY == -s.ballDirectionY && t.points == s.points
            && t.bricks == s.bricks && t.lives == s.lives
  {
    TickDirection(s, paddleX);
    TickEffect(s, paddleX);
    PaddleClearOfBricks(s.bricks, s.ballX, s.ballY, paddleX);
    StruckAllMissed(s.bricks, s.ballX, s.ballY);
  }

  /**
   * A ball on row 15 inside a live top-row brick is reflected by the
   * ceiling test and again by the brick: it scores that brick and keeps its
   * vertical direction.
   */
  lemma TopRowCancel(s: State, paddleX: int, i: int)
    requires InLayout(s.bricks) && 0 <= i < Columns
    requires s.bricks[i * Rows].brickExists
    requires s.ballY == 15 && 1 + 21 * i <= s.ballX <= 21 + 21 * i
    ensures var t := Tick(s, paddleX);
            t.ballDirectionY == s.ballDirectionY && t.points == s.points + 1
            && !t.bricks[i * Rows].brickExists
  {
    TickDirection(s, paddleX);
    TickEffect(s, paddleX);
    SoleHit(s.bricks, s.ballX, s.ballY, i, 0);
  }

  /** The initial state satisfies the score invariant: no points, every brick standing. */
  lemma InitialConsistent(button: Button)
    ensures ScoreMatches(Initial(button).points, Initial(button).bricks)
  {
    AllAliveCount(Initial(button).bricks);
  }
}
