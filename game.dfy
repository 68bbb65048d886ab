/**
 * The game-simulation core of the sketch: the globals of breakout.cpp
 * (lines 38, 43-61) gathered into one Game object, with the operations
 * that change them without drawing (initializeBricks, ballOffscreen,
 * moveBall, and the state effects of drawBall and startPhase).
 */
module Breakout {
  import opened Collision
  import opened Bricks
  import opened Rules

  /** The game state: the sketch's globals, with the brick array as a fixed 2-D array. */
  class Game {
    var ballX: int
    var ballY: int
    var ballDirectionX: int
    var ballDirectionY: int
    var points: int
    var oldpoints: int
    var lives: int
    var oldlives: int
    var joyButton: Button
    /** brick_position[columns][rows]: the wall, indexed by column then row. */
    const brickPosition: array2<BrickPosition>

    ghost predicate Valid()
    {
      brickPosition.Length0 == Columns && brickPosition.Length1 == Rows
    }

    /** The wall in scan order: cell (i, j) at index i * Rows + j. */
    ghost function Cells(): (cells: seq<BrickPosition>)
      requires Valid()
      reads brickPosition
      ensures |cells| == Columns * Rows
    {
      seq(Columns * Rows, k requires 0 <= k < Columns * Rows reads brickPosition =>
        brickPosition[k / Rows, k % Rows])
    }

    /** Cell (i, j) sits at index i * Rows + j of the scan-order wall. */
    lemma CellsIndex()
      requires Valid()
      ensures forall i, j :: 0 <= i < Columns && 0 <= j < Rows ==>
                Cells()[i * Rows + j] == brickPosition[i, j]
    {
      forall i, j | 0 <= i < Columns && 0 <= j < Rows
        ensures Cells()[i * Rows + j] == brickPosition[i, j]
      {
        var k := i * Rows + j;
        assert k / Rows == i && k % Rows == j;
      }
    }

    /** Column i of the wall, top row first. */
    ghost function Column(i: int): (col: seq<BrickPosition>)
      requires Valid() && 0 <= i < Columns
      reads brickPosition
      ensures |col| == Rows
      ensures forall j :: 0 <= j < Rows ==> col[j] == brickPosition[i, j]
    {
      seq(Rows, j requires 0 <= j < Rows reads brickPosition => brickPosition[i, j])
    }

    /**
     * What play keeps true: the bricks stay where initializeBricks put them,
     * and every point scored is a brick gone.
     */
    ghost predicate Consistent()
      requires Valid()
      reads this, brickPosition
    {
      ScoreMatches(points, Cells())
    }

    /** The whole game state as a value. */
    ghost function Snapshot(): (s: State)
      requires Valid()
      reads this, brickPosition
      ensures s.bricks == Cells()
    {
      State(ballX, ballY, ballDirectionX, ballDirectionY, points, oldpoints, lives, oldlives, joyButton, Cells())
    }

    /**
     * The initial values of the globals (breakout.cpp:47-54) and setup's
     * initializeBricks call (breakout.cpp:92); `button` is the first
     * reading of the joystick button (breakout.cpp:86).
     */
    constructor (button: Button)
      ensures Valid() && fresh(brickPosition)
      ensures Snapshot() == Initial(button)
      ensures Consistent()
    {
      ballX, ballY := 0, 0;
      ballDirectionX, ballDirectionY := 2, 5;
      points, oldpoints := 0, 0;
      lives, oldlives := 3, 3;
      joyButton := button;
      brickPosition := new BrickPosition[Columns, Rows];
      new;
      InitializeBricks();
      InitialConsistent(button);
    }

    /** Lays out the wall: brick (i, j) at (1 + 21 i, 15 + 6 j), alive (breakout.cpp:121-132). */
    method InitializeBricks()
      requires Valid()
      modifies brickPosition
      ensures forall i, j :: 0 <= i < Columns && 0 <= j < Rows ==>
                brickPosition[i, j] == BrickPosition(1 + 21 * i, 15 + 6 * j, true)
    {
      for i := 0 to Columns
        invariant forall a, b :: 0 <= a < i && 0 <= b < Rows ==>
                    brickPosition[a, b] == BrickPosition(1 + 21 * a, 15 + 6 * b, true)
      {
        for j := 0 to Rows
          invariant forall a, b :: 0 <= a < i && 0 <= b < Rows ==>
                      brickPosition[a, b] == BrickPosition(1 + 21 * a, 15 + 6 * b, true)
          invariant forall b :: 0 <= b < j ==>
                      brickPosition[i, b] == BrickPosition(1 + 21 * i, 15 + 6 * b, true)
        {
          brickPosition[i, j] := BrickPosition(1 + 21 * i, 15 + 6 * j, true);
        }
      }
    }

    /**
     * The reset branch of drawBall (breakout.cpp:230-234): while waiting
     * for a launch the ball sits at the launch position.
     */
    method DrawBall()
      modifies this`ballX, this`ballY
      ensures joyButton == High ==> ballX == Width / 2 && ballY == Height - 8
      ensures joyButton == Low ==> ballX == old(ballX) && ballY == old(ballY)
    {
      if joyButton == High {
        ballX := Width / 2;
        ballY := Height - 8;
      }
    }

    /**
     * startPhase (breakout.cpp:207-224). Its loop body ends by setting
     * joy_button to LOW, so the loop runs at most once: it puts the ball on
     * the launch position and starts play whatever the button reads.
     */
    method StartPhase()
      modifies this`ballX, this`ballY, this`joyButton
      ensures joyButton == Low
      ensures old(joyButton) == High ==> ballX == Width / 2 && ballY == Height - 8
      ensures old(joyButton) == Low ==> ballX == old(ballX) && ballY == old(ballY)
    {
      while joyButton == High
        invariant old(joyButton) == Low ==> joyButton == Low && ballX == old(ballX) && ballY == old(ballY)
        invariant old(joyButton) == High && joyButton == Low ==> ballX == Width / 2 && ballY == Height - 8
        decreases if joyButton == High then 1 else 0
      {
        DrawBall();
        joyButton := Low;
      }
    }

    /**
     * ballOffscreen (breakout.cpp:361-377): a side or ceiling exit negates
     * the matching direction; a bottom exit costs a life and returns to the
     * waiting phase.
     */
    method BallOffscreen()
      requires Valid()
      modifies this
      ensures Snapshot() == Offscreen(old(Snapshot()))
    {
      if ballX > Width - 1 || ballX < 0 {
        ballDirectionX := -ballDirectionX;
      }
      if ballY < Ceiling {
        ballDirectionY := -ballDirectionY;
      }
      if ballY > Height {
        joyButton := High;
        oldlives := lives;
        lives := lives - 1;
      }
    }

    /**
     * The score bookkeeping after a scan that started from `p0` points,
     * `op0` as oldpoints, `dy0` as ballDirectionY and `jb0` as joy_button
     * has hit `n` bricks: one point and one negation per hit, oldpoints one
     * behind, and the flag raised once Rows * Columns points were reached.
     */
    ghost predicate Tallied(n: nat, p0: int, op0: int, dy0: int, jb0: Button)
      reads this
    {
      && points == p0 + n
      && oldpoints == (if n == 0 then op0 else p0 + n - 1)
      && ballDirectionY == Flip(dy0, n)
      && joyButton == (if WinReached(p0, n) then High else jb0)
    }

    /** One pass of the brick loop's body (breakout.cpp:268-280), for brick (i, j). */
    method StrikeBrick(i: int, j: int, ghost n: nat, ghost p0: int, ghost op0: int, ghost dy0: int, ghost jb0: Button)
      returns (ghost n': nat)
      requires Valid() && 0 <= i < Columns && 0 <= j < Rows
      requires Tallied(n, p0, op0, dy0, jb0)
      modifies this, brickPosition
      ensures brickPosition[i, j] == Struck(old(brickPosition[i, j]), ballX, ballY)
      ensures forall a, b :: 0 <= a < Columns && 0 <= b < Rows && (a != i || b != j) ==>
                brickPosition[a, b] == old(brickPosition[a, b])
      ensures n' == n + (if HitBy(old(brickPosition[i, j]), ballX, ballY) then 1 else 0)
      ensures Tallied(n', p0, op0, dy0, jb0)
      ensures ballX == old(ballX) && ballY == old(ballY) && ballDirectionX == old(ballDirectionX)
      ensures lives == old(lives) && oldlives == old(oldlives)
    {
      n' := n;
      if InBrick(ballX, ballY, brickPosition[i, j].brickX, brickPosition[i, j].brickY, BrickWidth, BrickHeight)
         && brickPosition[i, j].brickExists
      {
        ballDirectionX := ballDirectionX;
        ballDirectionY := -ballDirectionY;
        brickPosition[i, j] := brickPosition[i, j].(brickExists := false);
        oldpoints := points;
        points := points + 1;
        if points == Rows * Columns {
          joyButton := High;
        }
        n' := n + 1;
      }
    }

    /** The inner loop of the brick scan (breakout.cpp:266-281): the bricks of column i, top row first. */
    method ScanColumn(i: int, ghost col: seq<BrickPosition>,
                      ghost n: nat, ghost p0: int, ghost op0: int, ghost dy0: int, ghost jb0: Button)
      returns (ghost n': nat)
      requires Valid() && 0 <= i < Columns && col == Column(i)
      requires Tallied(n, p0, op0, dy0, jb0)
      modifies this, brickPosition
      ensures forall b :: 0 <= b < Rows ==> brickPosition[i, b] == Struck(col[b], ballX, ballY)
      ensures forall a, b :: 0 <= a < Columns && 0 <= b < Rows && a != i ==>
                brickPosition[a, b] == old(brickPosition[a, b])
      ensures ballX == old(ballX) && ballY == old(ballY) && ballDirectionX == old(ballDirectionX)
      ensures lives == old(lives) && oldlives == old(oldlives)
      ensures n' == n + Hits(col, ballX, ballY)
      ensures Tallied(n', p0, op0, dy0, jb0)
    {
      n' := n;
      for j := 0 to Rows
        invariant ballX == old(ballX) && ballY == old(ballY) && ballDirectionX == old(ballDirectionX)
        invariant lives == old(lives) && oldlives == old(oldlives)
        invariant forall b :: 0 <= b < Rows ==>
                    brickPosition[i, b] == if b < j then Struck(col[b], ballX, ballY) else col[b]
        invariant forall a, b :: 0 <= a < Columns && 0 <= b < Rows && a != i ==>
                    brickPosition[a, b] == old(brickPosition[a, b])
        invariant n' == n + Hits(col[..j], ballX, ballY)
        invariant Tallied(n', p0, op0, dy0, jb0)
      {
        HitsPrefixStep(col, ballX, ballY, j);
        n' := StrikeBrick(i, j, n', p0, op0, dy0, jb0);
      }
      assert col[..Rows] == col;
    }

    /**
     * The brick loop of moveBall (breakout.cpp:264-282): every live brick
     * containing the ball, in column-major order, is killed, negates
     * ballDirectionY and scores a point; reaching Rows * Columns points
     * sets the waiting/terminal flag.
     */
    method ScanBricks()
      requires Valid()
      modifies this, brickPosition
      ensures Cells() == StruckAll(old(Cells()), ballX, ballY)
      ensures Tallied(Hits(old(Cells()), ballX, ballY), old(points), old(oldpoints), old(ballDirectionY), old(joyButton))
      ensures ballX == old(ballX) && ballY == old(ballY) && ballDirectionX == old(ballDirectionX)
      ensures lives == old(lives) && oldlives == old(oldlives)
    {
      ghost var cells0 := Cells();
      ghost var p0, op0, dy0, jb0 := points, oldpoints, ballDirectionY, joyButton;
      CellsIndex();
      ghost var h := 0;
      assert h == Hits(ColumnsBefore(cells0, 0), ballX, ballY) by {
        ColumnsBeforeEnds(cells0);
      }
      for i := 0 to Columns
        invariant ballX == old(ballX) && ballY == old(ballY) && ballDirectionX == old(ballDirectionX)
        invariant lives == old(lives) && oldlives == old(oldlives)
        invariant forall a, b :: 0 <= a < Columns && 0 <= b < Rows ==>
                    brickPosition[a, b] ==
                      if a < i then Struck(cells0[a * Rows + b], ballX, ballY) else cells0[a * Rows + b]
        invariant h == Hits(ColumnsBefore(cells0, i), ballX, ballY)
        invariant Tallied(h, p0, op0, dy0, jb0)
      {
        ghost var col := Column(i);
        assert h + Hits(col, ballX, ballY) == Hits(ColumnsBefore(cells0, i + 1), ballX, ballY) by {
          ColumnOfCells(cells0, col, i);
          HitsAppend(ColumnsBefore(cells0, i), col, ballX, ballY);
        }
        h := ScanColumn(i, col, h, p0, op0, dy0, jb0);
      }
      assert h == Hits(cells0, ballX, ballY) by {
        ColumnsBeforeEnds(cells0);
      }
      CellsStruck(cells0, ballX, ballY);
    }

    /** A wall struck brick by brick reads, in scan order, as the struck cells. */
    lemma CellsStruck(cells0: seq<BrickPosition>, x: int, y: int)
      requires Valid() && |cells0| == Columns * Rows
      requires forall i, j :: 0 <= i < Columns && 0 <= j < Rows ==>
                 brickPosition[i, j] == Struck(cells0[i * Rows + j], x, y)
      ensures Cells() == StruckAll(cells0, x, y)
    {
      forall k | 0 <= k < Columns * Rows
        ensures Cells()[k] == StruckAll(cells0, x, y)[k]
      {
        assert k == (k / Rows) * Rows + k % Rows;
      }
    }

    /** The paddle test of moveBall (breakout.cpp:256-260), with the paddle at `paddleX`. */
    method HitPaddle(paddleX: int)
      requires Valid()
      modifies this
      ensures Snapshot() == Bounce(old(Snapshot()), paddleX)
    {
      if InPaddle(ballX, ballY, paddleX, PaddleY, PaddleWidth, PaddleHeight) {
        ballDirectionX := ballDirectionX;
        ballDirectionY := -ballDirectionY;
      }
    }

    /** The end of moveBall (breakout.cpp:284-289): the ball moves by its direction, then drawBall. */
    method StepBall()
      requires Valid()
      modifies this
      ensures Snapshot() == Advance(old(Snapshot()))
    {
      ballX := ballX + ballDirectionX;
      ballY := ballY + ballDirectionY;
      DrawBall();
    }

    /**
     * One tick of play, moveBall (breakout.cpp:248-290): boundaries first,
     * then the paddle at `paddleX`, then the bricks, then the ball advances
     * by its direction; the closing drawBall call puts the ball back on the
     * launch position if the tick lost the ball or won the game.
     */
    method MoveBall(paddleX: int)
      requires Valid()
      modifies this, brickPosition
      ensures Snapshot() == Tick(old(Snapshot()), paddleX)
      ensures old(Consistent()) ==> Consistent()
    {
      BallOffscreen();
      HitPaddle(paddleX);
      ghost var s2 := Snapshot();
      ScanBricks();
      assert Snapshot() == Scan(s2);
      StepBall();
      TickKeepsScore(old(Snapshot()), paddleX);
    }
  }
}
