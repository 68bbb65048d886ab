# Breakout game core in Dafny

This project models the game-simulation core of the Arduino sketch
`breakout.cpp`: the part that changes the game's state without drawing on
the screen or reading the joystick. The sketch keeps its state in globals:

- the ball's position and direction;
- the score and lives, with their `old` copies used for redrawing;
- the `joy_button` phase flag;
- the 6 x 6 `brick_position` array.

Here those globals are one `Game` object (module `Breakout`, file
`game.dfy`), and the wall is an `array2<BrickPosition>` that the methods
update in place. The operations modelled are:

- `initializeBricks`;
- the hit tests `inPaddle` and `inBrick`;
- `ballOffscreen`;
- `moveBall`, down to its nested brick loop;
- the ball-reset branch of `drawBall`;
- the state effect of `startPhase`.

Every method of the class is proved against a value-level specification.
Module `Rules` (`rules.dfy`) describes the state as a `State` value and
gives one function per phase of `moveBall`:

- `Offscreen` for `ballOffscreen`;
- `Bounce` for the paddle test;
- `Scan` for the brick loop;
- `Advance` for the final move plus `drawBall`.

`Tick` composes the four phases. `Game.MoveBall` runs `BallOffscreen`,
then the paddle test (`HitPaddle`), then `ScanBricks`, then the move and
`drawBall` (`StepBall`); each of these is proved against its phase, and
`MoveBall` ensures that the new
state is `Tick` of the old one. The lemmas about `Tick` then state what
one tick means in terms of the state before it:

- the direction flips once per reflection;
- one point is scored per brick removed;
- at most one brick is hit per tick;
- speed is kept;
- the win raises the flag.

Module `Bricks` (`bricks.dfy`) views the wall as its sequence of cells in
the sketch's scan order: column-major, with cell (i, j) at index
`i * Rows + j`. It counts hits and live bricks, and proves the layout
facts. Module `Collision` (`collision.dfy`) holds the two
point-in-rectangle tests.

Behaviour of the code that the model keeps as written:

- `startPhase`'s loop body ends with `joy_button = LOW` whatever the
  button reads. The loop therefore runs at most once: it puts the ball on
  the launch position and starts play without waiting for a press
  (breakout.cpp:207-224).
- There is no separate won or lost phase in the code. A bottom exit and
  the last point both set `joy_button` to HIGH, and the closing `drawBall`
  then puts the ball at the launch position (breakout.cpp:274-279,
  289, 230-234).
- `ballOffscreen` decrements `lives` on every bottom exit, without a
  lower bound and without a separate lost state (breakout.cpp:371-376).
- The boundary tests reflect whenever the ball is out of range, whatever
  its direction, so a ball that is still out of range on the next tick is
  reflected again (breakout.cpp:363-370).
- Every live brick that contains the ball is hit and scores, not only the
  first one (breakout.cpp:264-282). For the layout `initializeBricks`
  builds, the bricks do not overlap: the horizontal pitch is 21 against a
  width of 20, and the vertical pitch is 6 against a height of 5. So
  `Bricks.LayoutHitsAtMostOne` shows that at most one brick is hit per
  tick.
- `inPaddle` compares against `paddleHeight + paddle`, a name that is not
  declared. `inBrick` tests names (`x`, `y`, `rectX`, `rectWidth`, ...)
  that are not its parameters (breakout.cpp:385, 397-398). Both are
  modelled by their evident intent: a closed rectangle
  `[x, x + w] x [y, y + h]`.
- `drawBall` writes `tft.width/2`. It is modelled as half the screen
  width, 128 / 2 = 64.

The screen is the 128 x 160 ST7735 panel, and the paddle row is 155
(breakout.cpp:141). The paddle's x position is a parameter of
`MoveBall`, because the sketch reads it from the joystick. `ballX` and
`ballY` are zero-initialised globals, so the constructor starts them at 0.

## Model

| member | source | states |
|---|---|---|
| Collision.InPaddle | breakout.cpp:380-390 | true exactly when the ball's centre lies in the closed rectangle [paddleX, paddleX + paddleWidth] x [paddleY, paddleY + paddleHeight] |
| Collision.InBrick | breakout.cpp:393-403 | true exactly when the ball's centre lies in the closed rectangle [rectX, rectX + rectWidth] x [rectY, rectY + rectHeight] |
| Bricks.HitBy | breakout.cpp:268-269 | a brick is hit exactly when it is alive and the ball's centre lies in its closed 20 x 5 rectangle [brickX, brickX + 20] x [brickY, brickY + 5] |
| Bricks.StruckAll | breakout.cpp:268-273 | a scan keeps the number of cells and every brick's position, revives nothing, and kills exactly the live bricks that contain the ball |
| Bricks.Hits | breakout.cpp:268-269 | only live bricks can be hit: a scan hits at most as many bricks as are alive |
| Bricks.HitsAppend | breakout.cpp:264-282 | scanning two stretches of wall in turn hits what each stretch hits |
| Bricks.StruckAllCount | breakout.cpp:268-275 | the bricks a scan kills are exactly the ones it counts: alive after + hits = alive before |
| Bricks.StruckAllMissed | breakout.cpp:268-273 | a scan with no hit leaves the wall unchanged |
| Bricks.StruckAllKeepsLayout | breakout.cpp:127-129 | a scan never moves a brick or revives one, so the wall keeps the layout initializeBricks gave it |
| Bricks.AllAliveCount | breakout.cpp:129 | a wall whose bricks all exist has every cell alive |
| Bricks.HitIsCounted | breakout.cpp:268-275 | a live brick containing the ball is always counted by the scan |
| Bricks.HitsOnlyAt | breakout.cpp:264-282 | if only one cell can contain the ball, the scan hits at most once |
| Bricks.LayoutCellOf | breakout.cpp:127-128 | the layout brick containing a point is determined by the point: column (x - 1) / 21, row (y - 15) / 6 |
| Bricks.LayoutHitsAtMostOne | breakout.cpp:121-132 | layout bricks do not overlap, so one scan hits at most one brick |
| Bricks.SoleHit | breakout.cpp:268-273 | a ball inside the live layout brick (i, j) scores exactly one brick, and that brick is gone after the scan |
| Bricks.ScanKeepsScore | breakout.cpp:268-275 | a scan keeps "points + live bricks = 36" and the layout, and scores at most one point |
| Rules.Initial | breakout.cpp:121-132 | the initial state, built from the global initialisers (lines 47-54) and setup's initializeBricks call (line 92), has every brick of the layout standing |
| Rules.Flip | breakout.cpp:271-272 | a direction negated n times is itself for even n and its negation for odd n |
| Rules.FlipAdd | breakout.cpp:258-259 | negating a times and then b times is negating a + b times, and keeps the magnitude |
| Rules.FlipChain | breakout.cpp:252-272 | the vertical negations of one tick, at the ceiling (line 369), the paddle (line 259) and each brick hit (line 272), compose to one negation per reflection |
| Rules.WinReached | breakout.cpp:276-279 | a scan that starts at `before` points and scores `hits` raises the flag exactly when the test points == 36, made after each point, fires at least once |
| Rules.WinByPointTests | breakout.cpp:276-279 | the per-point win test fires during a scan exactly when the score passes through 36: before < 36 <= before + hits |
| Rules.Offscreen | breakout.cpp:361-377 | the boundary phase leaves the ball's position, the wall and the score alone and keeps the speed along both axes; the lives either stay or drop by one, and a dropped life raises the flag |
| Rules.Bounce | breakout.cpp:256-260 | the paddle test changes nothing but ballDirectionY, and keeps its magnitude |
| Rules.Scan | breakout.cpp:264-282 | the brick loop leaves the ball, ballDirectionX and the lives alone, keeps the vertical speed, never lowers the score, and keeps points + live bricks |
| Rules.Advance | breakout.cpp:284-289 | the final phase changes only the ball's position; with the flag High the ball ends on the launch position (64, 152) |
| Rules.Tick | breakout.cpp:248-290 | one tick never lowers the score, keeps the number of cells, and keeps the lives or takes exactly one |
| Rules.TickDirection | breakout.cpp:248-290 | one tick negates ballDirectionX on a side exit, and negates ballDirectionY once per ceiling, paddle and brick reflection, all judged on the ball's pre-tick position |
| Rules.TickEffect | breakout.cpp:248-290 | one tick scores one point per brick hit, with oldpoints one behind. A bottom exit costs one life and records the old count. The flag goes High on a bottom exit or when the score reaches 36. The ball then moves by the new direction, or sits on the launch position (64, 152) if the flag is High. The wall is the struck wall |
| Rules.TickKeepsSpeed | breakout.cpp:258-259 | a tick keeps the magnitude of both direction components |
| Rules.TickKeepsScore | breakout.cpp:268-275 | a tick keeps points + live bricks; on a layout wall it keeps the score invariant and scores at most one point |
| Rules.TickWins | breakout.cpp:276-279 | with the score invariant, 36 points means the wall is cleared; the tick that reaches 36 raises the flag and puts the ball on the launch position |
| Rules.PaddleClearOfBricks | breakout.cpp:256-269 | no point of the paddle lies in a layout brick |
| Rules.PaddleBounce | breakout.cpp:256-260 | a ball on the paddle is reflected exactly once, scores nothing, and leaves the wall and the lives unchanged |
| Rules.TopRowCancel | breakout.cpp:367-370 | a ball on row 15 inside a live top-row brick is reflected by both the ceiling and the brick; it scores that brick and keeps its vertical direction |
| Rules.InitialConsistent | breakout.cpp:51-54 | the initial state satisfies the score invariant: no points, 36 bricks standing |
| Breakout.Game.constructor | breakout.cpp:86-92 | the game starts in the initial state (ball at 0,0, direction (2,5), 0 points, 3 lives, the layout wall) and satisfies the score invariant |
| Breakout.Game.InitializeBricks | breakout.cpp:121-132 | every brick [i][j] is at (1 + 21 i, 15 + 6 j) and exists |
| Breakout.Game.DrawBall | breakout.cpp:230-234 | with the flag High the ball is put at (64, 152); otherwise it is left where it is |
| Breakout.Game.StartPhase | breakout.cpp:207-224 | afterwards the flag is Low; if it was High, the ball is on the launch position, otherwise it has not moved |
| Breakout.Game.BallOffscreen | breakout.cpp:361-377 | a side exit negates ballDirectionX and a ceiling exit negates ballDirectionY. A bottom exit raises the flag, copies lives to oldlives and takes one life. Nothing else changes |
| Breakout.Game.StrikeBrick | breakout.cpp:268-280 | brick (i, j) is struck and no other brick changes; a hit adds one point, one negation and oldpoints one behind, and raises the flag at 36 |
| Breakout.Game.ScanColumn | breakout.cpp:266-281 | column i is struck brick by brick and the other columns are unchanged; the tally grows by the column's hits |
| Breakout.Game.HitPaddle | breakout.cpp:256-260 | the new state is Bounce of the old one, for the paddle at paddleX |
| Breakout.Game.StepBall | breakout.cpp:284-289 | the new state is Advance of the old one: the ball moves by its direction, then drawBall resets it if the flag is High |
| Breakout.Game.ScanBricks | breakout.cpp:264-282 | the wall becomes the struck wall in scan order, and points, oldpoints, ballDirectionY and the flag are those of the whole scan's hits; the ball, ballDirectionX and the lives are unchanged |
| Breakout.Game.MoveBall | breakout.cpp:248-290 | the new state is Tick of the old one, for the paddle at paddleX; the score invariant is preserved |

## Left out

- Drawing: every `tft` call, the text and the screen clearing. These are
  calls into the display library.
- The joystick and Arduino I/O: `analogRead`, `digitalRead`, `pinMode`,
  `digitalWrite`, `delay`, `Serial` and `setup`'s device set-up. The first
  button reading is the constructor's `button` parameter.
- The paddle position: `drawPaddle` maps the analog reading with
  Arduino's `map`. It is not modelled, and `MoveBall` takes the paddle's x
  position as a parameter instead, so no clamp is proved.
- `lifeCheck` and `scoreCheck` (breakout.cpp:295-355) are not modelled.
  They redraw the counters and then copy `lives` into `oldlives` and
  `points` into `oldpoints`. Their loops, `while (lives == 0)` and
  `while (points == columns*rows)`, never end, because nothing inside them
  changes the value they test. They only lower the flag once and draw the
  end screen. The model covers play up to that point: `oldlives` and
  `oldpoints` are modelled where `ballOffscreen` and `moveBall` write them.
- `loop`'s wiring: it calls functions that do not exist (`lifeandScore`),
  so ticks are modelled one `MoveBall` at a time.
- `oldBallX`, `oldBallY`, `oldPaddleX` and `oldPaddleY`: these are used
  only to erase the previous drawing.
- Breakout.Game.MoveBall: integers are unbounded, so the 16-bit `int`
  wrap-around of the AVR target is not modelled. The ball stays within a
  few pixels of the screen and `points` never exceeds 36, but `lives` is
  never bounded below.
- Breakout.Game.StartPhase: the `drawPaddle` call and the `delay` inside
  its loop are left out; only the loop's effect on the ball and the flag
  is modelled.
