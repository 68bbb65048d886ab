/**
 * The two hit tests of the sketch (breakout.cpp:380-403). Both treat the
 * ball as the point of its centre and ask whether it lies in a closed,
 * axis-aligned rectangle whose top-left corner is (x, y) and whose extent
 * is w by h.
 */
module Collision {

  /** Whether the ball's centre lies on or inside the paddle (breakout.cpp:380-390). */
  function InPaddle(ballX: int, ballY: int, paddleX: int, paddleY: int,
                    paddleWidth: int, paddleHeight: int): (result: bool)
    ensures result <==> (paddleX <= ballX <= paddleX + paddleWidth
                         && paddleY <= ballY <= paddleY + paddleHeight)
  {
    if (ballX >= paddleX && ballX <= paddleX + paddleWidth)
       && (ballY >= paddleY && ballY <= paddleHeight + paddleY)
    then true
    else false
  }

  /** Whether the ball's centre lies on or inside a brick (breakout.cpp:393-403). */
  function InBrick(ballX: int, ballY: int, rectX: int, rectY: int,
                   rectWidth: int, rectHeight: int): (result: bool)
    ensures result <==> (rectX <= ballX <= rectX + rectWidth
                         && rectY <= ballY <= rectY + rectHeight)
  {
    if (ballX >= rectX && ballX <= rectX + rectWidth)
       && (ballY >= rectY && ballY <= rectHeight + rectY)
    then true
    else false
  }
}
