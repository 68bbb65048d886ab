/**
 * The brick wall: the BrickPosition record (declared in breakout.h, whose
 * fields are those written at breakout.cpp:127-129), the layout that
 * initializeBricks gives it, and the bookkeeping of one brick scan.
 *
 * A wall is viewed here as the sequence of its cells in the order the
 * sketch scans them (column-major: column i outer, row j inner), so cell
 * (i, j) sits at index i * Rows + j.
 */
module Bricks {
  import opened Collision

  const Rows := 6
  const Columns := 6
  /** Every brick is drawn and tested as a 20 x 5 rectangle (breakout.cpp:166, 268). */
  const BrickWidth := 20
  const BrickHeight := 5

  datatype BrickPosition = BrickPosition(brickX: int, brickY: int, brickExists: bool)

  /** The wall has the geometry initializeBricks gives it: horizontal pitch 21, vertical pitch 6. */
  ghost predicate InLayout(cells: seq<BrickPosition>)
  {
    && |cells| == Columns * Rows
    && forall k :: 0 <= k < |cells| ==>
         cells[k].brickX == 1 + 21 * (k / Rows) && cells[k].brickY == 15 + 6 * (k % Rows)
  }

  /** The test of breakout.cpp:268-269: the brick is alive and the ball's centre is in it. */
  predicate HitBy(b: BrickPosition, ballX: int, ballY: int): (r: bool)
    ensures r <==> (b.brickExists && b.brickX <= ballX <= b.brickX + BrickWidth
                    && b.brickY <= ballY <= b.brickY + BrickHeight)
  {
    InBrick(ballX, ballY, b.brickX, b.brickY, BrickWidth, BrickHeight) && b.brickExists
  }

  /** A brick after the scan has looked at it: killed if hit, otherwise as it was. */
  function Struck(b: BrickPosition, ballX: int, ballY: int): BrickPosition
  {
    if HitBy(b, ballX, ballY) then b.(brickExists := false) else b
  }

  /**
   * The wall after a whole scan. The ball does not move during the scan,
   * so whether one brick is hit does not depend on the others.
   */
  function StruckAll(cells: seq<BrickPosition>, ballX: int, ballY: int): (r: seq<BrickPosition>)
    ensures |r| == |cells|
    ensures forall k :: 0 <= k < |cells| ==>
              && r[k].brickX == cells[k].brickX && r[k].brickY == cells[k].brickY
              && (r[k].brickExists <==> cells[k].brickExists && !HitBy(cells[k], ballX, ballY))
  {
    seq(|cells|, k requires 0 <= k < |cells| => Struck(cells[k], ballX, ballY))
  }

  /** Number of bricks still alive. */
  function Alive(cells: seq<BrickPosition>): (n: nat)
    ensures n <= |cells|
  {
    if cells == [] then 0
    else Alive(cells[..|cells| - 1]) + (if cells[|cells| - 1].brickExists then 1 else 0)
  }

  /** Number of bricks a scan over `cells` hits; only live bricks can be hit. */
  function Hits(cells: seq<BrickPosition>, ballX: int, ballY: int): (n: nat)
    ensures n <= Alive(cells)
  {
    if cells == [] then 0
    else Hits(cells[..|cells| - 1], ballX, ballY)
         + (if HitBy(cells[|cells| - 1], ballX, ballY) then 1 else 0)
  }

  /** Scanning one more cell adds that cell's hit to the count. */
  lemma HitsPrefixStep(cells: seq<BrickPosition>, ballX: int, ballY: int, k: int)
    requires 0 <= k < |cells|
    ensures Hits(cells[..k + 1], ballX, ballY)
            == Hits(cells[..k], ballX, ballY) + (if HitBy(cells[k], ballX, ballY) then 1 else 0)
  {
    assert cells[..k + 1][..k] == cells[..k];
  }

  /** Scanning two stretches of wall one after the other hits what each hits. */
  lemma {:induction false} HitsAppend(a: seq<BrickPosition>, b: seq<BrickPosition>, ballX: int, ballY: int)
    ensures Hits(a + b, ballX, ballY) == Hits(a, ballX, ballY) + Hits(b, ballX, ballY)
  {
    if b == [] {
      assert a + b == a;
    } else {
      var n := |b| - 1;
      HitsAppend(a, b[..n], ballX, ballY);
      assert (a + b)[..|a + b| - 1] == a + b[..n];
    }
  }

  /** The cells of the first i columns in scan order. */
  function ColumnsBefore(cells: seq<BrickPosition>, i: int): seq<BrickPosition>
    requires 0 <= i <= Columns && |cells| == Columns * Rows
  {
    cells[..i * Rows]
  }

  /** The scan-order wall extends column by column: after the first i columns comes column i. */
  lemma ColumnOfCells(cells: seq<BrickPosition>, col: seq<BrickPosition>, i: int)
    requires 0 <= i < Columns && |cells| == Columns * Rows && |col| == Rows
    requires forall b :: 0 <= b < Rows ==> col[b] == cells[i * Rows + b]
    ensures ColumnsBefore(cells, i + 1) == ColumnsBefore(cells, i) + col
  {
    var n := i * Rows;
    assert (i + 1) * Rows == n + Rows;
    forall t | 0 <= t < n + Rows
      ensures cells[..n + Rows][t] == (cells[..n] + col)[t]
    {
      if t >= n {
        assert col[t - n] == cells[n + (t - n)];
      }
    }
  }

  /** No columns before the first; all of them before the end. */
  lemma ColumnsBeforeEnds(cells: seq<BrickPosition>)
    requires |cells| == Columns * Rows
    ensures ColumnsBefore(cells, 0) == [] && ColumnsBefore(cells, Columns) == cells
  {
  }

  /** A scan kills exactly the bricks it counts as hits. */
  lemma {:induction false} StruckAllCount(cells: seq<BrickPosition>, ballX: int, ballY: int)
    ensures Alive(StruckAll(cells, ballX, ballY)) + Hits(cells, ballX, ballY) == Alive(cells)
  {
    if cells != [] {
      var n := |cells| - 1;
      StruckAllCount(cells[..n], ballX, ballY);
      assert StruckAll(cells, ballX, ballY)[..n] == StruckAll(cells[..n], ballX, ballY);
    }
  }

  /** A scan moves no brick and revives none. */
  lemma StruckAllKeepsLayout(cells: seq<BrickPosition>, ballX: int, ballY: int)
    requires InLayout(cells)
    ensures InLayout(StruckAll(cells, ballX, ballY))
    ensures forall k :: 0 <= k < |cells| && StruckAll(cells, ballX, ballY)[k].brickExists ==>
              cells[k].brickExists
  {
  }

  /** A scan that hits nothing leaves the wall as it was. */
  lemma StruckAllMissed(cells: seq<BrickPosition>, ballX: int, ballY: int)
    requires Hits(cells, ballX, ballY) == 0
    ensures StruckAll(cells, ballX, ballY) == cells
  {
    forall k | 0 <= k < |cells|
      ensures !HitBy(cells[k], ballX, ballY)
    {
      if HitBy(cells[k], ballX, ballY) {
        HitIsCounted(cells, ballX, ballY, k);
      }
    }
  }

  /** A wall whose bricks are all alive counts every cell. */
  lemma {:induction false} AllAliveCount(cells: seq<BrickPosition>)
    requires forall k :: 0 <= k < |cells| ==> cells[k].brickExists
    ensures Alive(cells) == |cells|
  {
    if cells != [] {
      AllAliveCount(cells[..|cells| - 1]);
    }
  }

  /** A live brick that contains the ball is counted by the scan. */
  lemma {:induction false} HitIsCounted(cells: seq<BrickPosition>, ballX: int, ballY: int, k: int)
    requires 0 <= k < |cells| && HitBy(cells[k], ballX, ballY)
    ensures Hits(cells, ballX, ballY) >= 1
  {
    var n := |cells| - 1;
    if k < n {
      HitIsCounted(cells[..n], ballX, ballY, k);
    }
  }

  /** If no cell other than index k can be hit, the scan hits at most once, and only if k is a cell. */
  lemma {:induction false} HitsOnlyAt(cells: seq<BrickPosition>, ballX: int, ballY: int, k: int)
    requires forall m :: 0 <= m < |cells| && HitBy(cells[m], ballX, ballY) ==> m == k
    ensures Hits(cells, ballX, ballY) <= (if 0 <= k < |cells| then 1 else 0)
  {
    if cells != [] {
      HitsOnlyAt(cells[..|cells| - 1], ballX, ballY, k);
    }
  }

  /** The layout brick containing a point is fixed by the point: column (x - 1) / 21, row (y - 15) / 6. */
  lemma LayoutCellOf(i: int, j: int, ballX: int, ballY: int)
    requires InBrick(ballX, ballY, 1 + 21 * i, 15 + 6 * j, BrickWidth, BrickHeight)
    ensures i == (ballX - 1) / 21 && j == (ballY - 15) / 6
  {
    var rx, ry := ballX - 1 - 21 * i, ballY - 15 - 6 * j;
    assert 0 <= rx < 21 && ballX - 1 == 21 * i + rx;
    assert 0 <= ry < 6 && ballY - 15 == 6 * j + ry;
  }

  /** Layout bricks do not overlap, so one scan hits at most one brick. */
  lemma LayoutHitsAtMostOne(cells: seq<BrickPosition>, ballX: int, ballY: int)
    requires InLayout(cells)
    ensures Hits(cells, ballX, ballY) <= 1
  {
    var k := ((ballX - 1) / 21) * Rows + (ballY - 15) / 6;
    forall m | 0 <= m < |cells| && HitBy(cells[m], ballX, ballY)
      ensures m == k
    {
      LayoutCellOf(m / Rows, m % Rows, ballX, ballY);
    }
    HitsOnlyAt(cells, ballX, ballY, k);
  }

  /** A ball inside the live layout brick (i, j) scores exactly that brick. */
  lemma SoleHit(cells: seq<BrickPosition>, ballX: int, ballY: int, i: int, j: int)
    requires InLayout(cells) && 0 <= i < Columns && 0 <= j < Rows
    requires cells[i * Rows + j].brickExists
    requires InBrick(ballX, ballY, 1 + 21 * i, 15 + 6 * j, BrickWidth, BrickHeight)
    ensures Hits(cells, ballX, ballY) == 1
    ensures !StruckAll(cells, ballX, ballY)[i * Rows + j].brickExists
  {
    var k := i * Rows + j;
    assert k / Rows == i && k % Rows == j;
    HitIsCounted(cells, ballX, ballY, k);
    LayoutHitsAtMostOne(cells, ballX, ballY);
  }

  /**
   * The score invariant: every point scored is a brick gone, on a wall
   * that keeps its layout.
   */
  ghost predicate ScoreMatches(points: int, cells: seq<BrickPosition>)
  {
    InLayout(cells) && points + Alive(cells) == Columns * Rows
  }

  /** A scan keeps the score invariant, and scores at most one point. */
  lemma ScanKeepsScore(points: int, cells: seq<BrickPosition>, ballX: int, ballY: int)
    requires ScoreMatches(points, cells)
    ensures ScoreMatches(points + Hits(cells, ballX, ballY), StruckAll(cells, ballX, ballY))
    ensures Hits(cells, ballX, ballY) <= 1
  {
    StruckAllCount(cells, ballX, ballY);
    StruckAllKeepsLayout(cells, ballX, ballY);
    LayoutHitsAtMostOne(cells, ballX, ballY);
  }
}
