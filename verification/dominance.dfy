/**
  The "dominated" cells of a chosen cell: the L-shaped region to its left in the
  same row and below it in the same column, which `_calcAndColorGrayBlocks`
  shades gray.
 */
module Dominance {

  /** A grid cell address; the source's `Point` when it holds block indices. */
  datatype Point = Point(x: int, y: int)

  /** The 25 cells of the 5x5 grid. */
  ghost predicate OnGrid(p: Point) {
    1 <= p.x <= 5 && 1 <= p.y <= 5
  }

  /** Independent description of the region: same row and left of `c`, or same column and below `c`. */
  ghost predicate Dominated(c: Point, d: Point) {
    || (d.y == c.y && 1 <= d.x < c.x)
    || (d.x == c.x && 1 <= d.y < c.y)
  }

  ghost predicate NoDuplicates<T>(s: seq<T>) {
    forall i, j | 0 <= i < j < |s| :: s[i] != s[j]
  }

  /** The length of an array JavaScript builds from a requested length: a negative request gives an empty array. */
  function ArrayLength(length: int): nat {
    if length < 0 then 0 else length
  }

  /** The array of the numbers 1 up to `length`, built from its length and each index plus one. */
  function OneTo(length: int): (r: seq<int>)
    ensures |r| == ArrayLength(length)
    ensures forall k | 0 <= k < |r| :: r[k] == k + 1
  {
    seq(ArrayLength(length), k => k + 1)
  }

  /**
    The cell list of `_calcAndColorGrayBlocks`: the cells left of `c` in its
    row, from column 1, followed by the cells below `c` in its column, from
    row 1.
   */
  function CalcGrayBlocks(c: Point): (r: seq<Point>)
    ensures |r| == ArrayLength(c.x - 1) + ArrayLength(c.y - 1)
    ensures forall k | 0 <= k < ArrayLength(c.x - 1) :: r[k] == Point(k + 1, c.y)
    ensures forall k | ArrayLength(c.x - 1) <= k < |r| :: r[k] == Point(c.x, k - ArrayLength(c.x - 1) + 1)
  {
    var arrOfX := OneTo(c.x - 1);
    var arrOfY := OneTo(c.y - 1);
    var dotsX := seq(|arrOfX|, k requires 0 <= k < |arrOfX| => Point(arrOfX[k], c.y));
    var dotsY := seq(|arrOfY|, k requires 0 <= k < |arrOfY| => Point(c.x, arrOfY[k]));
    dotsX + dotsY
  }

  /**
    The list holds exactly the dominated cells, each once, and never the
    chosen cell itself.
   */
  lemma {:induction false} GrayBlocksAreDominated(c: Point)
    ensures forall d :: d in CalcGrayBlocks(c) <==> Dominated(c, d)
    ensures c !in CalcGrayBlocks(c)
    ensures NoDuplicates(CalcGrayBlocks(c))
  {
    var r := CalcGrayBlocks(c);
    var n := ArrayLength(c.x - 1);
    forall d | Dominated(c, d)
      ensures d in r
    {
      if d.y == c.y && 1 <= d.x < c.x {
        assert r[d.x - 1] == d;
      } else {
        assert r[n + d.y - 1] == d;
      }
    }
  }

  /** The region stays on the grid and has (cx-1)+(cy-1) cells for a chosen cell on the grid. */
  lemma GrayBlocksOnGrid(c: Point)
    requires OnGrid(c)
    ensures |CalcGrayBlocks(c)| == (c.x - 1) + (c.y - 1)
    ensures forall d | d in CalcGrayBlocks(c) :: OnGrid(d)
  {
  }

  /** The two worked examples: (3,3) shades four cells, (1,1) shades none. */
  lemma GrayBlocksExamples()
    ensures CalcGrayBlocks(Point(3, 3)) == [Point(1, 3), Point(2, 3), Point(3, 1), Point(3, 2)]
    ensures CalcGrayBlocks(Point(1, 1)) == []
  {
  }
}
