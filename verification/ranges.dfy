/**
  The two fixed range tables of the risk matrix and the two conversions between
  pixels and block indices built on them: a pixel maps to the block whose range
  strictly contains it, and a block maps back to the `min` of its range, the
  pixel origin of the cell on that axis.
 */
module Ranges {
  import opened Options

  /** A pixel interval on one axis belonging to block `block`; both bounds are excluded. */
  datatype BlockRange = BlockRange(min: int, max: int, block: int) {

    /** The comparison the conversion uses: the pixel lies strictly between `min` and `max`. */
    predicate Holds(cord: int) {
      min < cord && cord < max
    }
  }

  datatype Axis = X | Y

  /** Horizontal ranges: pixels grow left to right, and so do blocks. */
  const XRanges: seq<BlockRange> := [
    BlockRange(29, 79, 1),
    BlockRange(83, 133, 2),
    BlockRange(137, 187, 3),
    BlockRange(191, 241, 4),
    BlockRange(245, 295, 5)
  ]

  /** Vertical ranges: pixels grow downwards, so the top row is block 5. */
  const YRanges: seq<BlockRange> := [
    BlockRange(13, 63, 5),
    BlockRange(67, 117, 4),
    BlockRange(121, 171, 3),
    BlockRange(175, 225, 2),
    BlockRange(229, 279, 1)
  ]

  /** The component's `blocksInOwnCordSystem` field, indexed by axis. */
  function BlocksInOwnCordSystem(axis: Axis): seq<BlockRange> {
    match axis
    case X => XRanges
    case Y => YRanges
  }

  /** Width and height of a cell in pixels. */
  const CellSize: int := 50

  /**
    Reference geometry, independent of the tables: five 50-pixel cells per axis
    separated by 4-pixel gaps, starting at pixel 29 on x and at pixel 13 on y,
    with the y blocks numbered from the bottom.
   */
  function CellMin(axis: Axis, block: int): int {
    match axis
    case X => 29 + 54 * (block - 1)
    case Y => 13 + 54 * (5 - block)
  }

  /** Index `i` is the last entry of `t` whose range strictly contains `cord`. */
  ghost predicate LastMatch(t: seq<BlockRange>, cord: int, i: int) {
    && 0 <= i < |t|
    && t[i].Holds(cord)
    && forall j | i < j < |t| :: !t[j].Holds(cord)
  }

  /** No pixel lies strictly inside two ranges of `t`. */
  ghost predicate Disjoint(t: seq<BlockRange>) {
    forall i, j | 0 <= i < j < |t| :: t[i].max <= t[j].min || t[j].max <= t[i].min
  }

  /**
    The `forEach` of `_convertCordToBlockCord`: every entry whose range holds
    `cord` overwrites the accumulated result, so the last match wins.
   */
  function ScanRanges(t: seq<BlockRange>, cord: int, acc: Option<int>): (r: Option<int>)
    ensures (forall i | 0 <= i < |t| :: !t[i].Holds(cord)) ==> r == acc
    ensures forall i | LastMatch(t, cord, i) :: r == Some(t[i].block)
    decreases |t|
  {
    if |t| == 0 then acc
    else
      var acc' := if t[0].Holds(cord) then Some(t[0].block) else acc;
      assert forall i | 0 < i < |t| && LastMatch(t, cord, i) :: LastMatch(t[1..], cord, i - 1);
      ScanRanges(t[1..], cord, acc')
  }

  lemma {:induction false} LastMatchExists(t: seq<BlockRange>, cord: int, k: int)
    requires 0 <= k < |t| && t[k].Holds(cord)
    ensures exists i :: LastMatch(t, cord, i)
    decreases |t| - k
  {
    if forall j | k < j < |t| :: !t[j].Holds(cord) {
      assert LastMatch(t, cord, k);
    } else {
      var j :| k < j < |t| && t[j].Holds(cord);
      LastMatchExists(t, cord, j);
    }
  }

  /**
    `_convertCordToBlockCord`: the block of the last range that strictly
    contains `cord`, or `None` (the source's `null`) when no range does.
   */
  function ConvertCordToBlockCord(t: seq<BlockRange>, cord: int): (r: Option<int>)
    ensures r.None? <==> forall i | 0 <= i < |t| :: !t[i].Holds(cord)
    ensures r.Some? ==> exists i :: LastMatch(t, cord, i) && r.value == t[i].block
  {
    var r := ScanRanges(t, cord, None);
    if exists k :: 0 <= k < |t| && t[k].Holds(cord) then
      var k :| 0 <= k < |t| && t[k].Holds(cord);
      LastMatchExists(t, cord, k);
      r
    else
      r
  }

  /** The mins of the entries for `block`, with falsy ones dropped: the `map` and `filter` of `_findRealCordsOfPoint`. */
  function TruthyMins(t: seq<BlockRange>, block: int): (r: seq<int>)
    ensures forall v :: v in r <==> exists i | 0 <= i < |t| :: t[i].block == block && t[i].min != 0 && t[i].min == v
    decreases |t|
  {
    if |t| == 0 then []
    else
      var rest := TruthyMins(t[1..], block);
      assert forall i | 0 < i < |t| :: t[i] == t[1..][i - 1];
      if t[0].block == block && t[0].min != 0 then [t[0].min] + rest else rest
  }

  /**
    `_findRealCordsOfPoint`: the `min` of the range of `axis` whose block is
    `block`, or `None` (the source's `undefined`) when there is none.
   */
  function FindRealCordsOfPoint(axis: Axis, block: int): (r: Option<int>)
    ensures r.Some? <==> 1 <= block <= 5
    ensures r.Some? ==> r.value == CellMin(axis, block)
  {
    var mins := TruthyMins(BlocksInOwnCordSystem(axis), block);
    if |mins| > 0 then Some(mins[0]) else None
  }

  /** Every entry of either table is the reference cell of its block. */
  lemma TableGeometry(axis: Axis)
    ensures |BlocksInOwnCordSystem(axis)| == 5
    ensures forall i | 0 <= i < 5 :: var e := BlocksInOwnCordSystem(axis)[i];
      1 <= e.block <= 5 && e.min == CellMin(axis, e.block) && e.max == e.min + CellSize
    ensures forall i, j | 0 <= i < j < 5 :: BlocksInOwnCordSystem(axis)[i].block != BlocksInOwnCordSystem(axis)[j].block
  {
  }

  /** The ranges of both axes are pairwise disjoint, so "last match wins" returns the only match. */
  lemma TablesDisjoint(axis: Axis)
    ensures Disjoint(BlocksInOwnCordSystem(axis))
  {
  }

  /** On a disjoint table the result is the block of any range that holds the pixel. */
  lemma {:induction false} UniqueMatch(t: seq<BlockRange>, cord: int, i: int)
    requires Disjoint(t)
    requires 0 <= i < |t| && t[i].Holds(cord)
    ensures ConvertCordToBlockCord(t, cord) == Some(t[i].block)
  {
    var r := ConvertCordToBlockCord(t, cord);
    var k :| LastMatch(t, cord, k) && r.value == t[k].block;
    if k != i {
      assert false;
    }
  }

  /**
    Pixel to block against the reference geometry: a pixel maps to block `b`
    exactly when it lies strictly inside cell `b` of that axis.
   */
  lemma {:induction false} PixelToBlock(axis: Axis, cord: int, b: int)
    ensures ConvertCordToBlockCord(BlocksInOwnCordSystem(axis), cord) == Some(b)
        <==> 1 <= b <= 5 && CellMin(axis, b) < cord < CellMin(axis, b) + CellSize
  {
    var t := BlocksInOwnCordSystem(axis);
    TableGeometry(axis);
    TablesDisjoint(axis);
    if 1 <= b <= 5 && CellMin(axis, b) < cord < CellMin(axis, b) + CellSize {
      var i := if axis == X then b - 1 else 5 - b;
      assert t[i].block == b;
      UniqueMatch(t, cord, i);
    }
    var r := ConvertCordToBlockCord(t, cord);
    if r == Some(b) {
      var k :| LastMatch(t, cord, k) && b == t[k].block;
    }
  }

  /**
    A pixel maps to no block exactly when it lies in no cell: on a boundary, in
    a 4-pixel gap, or outside the grid.
   */
  lemma {:induction false} PixelToNull(axis: Axis, cord: int)
    ensures ConvertCordToBlockCord(BlocksInOwnCordSystem(axis), cord) == None
        <==> forall b | 1 <= b <= 5 :: !(CellMin(axis, b) < cord < CellMin(axis, b) + CellSize)
  {
    var r := ConvertCordToBlockCord(BlocksInOwnCordSystem(axis), cord);
    forall b | 1 <= b <= 5
      ensures r == Some(b) <==> CellMin(axis, b) < cord < CellMin(axis, b) + CellSize
    {
      PixelToBlock(axis, cord, b);
    }
    if r.Some? {
      PixelToBlock(axis, cord, r.value);
    }
  }

  /** Pixels outside [29,295] on x or [13,279] on y, on a bound, or in a gap map to `None`. */
  lemma OffGridPixels(cord: int)
    ensures cord <= 29 || cord >= 295 ==> ConvertCordToBlockCord(XRanges, cord) == None
    ensures cord <= 13 || cord >= 279 ==> ConvertCordToBlockCord(YRanges, cord) == None
    ensures 79 <= cord <= 83 ==> ConvertCordToBlockCord(XRanges, cord) == None
    ensures 63 <= cord <= 67 ==> ConvertCordToBlockCord(YRanges, cord) == None
  {
    PixelToNull(X, cord);
    PixelToNull(Y, cord);
  }

  /** Larger pixels never map to smaller blocks on x, and never to larger blocks on y. */
  lemma {:induction false} AxisOrder(p: int, q: int)
    requires p <= q
    ensures var bp, bq := ConvertCordToBlockCord(XRanges, p), ConvertCordToBlockCord(XRanges, q);
      bp.Some? && bq.Some? ==> bp.value <= bq.value
    ensures var bp, bq := ConvertCordToBlockCord(YRanges, p), ConvertCordToBlockCord(YRanges, q);
      bp.Some? && bq.Some? ==> bp.value >= bq.value
  {
    var xp, xq := ConvertCordToBlockCord(XRanges, p), ConvertCordToBlockCord(XRanges, q);
    if xp.Some? && xq.Some? {
      PixelToBlock(X, p, xp.value);
      PixelToBlock(X, q, xq.value);
    }
    var yp, yq := ConvertCordToBlockCord(YRanges, p), ConvertCordToBlockCord(YRanges, q);
    if yp.Some? && yq.Some? {
      PixelToBlock(Y, p, yp.value);
      PixelToBlock(Y, q, yq.value);
    }
  }

  /**
    Round trip through the block index: a pixel strictly inside a range maps
    to a block whose origin is that range's `min`.
   */
  lemma {:induction false} PixelBlockOrigin(axis: Axis, cord: int, i: int)
    requires 0 <= i < |BlocksInOwnCordSystem(axis)|
    requires BlocksInOwnCordSystem(axis)[i].Holds(cord)
    ensures var b := ConvertCordToBlockCord(BlocksInOwnCordSystem(axis), cord);
      b.Some? && FindRealCordsOfPoint(axis, b.value) == Some(BlocksInOwnCordSystem(axis)[i].min)
  {
    TableGeometry(axis);
    TablesDisjoint(axis);
    UniqueMatch(BlocksInOwnCordSystem(axis), cord, i);
  }

  /**
    The other round trip: every pixel strictly inside the cell whose origin
    `_findRealCordsOfPoint` returns for block `b` maps back to `b`.
   */
  lemma {:induction false} OriginBlockPixel(axis: Axis, b: int, cord: int)
    requires FindRealCordsOfPoint(axis, b).Some?
    requires var o := FindRealCordsOfPoint(axis, b).value; o < cord < o + CellSize
    ensures ConvertCordToBlockCord(BlocksInOwnCordSystem(axis), cord) == Some(b)
  {
    PixelToBlock(axis, cord, b);
  }
}
