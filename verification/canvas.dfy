/**
  The drawing surface as a scene: a map from the pixel origin of a painted
  50x50 cell to the colour it was last filled with. Drawing calls become
  updates of this map.
 */
module Canvas {
  import opened Options
  import opened Ranges
  import opened Dominance

  /** The three fill colours: `_defaultBlue`, `_chosenBlue` and `_gray`. */
  datatype Colour = Default | Chosen | Gray

  /** The top-left pixel of a painted cell. */
  datatype Origin = Origin(x: int, y: int)

  type Scene = map<Origin, Colour>

  /**
    The source's `Point` when it may hold missing coordinates: the result of
    mapping a click (a coordinate is `null` off the grid) and a pixel origin
    built by `_findRealCordsOfPoint` (a coordinate is `undefined` off the table).
   */
  datatype MaybePoint = MaybePoint(x: Option<int>, y: Option<int>)

  /**
    Where a fill at `p` lands. A missing coordinate reaches `fillRect` as NaN,
    and the canvas ignores a rectangle with a NaN argument.
   */
  function Spot(p: MaybePoint): Option<Origin> {
    if p.x.Some? && p.y.Some? then Some(Origin(p.x.value, p.y.value)) else None
  }

  /** The origins a sequence of fills lands on. */
  function Spots(ps: seq<MaybePoint>): set<Origin> {
    set p | p in ps && Spot(p).Some? :: Spot(p).value
  }

  /** The fills of `[p] + ps` land on the spot of `p`, if any, and on those of `ps`. */
  lemma {:induction false} SpotsCons(p: MaybePoint, ps: seq<MaybePoint>)
    ensures Spots([p]) == if Spot(p).Some? then {Spot(p).value} else {}
    ensures Spots([p] + ps) == Spots([p]) + Spots(ps)
  {
    assert forall q | q in [p] + ps :: q == p || q in ps;
  }

  /** `_colorPoint`: fill the 50x50 cell at `p` with colour `c`. */
  function ColorPoint(s: Scene, p: MaybePoint, c: Colour): (r: Scene)
    ensures Spot(p).None? ==> r == s
    ensures Spot(p).Some? ==> r.Keys == s.Keys + {Spot(p).value} && r[Spot(p).value] == c
    ensures forall o | o in s && Some(o) != Spot(p) :: o in r && r[o] == s[o]
  {
    match Spot(p)
    case None => s
    case Some(o) => s[o := c]
  }

  /** `_colorPoint` applied to every point of a list in turn: every fill lands, the rest of the scene is kept. */
  function ColorPoints(s: Scene, ps: seq<MaybePoint>, c: Colour): (r: Scene)
    ensures r.Keys == s.Keys + Spots(ps)
    ensures forall o | o in r :: r[o] == if o in Spots(ps) then c else s[o]
    decreases |ps|
  {
    if |ps| == 0 then s
    else
      assert Spots(ps) == Spots(ps[1..]) + (if Spot(ps[0]).Some? then {Spot(ps[0]).value} else {}) by {
        assert forall p | p in ps :: p == ps[0] || p in ps[1..];
      }
      ColorPoints(ColorPoint(s, ps[0], c), ps[1..], c)
  }

  /** The pixel origin of a cell: each coordinate looked up on its own axis by `_findRealCordsOfPoint`. */
  function OriginOf(p: Point): (r: MaybePoint)
    ensures Spot(r).Some? <==> OnGrid(p)
    ensures Spot(r).Some? ==> Spot(r).value == CellOrigin(p)
  {
    MaybePoint(FindRealCordsOfPoint(X, p.x), FindRealCordsOfPoint(Y, p.y))
  }

  /** The reference origin of a grid cell. */
  function CellOrigin(p: Point): Origin {
    Origin(CellMin(X, p.x), CellMin(Y, p.y))
  }

  /** The 25 cell origins of the grid. */
  ghost const CellOrigins: set<Origin> := set x, y | 1 <= x <= 5 && 1 <= y <= 5 :: CellOrigin(Point(x, y))

  /** Distinct cells have distinct origins. */
  lemma CellOriginInjective(p: Point, q: Point)
    requires CellOrigin(p) == CellOrigin(q)
    ensures p == q
  {
  }

  /** The column coordinates `_drawBlocksCol` iterates over. */
  const XCordsOfColumns: seq<int> := [29, 83, 137, 191, 245]
  const YCordsOfColumns: seq<int> := [13, 67, 121, 175, 229]

  /** The fills of one column of `_drawBlocksCol`: cell `x` at every `y`. */
  function Column(x: int, ys: seq<int>): (r: seq<MaybePoint>)
    ensures forall o :: o in Spots(r) <==> o.x == x && o.y in ys
  {
    var r := seq(|ys|, i requires 0 <= i < |ys| => MaybePoint(Some(x), Some(ys[i])));
    assert forall y | y in ys :: Spot(r[IndexOf(ys, y)]) == Some(Origin(x, y));
    r
  }

  function IndexOf(ys: seq<int>, y: int): (i: nat)
    requires y in ys
    ensures i < |ys| && ys[i] == y
  {
    if ys[0] == y then 0 else 1 + IndexOf(ys[1..], y)
  }

  /** The nested `forEach` of `_drawBlocksCol`: paint the cross product of `xs` and `ys` default. */
  function PaintColumns(s: Scene, xs: seq<int>, ys: seq<int>): (r: Scene)
    ensures forall o :: o in r <==> o in s || (o.x in xs && o.y in ys)
    ensures forall o | o in r :: r[o] == if o.x in xs && o.y in ys then Default else s[o]
    decreases |xs|
  {
    if |xs| == 0 then s
    else
      assert forall x | x in xs :: x == xs[0] || x in xs[1..];
      PaintColumns(ColorPoints(s, Column(xs[0], ys), Default), xs[1..], ys)
  }

  /** `_drawBlocksCol`: every one of the 25 cells of the canvas `s` painted default. */
  function DrawBlocksCol(s: Scene): (r: Scene)
    ensures forall o :: o in r <==> o in s || (o.x in XCordsOfColumns && o.y in YCordsOfColumns)
    ensures forall o | o in r :: r[o] == if o.x in XCordsOfColumns && o.y in YCordsOfColumns then Default else s[o]
  {
    PaintColumns(s, XCordsOfColumns, YCordsOfColumns)
  }

  /** A pixel is a column coordinate of `_drawBlocksCol` exactly when it is the origin of a block on x. */
  lemma XColumnIsCellMin(v: int)
    ensures v in XCordsOfColumns <==> exists b | 1 <= b <= 5 :: v == CellMin(X, b)
  {
    if v in XCordsOfColumns {
      assert v == CellMin(X, (v - 29) / 54 + 1);
    }
  }

  /** A pixel is a row coordinate of `_drawBlocksCol` exactly when it is the origin of a block on y. */
  lemma YColumnIsCellMin(v: int)
    ensures v in YCordsOfColumns <==> exists b | 1 <= b <= 5 :: v == CellMin(Y, b)
  {
    if v in YCordsOfColumns {
      assert v == CellMin(Y, 5 - (v - 13) / 54);
    }
  }

  /**
    The columns `_drawBlocksCol` paints are exactly the cross product of the
    range `min`s of the two tables, that is the 25 cell origins.
   */
  lemma ColumnsAreTableMins()
    ensures XCordsOfColumns == seq(5, i requires 0 <= i < 5 => XRanges[i].min)
    ensures YCordsOfColumns == seq(5, i requires 0 <= i < 5 => YRanges[i].min)
  {
  }

  /** A cell origin is a pair of column coordinates of `_drawBlocksCol`. */
  lemma {:induction false} CellOriginMember(o: Origin)
    ensures o in CellOrigins <==> o.x in XCordsOfColumns && o.y in YCordsOfColumns
  {
    XColumnIsCellMin(o.x);
    YColumnIsCellMin(o.y);
    if o.x in XCordsOfColumns && o.y in YCordsOfColumns {
      var cx :| 1 <= cx <= 5 && o.x == CellMin(X, cx);
      var cy :| 1 <= cy <= 5 && o.y == CellMin(Y, cy);
      assert o == CellOrigin(Point(cx, cy));
    }
  }

  /** The cell origins are exactly the cross product of the column coordinates. */
  lemma CellOriginsAreColumns()
    ensures forall o :: o in CellOrigins <==> o.x in XCordsOfColumns && o.y in YCordsOfColumns
  {
    forall o
      ensures o in CellOrigins <==> o.x in XCordsOfColumns && o.y in YCordsOfColumns
    {
      CellOriginMember(o);
    }
  }

  /** `_drawBlocksCol` adds exactly the 25 cell origins to the canvas and paints them default. */
  lemma {:induction false} DrawBlocksColCoversGrid(s: Scene)
    ensures DrawBlocksCol(s).Keys == s.Keys + CellOrigins
    ensures forall o | o in DrawBlocksCol(s) :: DrawBlocksCol(s)[o] == if o in CellOrigins then Default else s[o]
  {
    CellOriginsAreColumns();
  }
}
