/**
  The selection state of the risk-matrix widget and its two transitions: a
  click on the canvas and an externally supplied initial risk.
 */
module RiskMatrix {
  import opened Options
  import opened Ranges
  import opened Dominance
  import opened Canvas

  /**
    The widget's fields: `_currentPoint` (pixel origin of the chosen cell, or
    `None` for `null`), `_currentGrayPoints` (pixel origins of the shaded cells)
    and the canvas.
   */
  datatype Widget = Widget(current: Option<MaybePoint>, gray: seq<MaybePoint>, scene: Scene)

  /** A click's outcome: the new widget and the value passed to `chooseRisk.emit`, if any. */
  datatype ClickResult = ClickResult(widget: Widget, emitted: Option<Point>)

  /** The tables `_mapPointToMyCordSystem` declares locally. */
  const BlockRangesForX: seq<BlockRange> := [
    BlockRange(29, 79, 1),
    BlockRange(83, 133, 2),
    BlockRange(137, 187, 3),
    BlockRange(191, 241, 4),
    BlockRange(245, 295, 5)
  ]

  const BlockRangesForY: seq<BlockRange> := [
    BlockRange(13, 63, 5),
    BlockRange(67, 117, 4),
    BlockRange(121, 171, 3),
    BlockRange(175, 225, 2),
    BlockRange(229, 279, 1)
  ]

  /** The local tables are the field `blocksInOwnCordSystem`. */
  lemma LocalTablesAgree()
    ensures BlockRangesForX == BlocksInOwnCordSystem(X)
    ensures BlockRangesForY == BlocksInOwnCordSystem(Y)
  {
  }

  lemma BlockOfPixel(axis: Axis, cord: int)
    ensures forall b ::
      (ConvertCordToBlockCord(BlocksInOwnCordSystem(axis), cord) == Some(b)
       <==> 1 <= b <= 5 && CellMin(axis, b) < cord < CellMin(axis, b) + CellSize)
  {
    forall b
      ensures ConvertCordToBlockCord(BlocksInOwnCordSystem(axis), cord) == Some(b)
        <==> 1 <= b <= 5 && CellMin(axis, b) < cord < CellMin(axis, b) + CellSize
    {
      PixelToBlock(axis, cord, b);
    }
  }

  /**
    `_mapPointToMyCordSystem`: the cell a click at pixel (x, y) falls in, each
    coordinate `None` when that pixel lies in no cell of its axis.
   */
  function MapPointToMyCordSystem(x: int, y: int): (r: MaybePoint)
    ensures forall b :: r.x == Some(b) <==> 1 <= b <= 5 && CellMin(X, b) < x < CellMin(X, b) + CellSize
    ensures forall b :: r.y == Some(b) <==> 1 <= b <= 5 && CellMin(Y, b) < y < CellMin(Y, b) + CellSize
  {
    BlockOfPixel(X, x);
    BlockOfPixel(Y, y);
    MaybePoint(ConvertCordToBlockCord(BlockRangesForX, x), ConvertCordToBlockCord(BlockRangesForY, y))
  }

  /** `_cleanUpPreviousPoint`: repaint the chosen cell default and forget it. */
  function CleanUpPreviousPoint(w: Widget): Widget
    requires w.current.Some?
  {
    Widget(None, w.gray, ColorPoint(w.scene, w.current.value, Default))
  }

  /** `_cleanUpGrayPoints`: repaint the shaded cells default and forget them. */
  function CleanUpGrayPoints(w: Widget): Widget {
    Widget(w.current, [], ColorPoints(w.scene, w.gray, Default))
  }

  /** `_drawChosenPoint`: remember `cords` as the chosen origin and paint it. */
  function DrawChosenPoint(w: Widget, cords: MaybePoint): Widget {
    Widget(Some(cords), w.gray, ColorPoint(w.scene, cords, Chosen))
  }

  /** The pixel origins of the cells dominated by `p`, in the order `_calcAndColorGrayBlocks` builds them. */
  function GrayOrigins(p: Point): (r: seq<MaybePoint>)
    ensures |r| == |CalcGrayBlocks(p)|
    ensures forall k | 0 <= k < |r| :: r[k] == OriginOf(CalcGrayBlocks(p)[k])
  {
    var cells := CalcGrayBlocks(p);
    seq(|cells|, k requires 0 <= k < |cells| => OriginOf(cells[k]))
  }

  /** `_calcAndColorGrayBlocks`: remember the dominated origins of `p` and paint them gray. */
  function CalcAndColorGrayBlocks(w: Widget, p: Point): Widget {
    Widget(w.current, GrayOrigins(p), ColorPoints(w.scene, GrayOrigins(p), Gray))
  }

  /** The first pipeline step after mapping: clean up only when a point is chosen. */
  function CleanUpIfChosen(w: Widget): Widget {
    if w.current.Some? then CleanUpGrayPoints(CleanUpPreviousPoint(w)) else w
  }

  /**
    The click pipeline of `captureEvents`: map the pixel to a cell, clean up
    the previous selection whatever the cell, then, only when both coordinates
    are present, paint the chosen cell, emit it and paint its dominated cells.
   */
  function Click(w: Widget, offsetX: int, offsetY: int): (r: ClickResult)
    ensures var point := MapPointToMyCordSystem(offsetX, offsetY);
      r.emitted.Some? <==> point.x.Some? && point.y.Some?
    ensures r.emitted.Some? ==> var p := r.emitted.value;
      && OnGrid(p)
      && CellMin(X, p.x) < offsetX < CellMin(X, p.x) + CellSize
      && CellMin(Y, p.y) < offsetY < CellMin(Y, p.y) + CellSize
    ensures r.emitted.None? ==> r.widget.current.None?
  {
    var point := MapPointToMyCordSystem(offsetX, offsetY);
    var w1 := CleanUpIfChosen(w);
    if point.x.None? || point.y.None? then
      ClickResult(w1, None)
    else
      var p := Point(point.x.value, point.y.value);
      var w2 := DrawChosenPoint(w1, OriginOf(p));
      ClickResult(CalcAndColorGrayBlocks(w2, p), Some(p))
  }

  /**
    `ngOnChanges` for `initialRisk`: with a point, paint it chosen and its
    dominated cells gray and remember both, without cleaning up first and
    without emitting; with `null`, do nothing.
   */
  function NgOnChanges(w: Widget, initialRisk: Option<Point>): Widget {
    match initialRisk
    case None => w
    case Some(p) => CalcAndColorGrayBlocks(DrawChosenPoint(w, OriginOf(p)), p)
  }

  /** `ngOnInit` on a blank canvas: nothing chosen and the 25 cells painted default. */
  function NgOnInit(): Widget {
    Widget(None, [], DrawBlocksCol(map[]))
  }

  // ---------------------------------------------------------------------------
  // The scene a selection should leave

  /** The origins of the cells of the grid dominated by `c`. */
  ghost function DominatedOrigins(c: Point): set<Origin> {
    set x, y | 1 <= x <= 5 && 1 <= y <= 5 && Dominated(c, Point(x, y)) :: CellOrigin(Point(x, y))
  }

  /** The canvas holds the 25 cells, every one default. */
  ghost predicate IsBlank(s: Scene) {
    && s.Keys == CellOrigins
    && forall o | o in s :: s[o] == Default
  }

  /** The colour cell origin `o` has when `c` is selected: `c` chosen, the cells it dominates gray, the rest default. */
  ghost function SelectionColour(c: Point, o: Origin): Colour {
    if o == CellOrigin(c) then Chosen else if o in DominatedOrigins(c) then Gray else Default
  }

  /** The canvas holds the 25 cells, coloured as the selection of `c` demands. */
  ghost predicate ShowsSelection(s: Scene, c: Point) {
    && s.Keys == CellOrigins
    && forall o | o in s :: s[o] == SelectionColour(c, o)
  }

  /** The origins the next clean-up repaints. */
  ghost function Covered(w: Widget): set<Origin> {
    if w.current.None? then {} else Spots([w.current.value] + w.gray)
  }

  /**
    What the widget keeps between events: the canvas holds the 25 cells, no
    gray list survives without a chosen point, the only chosen cell is the
    remembered chosen origin and every gray cell is a remembered gray origin.
   */
  ghost predicate Consistent(w: Widget) {
    && w.scene.Keys == CellOrigins
    && Covered(w) <= CellOrigins
    && (w.current.None? ==> w.gray == [])
    && (forall o | o in w.scene && w.scene[o] == Chosen :: w.current.Some? && Spot(w.current.value) == Some(o))
    && (forall o | o in w.scene && w.scene[o] == Gray :: w.current.Some? && o in Spots(w.gray))
  }

  // ---------------------------------------------------------------------------
  // Properties

  /** The widget starts with nothing chosen and every cell default. */
  lemma {:induction false} InitIsBlank()
    ensures NgOnInit().current == None && NgOnInit().gray == []
    ensures IsBlank(NgOnInit().scene)
    ensures Consistent(NgOnInit())
  {
    DrawOnBlank(map[]);
  }

  /** `_drawBlocksCol` on a canvas without cells paints the blank grid. */
  lemma {:induction false} DrawOnBlank(s: Scene)
    requires s.Keys == {}
    ensures IsBlank(DrawBlocksCol(s))
  {
    DrawBlocksColCoversGrid(s);
  }

  /** For a cell on the grid the stored gray origins are all defined and land exactly on the dominated cells. */
  lemma {:induction false} GrayOriginsLand(c: Point)
    requires OnGrid(c)
    ensures Spots(GrayOrigins(c)) == DominatedOrigins(c)
    ensures CellOrigin(c) !in DominatedOrigins(c)
    ensures DominatedOrigins(c) <= CellOrigins
  {
    var cells := CalcGrayBlocks(c);
    var gs := GrayOrigins(c);
    GrayBlocksAreDominated(c);
    GrayBlocksOnGrid(c);
    forall o | o in Spots(gs)
      ensures o in DominatedOrigins(c)
    {
      var g :| g in gs && Spot(g).Some? && Spot(g).value == o;
      var k :| 0 <= k < |gs| && gs[k] == g;
      var d := cells[k];
      assert d in cells;
      assert o == CellOrigin(Point(d.x, d.y));
    }
    forall o | o in DominatedOrigins(c)
      ensures o in Spots(gs)
    {
      var x, y :| 1 <= x <= 5 && 1 <= y <= 5 && Dominated(c, Point(x, y)) && CellOrigin(Point(x, y)) == o;
      var d := Point(x, y);
      assert d in cells;
      var k :| 0 <= k < |cells| && cells[k] == d;
      assert gs[k] in gs;
    }
  }

  /** Painting a cell chosen and its dominated cells gray onto a blank grid shows that selection. */
  lemma {:induction false} PaintSelection(s: Scene, c: Point)
    requires IsBlank(s)
    requires OnGrid(c)
    ensures ShowsSelection(ColorPoints(ColorPoint(s, OriginOf(c), Chosen), GrayOrigins(c), Gray), c)
  {
    GrayOriginsLand(c);
  }

  /** On a consistent widget the clean-up step leaves nothing chosen and every cell default. */
  lemma {:induction false} CleanUpBlanks(w: Widget)
    requires Consistent(w)
    ensures CleanUpIfChosen(w).current == None && CleanUpIfChosen(w).gray == []
    ensures IsBlank(CleanUpIfChosen(w).scene)
  {
    if w.current.Some? {
      assert Spots([w.current.value] + w.gray) == Spots([w.current.value]) + Spots(w.gray);
    }
  }

  /**
    A click that maps to `null` on either axis still runs the clean-up: the
    previous chosen and gray cells are repainted default, both are forgotten,
    nothing new is painted and nothing is emitted.
   */
  lemma {:induction false} ClickInvalid(w: Widget, offsetX: int, offsetY: int)
    requires var point := MapPointToMyCordSystem(offsetX, offsetY); point.x.None? || point.y.None?
    ensures var r := Click(w, offsetX, offsetY);
      && r.emitted.None?
      && r.widget.current.None?
      && r.widget.gray == (if w.current.Some? then [] else w.gray)
      && r.widget.scene.Keys == w.scene.Keys + Covered(w)
      && forall o | o in r.widget.scene :: r.widget.scene[o] == if o in Covered(w) then Default else w.scene[o]
  {
    if w.current.Some? {
      assert Spots([w.current.value] + w.gray) == Spots([w.current.value]) + Spots(w.gray);
    }
  }

  /** From a consistent widget an invalid click leaves the widget as it starts: nothing chosen, every cell default. */
  lemma {:induction false} InvalidClickBlanks(w: Widget, offsetX: int, offsetY: int)
    requires Consistent(w)
    requires var point := MapPointToMyCordSystem(offsetX, offsetY); point.x.None? || point.y.None?
    ensures var r := Click(w, offsetX, offsetY);
      && r.emitted.None?
      && r.widget.current.None? && r.widget.gray == []
      && IsBlank(r.widget.scene)
      && Consistent(r.widget)
  {
    CleanUpBlanks(w);
  }

  /**
    Drawing the selection of a cell on the grid (`_drawChosenPoint` then
    `_calcAndColorGrayBlocks`) onto a blank widget remembers the cell's origin
    and dominated origins and shows exactly that selection.
   */
  lemma {:induction false} SelectOnBlank(w: Widget, c: Point)
    requires w.current.None? && w.gray == [] && IsBlank(w.scene)
    requires OnGrid(c)
    ensures var r := CalcAndColorGrayBlocks(DrawChosenPoint(w, OriginOf(c)), c);
      && r.current == Some(OriginOf(c))
      && Spot(OriginOf(c)) == Some(CellOrigin(c))
      && r.gray == GrayOrigins(c)
      && ShowsSelection(r.scene, c)
      && Consistent(r)
  {
    PaintSelection(w.scene, c);
    SelectionIsConsistent(CalcAndColorGrayBlocks(DrawChosenPoint(w, OriginOf(c)), c), c);
  }

  /** A widget remembering the selection of a grid cell and showing it is consistent. */
  lemma {:induction false} SelectionIsConsistent(w: Widget, c: Point)
    requires OnGrid(c)
    requires w.current == Some(OriginOf(c)) && w.gray == GrayOrigins(c)
    requires ShowsSelection(w.scene, c)
    ensures Consistent(w)
  {
    GrayOriginsLand(c);
    assert Spots([OriginOf(c)] + GrayOrigins(c)) == Spots([OriginOf(c)]) + Spots(GrayOrigins(c));
    ConsistentFromParts(w, CellOrigin(c), DominatedOrigins(c));
  }

  /** A widget whose canvas shows exactly its remembered chosen origin and gray origins is consistent. */
  lemma {:induction false} ConsistentFromParts(w: Widget, chosen: Origin, gray: set<Origin>)
    requires w.current.Some? && Spot(w.current.value) == Some(chosen) && Spots(w.gray) == gray
    requires chosen in CellOrigins && gray <= CellOrigins
    requires Spots([w.current.value] + w.gray) == Spots([w.current.value]) + Spots(w.gray)
    requires w.scene.Keys == CellOrigins
    requires forall o | o in w.scene :: w.scene[o] == if o == chosen then Chosen else if o in gray then Gray else Default
    ensures Consistent(w)
  {
    assert Covered(w) == {chosen} + gray;
  }

  /**
    A click inside cell (cx, cy) emits that cell (not its pixel origin),
    remembers the cell's pixel origin and its dominated origins, and leaves
    the chosen cell chosen, its dominated cells gray and every other cell
    default.
   */
  lemma {:induction false} ClickValid(w: Widget, offsetX: int, offsetY: int)
    requires Consistent(w)
    requires var point := MapPointToMyCordSystem(offsetX, offsetY); point.x.Some? && point.y.Some?
    ensures var point := MapPointToMyCordSystem(offsetX, offsetY);
      var c := Point(point.x.value, point.y.value);
      var r := Click(w, offsetX, offsetY);
      && r.emitted == Some(c)
      && r.widget.current == Some(OriginOf(c))
      && Spot(OriginOf(c)) == Some(CellOrigin(c))
      && r.widget.gray == GrayOrigins(c)
      && ShowsSelection(r.widget.scene, c)
      && Consistent(r.widget)
  {
    var point := MapPointToMyCordSystem(offsetX, offsetY);
    CleanUpBlanks(w);
    SelectOnBlank(CleanUpIfChosen(w), Point(point.x.value, point.y.value));
  }

  /**
    A click strictly inside grid cell `c` on any widget, consistent or not:
    it emits `c` and remembers its origin and dominated origins. It repaints
    only the origins the widget remembered, so a cell painted chosen or gray
    that the widget no longer remembers keeps its colour.
   */
  lemma {:induction false} ClickValidAnyWidget(w: Widget, offsetX: int, offsetY: int, c: Point)
    requires OnGrid(c)
    requires CellMin(X, c.x) < offsetX < CellMin(X, c.x) + CellSize
    requires CellMin(Y, c.y) < offsetY < CellMin(Y, c.y) + CellSize
    ensures var r := Click(w, offsetX, offsetY);
      && r.emitted == Some(c)
      && r.widget.current == Some(OriginOf(c))
      && r.widget.gray == GrayOrigins(c)
      && r.widget.scene.Keys == w.scene.Keys + Covered(w) + {CellOrigin(c)} + DominatedOrigins(c)
      && forall o | o in r.widget.scene :: r.widget.scene[o] ==
           if o == CellOrigin(c) then Chosen
           else if o in DominatedOrigins(c) then Gray
           else if o in Covered(w) then Default
           else w.scene[o]
  {
    assert MapPointToMyCordSystem(offsetX, offsetY) == MaybePoint(Some(c.x), Some(c.y));
    SelectOverCleanUp(w, c);
  }

  /** The clean-up step followed by drawing the selection of grid cell `c`, on any widget. */
  lemma {:induction false} SelectOverCleanUp(w: Widget, c: Point)
    requires OnGrid(c)
    ensures var r := CalcAndColorGrayBlocks(DrawChosenPoint(CleanUpIfChosen(w), OriginOf(c)), c);
      && r.scene.Keys == w.scene.Keys + Covered(w) + {CellOrigin(c)} + DominatedOrigins(c)
      && forall o | o in r.scene :: r.scene[o] ==
           if o == CellOrigin(c) then Chosen
           else if o in DominatedOrigins(c) then Gray
           else if o in Covered(w) then Default
           else w.scene[o]
  {
    CleanUpRepaints(w);
    PaintOver(CleanUpIfChosen(w).scene, c);
  }

  /** The clean-up step repaints exactly the remembered origins default and forgets the selection. */
  lemma {:induction false} CleanUpRepaints(w: Widget)
    ensures var r := CleanUpIfChosen(w);
      && r.current.None?
      && r.gray == (if w.current.Some? then [] else w.gray)
      && r.scene.Keys == w.scene.Keys + Covered(w)
      && forall o | o in r.scene :: r.scene[o] == if o in Covered(w) then Default else w.scene[o]
  {
    if w.current.Some? {
      assert Spots([w.current.value] + w.gray) == Spots([w.current.value]) + Spots(w.gray);
    }
  }

  /** Drawing the selection of grid cell `c` over any canvas paints its cell chosen and its dominated cells gray and keeps every other cell. */
  lemma {:induction false} PaintOver(s: Scene, c: Point)
    requires OnGrid(c)
    ensures var t := ColorPoints(ColorPoint(s, OriginOf(c), Chosen), GrayOrigins(c), Gray);
      && t.Keys == s.Keys + {CellOrigin(c)} + DominatedOrigins(c)
      && forall o | o in t :: t[o] ==
           if o == CellOrigin(c) then Chosen
           else if o in DominatedOrigins(c) then Gray
           else s[o]
  {
    GrayOriginsLand(c);
  }

  /** Every click keeps the widget consistent. */
  lemma {:induction false} ClickKeepsConsistent(w: Widget, offsetX: int, offsetY: int)
    requires Consistent(w)
    ensures Consistent(Click(w, offsetX, offsetY).widget)
  {
    var point := MapPointToMyCordSystem(offsetX, offsetY);
    if point.x.Some? && point.y.Some? {
      ClickValid(w, offsetX, offsetY);
    } else {
      InvalidClickBlanks(w, offsetX, offsetY);
    }
  }

  /** The origins of the cells in `ds`. */
  ghost function OriginsOf(ds: seq<Point>): set<Origin> {
    set d | d in ds :: CellOrigin(d)
  }

  /** Distinct cells of the grid have as many distinct origins. */
  lemma {:induction false} OriginsOfCard(ds: seq<Point>)
    requires NoDuplicates(ds)
    requires forall d | d in ds :: OnGrid(d)
    ensures |OriginsOf(ds)| == |ds|
    decreases |ds|
  {
    if |ds| > 0 {
      var rest := ds[1..];
      assert NoDuplicates(rest);
      OriginsOfCard(rest);
      assert OriginsOf(ds) == {CellOrigin(ds[0])} + OriginsOf(rest) by {
        assert forall d | d in ds :: d == ds[0] || d in rest;
      }
      HeadOriginFresh(ds);
    }
  }

  lemma {:induction false} HeadOriginFresh(ds: seq<Point>)
    requires |ds| > 0 && NoDuplicates(ds)
    requires forall d | d in ds :: OnGrid(d)
    ensures CellOrigin(ds[0]) !in OriginsOf(ds[1..])
  {
    if CellOrigin(ds[0]) in OriginsOf(ds[1..]) {
      var d :| d in ds[1..] && CellOrigin(d) == CellOrigin(ds[0]);
      CellOriginInjective(d, ds[0]);
      assert false;
    }
  }

  /** The 25 cells of the grid, row by row. */
  function AllCells(): (r: seq<Point>)
    ensures |r| == 25
    ensures forall d :: d in r <==> OnGrid(d)
    ensures NoDuplicates(r)
  {
    var r := seq(25, k requires 0 <= k < 25 => Point(k / 5 + 1, k % 5 + 1));
    forall d | OnGrid(d)
      ensures d in r
    {
      if d.x == 1 { assert r[d.y - 1] == d; }
      else if d.x == 2 { assert r[4 + d.y] == d; }
      else if d.x == 3 { assert r[9 + d.y] == d; }
      else if d.x == 4 { assert r[14 + d.y] == d; }
      else { assert r[19 + d.y] == d; }
    }
    r
  }

  /** The grid has 25 cell origins. */
  lemma {:induction false} CellOriginsCard()
    ensures |CellOrigins| == 25
  {
    var cells := AllCells();
    OriginsOfCard(cells);
    assert OriginsOf(cells) == CellOrigins by {
      forall o | o in CellOrigins
        ensures o in OriginsOf(cells)
      {
        var x, y :| 1 <= x <= 5 && 1 <= y <= 5 && CellOrigin(Point(x, y)) == o;
        assert Point(x, y) in cells;
      }
    }
  }

  /** The dominated cells of a cell on the grid have (cx-1)+(cy-1) distinct origins. */
  lemma {:induction false} DominatedOriginsCard(c: Point)
    requires OnGrid(c)
    ensures |DominatedOrigins(c)| == (c.x - 1) + (c.y - 1)
  {
    var cells := CalcGrayBlocks(c);
    GrayBlocksAreDominated(c);
    GrayBlocksOnGrid(c);
    OriginsOfCard(cells);
    assert OriginsOf(cells) == DominatedOrigins(c) by {
      forall o | o in DominatedOrigins(c)
        ensures o in OriginsOf(cells)
      {
        var x, y :| 1 <= x <= 5 && 1 <= y <= 5 && Dominated(c, Point(x, y)) && CellOrigin(Point(x, y)) == o;
        assert Point(x, y) in cells;
      }
    }
  }

  /** The cells of `s` painted `colour`. */
  ghost function Painted(s: Scene, colour: Colour): set<Origin> {
    set o | o in s && s[o] == colour
  }

  /**
    A selection of a cell on the grid shows exactly one chosen cell,
    (cx-1)+(cy-1) gray cells and the remaining cells default; the chosen cell
    is not gray.
   */
  lemma {:induction false} SelectionCounts(s: Scene, c: Point)
    requires OnGrid(c)
    requires ShowsSelection(s, c)
    ensures Painted(s, Chosen) == {CellOrigin(c)}
    ensures Painted(s, Gray) == DominatedOrigins(c)
    ensures CellOrigin(c) !in Painted(s, Gray)
    ensures |Painted(s, Gray)| == (c.x - 1) + (c.y - 1)
    ensures |Painted(s, Default)| == 25 - 1 - ((c.x - 1) + (c.y - 1))
  {
    GrayOriginsLand(c);
    DominatedOriginsCard(c);
    CellOriginsCard();
    assert CellOrigin(c) in CellOrigins;
    PaintedPartition(s, CellOrigin(c), DominatedOrigins(c));
  }

  /** A scene showing one chosen origin and a set of gray origins splits its cells into three parts. */
  lemma {:induction false} PaintedPartition(s: Scene, chosen: Origin, gray: set<Origin>)
    requires chosen in s && chosen !in gray && gray <= s.Keys
    requires forall o | o in s :: s[o] == if o == chosen then Chosen else if o in gray then Gray else Default
    ensures Painted(s, Chosen) == {chosen}
    ensures Painted(s, Gray) == gray
    ensures |Painted(s, Default)| == |s.Keys| - 1 - |gray|
  {
    assert Painted(s, Chosen) == {chosen};
    assert Painted(s, Gray) == gray;
    assert Painted(s, Default) == s.Keys - {chosen} - gray;
    assert |s.Keys - {chosen}| == |s.Keys| - 1;
  }

  /** A consistent widget shows at most one chosen cell, and none while nothing is chosen. */
  lemma {:induction false} AtMostOneChosen(w: Widget)
    requires Consistent(w)
    ensures |Painted(w.scene, Chosen)| <= 1
    ensures w.current.None? ==> Painted(w.scene, Chosen) == {}
  {
    if w.current.Some? && Spot(w.current.value).Some? {
      var o := Spot(w.current.value).value;
      if o in Painted(w.scene, Chosen) {
        assert Painted(w.scene, Chosen) == {o};
      } else {
        assert Painted(w.scene, Chosen) == {};
      }
    } else {
      assert Painted(w.scene, Chosen) == {};
    }
  }

  /**
    `ngOnChanges` with a cell on the grid paints that cell chosen and its
    dominated cells gray on top of whatever the canvas shows and remembers
    both; every other cell keeps its colour, including a previously chosen
    one. With `null` nothing changes.
   */
  lemma {:induction false} ExternalSelect(w: Widget, p: Point)
    requires w.scene.Keys == CellOrigins
    requires OnGrid(p)
    ensures NgOnChanges(w, None) == w
    ensures var r := NgOnChanges(w, Some(p));
      && r.current == Some(OriginOf(p))
      && r.gray == GrayOrigins(p)
      && r.scene.Keys == CellOrigins
      && forall o | o in r.scene :: r.scene[o] ==
           if o == CellOrigin(p) then Chosen else if o in DominatedOrigins(p) then Gray else w.scene[o]
  {
    GrayOriginsLand(p);
  }

  /** On a widget with nothing chosen, `ngOnChanges` with a cell on the grid shows exactly its selection. */
  lemma {:induction false} ExternalSelectOnBlank(w: Widget, p: Point)
    requires Consistent(w) && w.current.None?
    requires OnGrid(p)
    ensures var r := NgOnChanges(w, Some(p));
      && r.current == Some(OriginOf(p))
      && ShowsSelection(r.scene, p)
      && Consistent(r)
  {
    SelectOnBlank(w, p);
  }

  /** Supplying (1,1) after start-up chooses the cell at pixel (29,229) and shades nothing. */
  lemma ExternalSelectExample()
    ensures var r := NgOnChanges(NgOnInit(), Some(Point(1, 1)));
      && r.current == Some(MaybePoint(Some(29), Some(229)))
      && r.gray == []
      && Painted(r.scene, Chosen) == {Origin(29, 229)}
      && Painted(r.scene, Gray) == {}
  {
    InitIsBlank();
    ExternalSelectOnBlank(NgOnInit(), Point(1, 1));
    SelectionCounts(NgOnChanges(NgOnInit(), Some(Point(1, 1))).scene, Point(1, 1));
  }

  /** A grid cell's origin is a dominated origin of `c` exactly when the cell is dominated by `c`. */
  lemma {:induction false} DominatedOriginOf(c: Point, d: Point)
    requires OnGrid(d)
    ensures CellOrigin(d) in DominatedOrigins(c) <==> Dominated(c, d)
  {
    if CellOrigin(d) in DominatedOrigins(c) {
      var x, y :| 1 <= x <= 5 && 1 <= y <= 5 && Dominated(c, Point(x, y)) && CellOrigin(Point(x, y)) == CellOrigin(d);
      CellOriginInjective(Point(x, y), d);
    }
  }

  /** Whatever the cell, every gray origin that lands on the canvas lands on one of the 25 cells. */
  lemma {:induction false} GrayOriginsStayOnGrid(p: Point)
    ensures Spots(GrayOrigins(p)) <= CellOrigins
  {
    forall o | o in Spots(GrayOrigins(p))
      ensures o in CellOrigins
    {
      var g :| g in GrayOrigins(p) && Spot(g).Some? && Spot(g).value == o;
      var k :| 0 <= k < |GrayOrigins(p)| && GrayOrigins(p)[k] == g;
      var d := CalcGrayBlocks(p)[k];
      assert OnGrid(d) && o == CellOrigin(Point(d.x, d.y));
    }
  }
}
