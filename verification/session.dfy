/**
  Sequences of events on one widget, the stale chosen cell `ngOnChanges`
  leaves behind, and a clean-up-first variant of `ngOnChanges`; the event
  loop runs either.
 */
module Session {
  import opened Options
  import opened Ranges
  import opened Dominance
  import opened Canvas
  import opened RiskMatrix

  /** A click at pixel (50,250) selects cell (1,1). */
  lemma {:induction false} ClickLowerLeft(w: Widget)
    requires Consistent(w)
    ensures ShowsSelection(Click(w, 50, 250).widget.scene, Point(1, 1))
  {
    assert MapPointToMyCordSystem(50, 250) == MaybePoint(Some(1), Some(1));
    ClickValid(w, 50, 250);
  }

  /** On a canvas showing (1,1) selected, `ngOnChanges` with (5,5) leaves both cells chosen. */
  lemma {:induction false} ExternalOverSelection(w: Widget)
    requires ShowsSelection(w.scene, Point(1, 1))
    ensures var r := NgOnChanges(w, Some(Point(5, 5)));
      && Painted(r.scene, Chosen) == {Origin(29, 229), Origin(245, 13)}
      && !Consistent(r)
  {
    var a, b := CellOrigin(Point(1, 1)), CellOrigin(Point(5, 5));
    ExternalSelect(w, Point(5, 5));
    DominatedOriginOf(Point(5, 5), Point(1, 1));
    assert a in CellOrigins && b in CellOrigins;
    var r := NgOnChanges(w, Some(Point(5, 5)));
    ChosenOverChosen(w.scene, r.scene, a, b, DominatedOrigins(Point(1, 1)), DominatedOrigins(Point(5, 5)));
  }

  /** Painting `b` chosen and the set `g` gray over a scene whose only chosen cell is `a` leaves `a` and `b` chosen. */
  lemma {:induction false} ChosenOverChosen(s: Scene, s': Scene, a: Origin, b: Origin, ga: set<Origin>, g: set<Origin>)
    requires a in s && b in s && a !in g
    requires s'.Keys == s.Keys
    requires forall o | o in s :: s[o] == if o == a then Chosen else if o in ga then Gray else Default
    requires forall o | o in s' :: s'[o] == if o == b then Chosen else if o in g then Gray else s[o]
    ensures Painted(s', Chosen) == {a, b}
  {
  }

  /**
    As written, `ngOnChanges` does not clean up: after the user clicks cell
    (1,1) and the host then supplies (5,5), two cells are painted chosen and
    the widget only remembers one of them.
   */
  lemma {:induction false} StaleChosenCell(w0: Widget)
    requires Consistent(w0)
    ensures var w1 := Click(w0, 50, 250).widget;
      var w2 := NgOnChanges(w1, Some(Point(5, 5)));
      && Painted(w2.scene, Chosen) == {Origin(29, 229), Origin(245, 13)}
      && !Consistent(w2)
  {
    ClickLowerLeft(w0);
    ExternalOverSelection(Click(w0, 50, 250).widget);
  }

  /**
    The stale chosen cell outlives the next click: the clean-up repaints only
    the origins the widget remembers, so after the host's (5,5) a click at
    pixel (160,140), inside cell (3,3), still leaves cell (1,1) chosen next
    to the new one.
   */
  lemma {:induction false} StaleCellSurvivesClick(w0: Widget)
    requires Consistent(w0)
    ensures var w1 := Click(w0, 50, 250).widget;
      var w2 := NgOnChanges(w1, Some(Point(5, 5)));
      var r := Click(w2, 160, 140);
      && r.emitted == Some(Point(3, 3))
      && Painted(r.widget.scene, Chosen) == {Origin(29, 229), Origin(137, 121)}
      && !Consistent(r.widget)
  {
    ClickLowerLeft(w0);
    var w1 := Click(w0, 50, 250).widget;
    StaleState(w1);
    ClickOverStale(NgOnChanges(w1, Some(Point(5, 5))));
  }

  /** After (1,1) is shown, `ngOnChanges` with (5,5) leaves both chosen but remembers only (5,5) and its dominated cells. */
  lemma {:induction false} StaleState(w1: Widget)
    requires ShowsSelection(w1.scene, Point(1, 1))
    ensures var w2 := NgOnChanges(w1, Some(Point(5, 5)));
      && Painted(w2.scene, Chosen) == {Origin(29, 229), Origin(245, 13)}
      && Covered(w2) == {Origin(245, 13)} + DominatedOrigins(Point(5, 5))
      && Origin(29, 229) !in Covered(w2)
  {
    ExternalOverSelection(w1);
    CoveredAfterSelect(w1, Point(5, 5));
    DominatedOriginOf(Point(5, 5), Point(1, 1));
  }

  /** After `ngOnChanges` with a grid cell, the next clean-up repaints exactly that cell and its dominated cells. */
  lemma {:induction false} CoveredAfterSelect(w: Widget, p: Point)
    requires OnGrid(p)
    ensures Covered(NgOnChanges(w, Some(p))) == {CellOrigin(p)} + DominatedOrigins(p)
  {
    var w2 := NgOnChanges(w, Some(p));
    assert w2.current == Some(OriginOf(p)) && w2.gray == GrayOrigins(p);
    GrayOriginsLand(p);
    SpotsCons(OriginOf(p), GrayOrigins(p));
  }

  /** A click inside cell (3,3) on that stale widget keeps (1,1) chosen beside (3,3). */
  lemma {:induction false} ClickOverStale(w2: Widget)
    requires Painted(w2.scene, Chosen) == {Origin(29, 229), Origin(245, 13)}
    requires Covered(w2) == {Origin(245, 13)} + DominatedOrigins(Point(5, 5))
    requires Origin(29, 229) !in Covered(w2)
    ensures var r := Click(w2, 160, 140);
      && r.emitted == Some(Point(3, 3))
      && Painted(r.widget.scene, Chosen) == {Origin(29, 229), Origin(137, 121)}
      && !Consistent(r.widget)
  {
    ClickValidAnyWidget(w2, 160, 140, Point(3, 3));
    DominatedOriginOf(Point(3, 3), Point(1, 1));
    var r := Click(w2, 160, 140);
    ChosenSurvives(w2.scene, r.widget.scene, Origin(29, 229), Origin(245, 13), Origin(137, 121),
      Covered(w2), DominatedOrigins(Point(3, 3)));
  }

  /**
    Repainting over a scene whose chosen cells are `a` and `b`: `c` chosen,
    the set `g` gray, the set `cov` (holding `b` but not `a`) default. The
    chosen cells are then `a` and `c`.
   */
  lemma {:induction false} ChosenSurvives(s: Scene, s': Scene, a: Origin, b: Origin, c: Origin, cov: set<Origin>, g: set<Origin>)
    requires Painted(s, Chosen) == {a, b}
    requires b in cov && a !in cov && a != c && a !in g && c !in g
    requires s'.Keys == s.Keys + cov + {c} + g
    requires forall o | o in s' ::
      s'[o] == (if o == c then Chosen else if o in g then Gray else if o in cov then Default else s[o])
    ensures Painted(s', Chosen) == {a, c}
  {
    assert a in Painted(s, Chosen);
    forall o | o in Painted(s', Chosen)
      ensures o == a || o == c
    {
      if o != c && o !in g && o !in cov {
        assert o in Painted(s, Chosen);
      }
    }
  }

  /** `ngOnChanges` with the clean-up a click runs first. */
  function NgOnChangesCleared(w: Widget, initialRisk: Option<Point>): Widget {
    match initialRisk
    case None => w
    case Some(p) => CalcAndColorGrayBlocks(DrawChosenPoint(CleanUpIfChosen(w), OriginOf(p)), p)
  }

  /** With the clean-up, an external cell on the grid replaces the previous selection entirely. */
  lemma {:induction false} NgOnChangesClearedSelects(w: Widget, p: Point)
    requires Consistent(w)
    requires OnGrid(p)
    ensures var r := NgOnChangesCleared(w, Some(p));
      && r.current == Some(OriginOf(p))
      && r.gray == GrayOrigins(p)
      && ShowsSelection(r.scene, p)
      && Consistent(r)
  {
    CleanUpBlanks(w);
    SelectOnBlank(CleanUpIfChosen(w), p);
  }

  /** With the clean-up, every external value, on the grid or not, keeps the widget consistent. */
  lemma {:induction false} NgOnChangesClearedKeepsConsistent(w: Widget, initialRisk: Option<Point>)
    requires Consistent(w)
    ensures Consistent(NgOnChangesCleared(w, initialRisk))
  {
    if initialRisk.Some? {
      var p := initialRisk.value;
      if OnGrid(p) {
        NgOnChangesClearedSelects(w, p);
      } else {
        CleanUpBlanks(w);
        SelectOffGridOnBlank(CleanUpIfChosen(w), p);
      }
    }
  }

  /**
    Drawing the selection of a cell off the grid onto a blank widget paints
    no chosen cell (its origin is undefined) and only those gray cells whose
    origins exist, and keeps the widget consistent.
   */
  lemma {:induction false} SelectOffGridOnBlank(w: Widget, p: Point)
    requires w.current.None? && w.gray == [] && IsBlank(w.scene)
    requires !OnGrid(p)
    ensures Consistent(CalcAndColorGrayBlocks(DrawChosenPoint(w, OriginOf(p)), p))
  {
    var gs := GrayOrigins(p);
    var s1 := ColorPoint(w.scene, OriginOf(p), Chosen);
    assert s1 == w.scene;
    var s2 := ColorPoints(s1, gs, Gray);
    GrayOriginsStayOnGrid(p);
    assert s2.Keys == CellOrigins;
    assert forall o | o in s2 :: s2[o] == if o in Spots(gs) then Gray else Default;
    SpotsCons(OriginOf(p), gs);
    GrayOnlyIsConsistent(Widget(Some(OriginOf(p)), gs, s2));
  }

  /** A widget whose chosen origin is undefined and whose canvas shows only its gray origins is consistent. */
  lemma {:induction false} GrayOnlyIsConsistent(w: Widget)
    requires w.current.Some? && Spot(w.current.value).None?
    requires Spots([w.current.value] + w.gray) == Spots(w.gray)
    requires Spots(w.gray) <= CellOrigins
    requires w.scene.Keys == CellOrigins
    requires forall o | o in w.scene :: w.scene[o] == if o in Spots(w.gray) then Gray else Default
    ensures Consistent(w)
  {
  }

  /** What reaches the widget: a click at a canvas pixel, or a new `initialRisk` from the host. */
  datatype Event = ClickAt(offsetX: int, offsetY: int) | InitialRisk(risk: Option<Point>)

  /** Which `ngOnChanges` the event loop runs: the one as written, or the one that cleans up first. */
  datatype Variant = AsWritten | CleanUpFirst

  /** A new `initialRisk` under the chosen variant of `ngOnChanges`. */
  function External(w: Widget, risk: Option<Point>, v: Variant): Widget {
    match v
    case AsWritten => NgOnChanges(w, risk)
    case CleanUpFirst => NgOnChangesCleared(w, risk)
  }

  /** One event: a click runs the click pipeline; a new `initialRisk` runs `ngOnChanges` and never emits. */
  function Step(w: Widget, e: Event, v: Variant): ClickResult {
    match e
    case ClickAt(x, y) => Click(w, x, y)
    case InitialRisk(risk) => ClickResult(External(w, risk, v), None)
  }

  /** The widget after `events`, and the cells emitted to the host, in order. */
  function Run(w: Widget, events: seq<Event>, v: Variant): (Widget, seq<Point>)
    decreases |events|
  {
    if |events| == 0 then (w, [])
    else
      var r := Step(w, events[0], v);
      var (w', out) := Run(r.widget, events[1..], v);
      (w', (if r.emitted.Some? then [r.emitted.value] else []) + out)
  }

  /**
    With the clean-up-first `ngOnChanges`, along any sequence of events the
    widget stays consistent, so it never shows more than one chosen cell,
    and every emitted value is a cell of the grid.
   */
  lemma {:induction false} RunKeepsConsistent(w: Widget, events: seq<Event>)
    requires Consistent(w)
    ensures Consistent(Run(w, events, CleanUpFirst).0)
    ensures |Painted(Run(w, events, CleanUpFirst).0.scene, Chosen)| <= 1
    ensures forall p | p in Run(w, events, CleanUpFirst).1 :: OnGrid(p)
    decreases |events|
  {
    if |events| == 0 {
      AtMostOneChosen(w);
    } else {
      var e := events[0];
      match e {
        case ClickAt(x, y) => ClickKeepsConsistent(w, x, y);
        case InitialRisk(risk) => NgOnChangesClearedKeepsConsistent(w, risk);
      }
      RunKeepsConsistent(Step(w, e, CleanUpFirst).widget, events[1..]);
    }
  }

  /** As written, along clicks alone the widget stays consistent and shows at most one chosen cell. */
  lemma {:induction false} ClicksKeepConsistent(w: Widget, events: seq<Event>)
    requires Consistent(w)
    requires forall k | 0 <= k < |events| :: events[k].ClickAt?
    ensures Consistent(Run(w, events, AsWritten).0)
    ensures |Painted(Run(w, events, AsWritten).0.scene, Chosen)| <= 1
    decreases |events|
  {
    if |events| == 0 {
      AtMostOneChosen(w);
    } else {
      ClickKeepsConsistent(w, events[0].offsetX, events[0].offsetY);
      ClicksKeepConsistent(Step(w, events[0], AsWritten).widget, events[1..]);
    }
  }

  /** Under either variant, from any widget, every emitted value is a cell of the grid, emitted by a click. */
  lemma {:induction false} RunEmitsGridCells(w: Widget, events: seq<Event>, v: Variant)
    ensures forall p | p in Run(w, events, v).1 :: OnGrid(p)
    ensures |Run(w, events, v).1| <= |events|
    decreases |events|
  {
    if |events| > 0 {
      RunEmitsGridCells(Step(w, events[0], v).widget, events[1..], v);
    }
  }

  /** As written, the event sequence of `StaleChosenCell` leaves an inconsistent widget with two chosen cells. */
  lemma {:induction false} RunAsWrittenStale(w0: Widget)
    requires Consistent(w0)
    ensures var w := Run(w0, [ClickAt(50, 250), InitialRisk(Some(Point(5, 5)))], AsWritten).0;
      && Painted(w.scene, Chosen) == {Origin(29, 229), Origin(245, 13)}
      && !Consistent(w)
  {
    var events := [ClickAt(50, 250), InitialRisk(Some(Point(5, 5)))];
    var w1 := Click(w0, 50, 250).widget;
    assert Run(w0, events, AsWritten).0 == Run(w1, events[1..], AsWritten).0;
    assert Run(w1, events[1..], AsWritten).0 == NgOnChanges(w1, Some(Point(5, 5)));
    StaleChosenCell(w0);
  }

  /** A click at a pixel strictly inside cell `c` emits `c` and shows its selection. */
  lemma {:induction false} ClickInCell(w: Widget, offsetX: int, offsetY: int, c: Point)
    requires Consistent(w)
    requires OnGrid(c)
    requires CellMin(X, c.x) < offsetX < CellMin(X, c.x) + CellSize
    requires CellMin(Y, c.y) < offsetY < CellMin(Y, c.y) + CellSize
    ensures Click(w, offsetX, offsetY).emitted == Some(c)
    ensures ShowsSelection(Click(w, offsetX, offsetY).widget.scene, c)
    ensures Consistent(Click(w, offsetX, offsetY).widget)
  {
    assert MapPointToMyCordSystem(offsetX, offsetY) == MaybePoint(Some(c.x), Some(c.y));
    ClickValid(w, offsetX, offsetY);
  }

  /**
    Clicking cell (2,4) and then cell (5,1) emits both cells and leaves cell
    (5,1) chosen, the four cells left of it gray and the other twenty cells
    default.
   */
  lemma {:induction false} TwoClicksExample(w: Widget)
    requires Consistent(w)
    ensures var r1 := Click(w, 100, 90);
      var r2 := Click(r1.widget, 270, 250);
      && r1.emitted == Some(Point(2, 4))
      && r2.emitted == Some(Point(5, 1))
      && ShowsSelection(r2.widget.scene, Point(5, 1))
      && Painted(r2.widget.scene, Chosen) == {Origin(245, 229)}
      && |Painted(r2.widget.scene, Gray)| == 4
      && |Painted(r2.widget.scene, Default)| == 20
  {
    var w1 := Click(w, 100, 90).widget;
    ClickInCell(w, 100, 90, Point(2, 4));
    ClickInCell(w1, 270, 250, Point(5, 1));
    SelectionCounts(Click(w1, 270, 250).widget.scene, Point(5, 1));
  }

  /**
    A click in the gap at x = 81 changes nothing while nothing is chosen, as
    on a fresh widget, but after a selection it erases that selection;
    neither emits.
   */
  lemma {:induction false} GapClickExample(w: Widget)
    requires Consistent(w)
    ensures w.current.None? ==> Click(w, 81, 90) == ClickResult(w, None)
    ensures var w1 := Click(w, 100, 90).widget;
      var r := Click(w1, 81, 90);
      && r.emitted.None?
      && r.widget.current.None?
      && IsBlank(r.widget.scene)
      && Painted(w1.scene, Chosen) == {Origin(83, 67)}
  {
    OffGridPixels(81);
    assert MapPointToMyCordSystem(100, 90) == MaybePoint(Some(2), Some(4));
    ClickValid(w, 100, 90);
    var w1 := Click(w, 100, 90).widget;
    SelectionCounts(w1.scene, Point(2, 4));
    InvalidClickBlanks(w1, 81, 90);
  }
}
