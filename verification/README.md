# Risk-matrix selection core, modelled in Dafny

This project models the coordinate and selection logic of the risk-matrix
widget (`RiskMatrixComponent`). The widget draws a 5x5 grid of 50x50 cells on a
canvas. It maps a click's pixel offset to a grid cell, paints that cell in the
"chosen" colour and the cells it dominates in gray, and emits the chosen cell
to its host. The host can also supply an initial risk cell.

Modules:

- `Options` (options.dfy): `Option`, standing for the source's `null` and `undefined`.
- `Ranges` (ranges.dfy): the two fixed range tables, pixel to block
  (`_convertCordToBlockCord`) and block to pixel origin (`_findRealCordsOfPoint`).
  They are checked against an independent geometry: five 50-pixel cells with
  4-pixel gaps from pixel 29 on x and from pixel 13 on y, with y numbered from
  the bottom.
- `Dominance` (dominance.dfy): the L-shaped dominated cell list of `_calcAndColorGrayBlocks`.
- `Canvas` (canvas.dfy): the canvas as a scene, a map from a cell's pixel
  origin to one of three colour tokens. `_colorPoint` and `_drawBlocksCol`
  become map updates.
- `RiskMatrix` (riskmatrix.dfy): the widget's fields (`_currentPoint`,
  `_currentGrayPoints`, the canvas), the click pipeline of `captureEvents` as
  one step function returning the new widget and the emitted cell, and
  `ngOnChanges`.
- `Session` (session.dfy): event sequences, the `ngOnChanges` finding below,
  and worked scenarios.

The main invariant is `RiskMatrix.Consistent`. It says:

- the canvas holds the 25 cells;
- the only chosen cell is the remembered `_currentPoint`;
- every gray cell is one of the remembered `_currentGrayPoints`.

Every click preserves it. The source's `ngOnChanges` does not: it can leave
two cells chosen (see Findings). An `ngOnChanges` that first cleans up, as a
click does, preserves it too. The event loop `Session.Run` takes a `Variant`
saying which of the two it runs. Under the as-written variant, only runs of
clicks are proved to stay consistent.

Modelling choices worth noting:

- A click that maps to `null` on either axis is not a no-op. The clean-up in
  the `tap` step runs before the `filter`, so the previous selection is
  erased. Nothing is painted and nothing is emitted.
- `_convertCordToBlockCord` keeps the last matching range, not the first.
  The tables are disjoint, so the result is the same (`Ranges.UniqueMatch`).
- `ngOnChanges` does not clean up the previous selection before drawing the
  new one (see Findings).
- Pixels on a range bound are kept off the grid, as the strict comparisons
  make them. This includes pixel 29, the first pixel column of the painted
  cell 1. These pixels map to `null`.
- `_findRealCordsOfPoint` returns `undefined` for a block outside 1..5. A
  `fillRect` whose coordinate is `undefined` gets NaN, and the canvas ignores
  it. So painting such a point leaves the scene unchanged (`Canvas.Spot`).
- `ngOnChanges` paints the chosen cell from `changes['initialRisk'].currentValue`
  and the gray cells from `this.initialRisk`. Angular sets both to the same
  value before the hook runs, so the model uses one value.
- `_currentGrayPoints` starts as `null`. It is modelled as the empty list: the
  code reads it only when `_currentPoint` is set, and sets the two together.

## Model

| member | source | states |
|---|---|---|
| `Ranges.ConvertCordToBlockCord` | src/app/risk-matrix/risk-matrix.component.ts:273-283 | The result is `None` exactly when no range strictly contains the pixel. Otherwise it is the block of the last range that does. This holds for any table. |
| `Ranges.UniqueMatch` | src/app/risk-matrix/risk-matrix.component.ts:273-283 | On a table whose ranges are pairwise disjoint, the result is the block of any range that holds the pixel. "Last match wins" is therefore the unique match. |
| `Ranges.TablesDisjoint` | src/app/risk-matrix/risk-matrix.component.ts:43-58 | The x and y tables of `blocksInOwnCordSystem` are pairwise disjoint. |
| `Ranges.TableGeometry` | src/app/risk-matrix/risk-matrix.component.ts:43-58 | Each table has five entries. Each entry's block is in 1..5 and blocks are distinct. Each `min` is the reference origin of its block, and `max` is `min + 50`. |
| `Ranges.PixelToBlock` | src/app/risk-matrix/risk-matrix.component.ts:273-283 | A pixel maps to block `b` if and only if `b` is in 1..5 and the pixel lies strictly inside cell `b` of that axis in the reference geometry. |
| `Ranges.PixelToNull` | src/app/risk-matrix/risk-matrix.component.ts:273-283 | A pixel maps to `null` if and only if it lies strictly inside no cell: on a bound, in a gap, or off the grid. |
| `Ranges.OffGridPixels` | src/app/risk-matrix/risk-matrix.component.ts:123-137 | Pixels up to 29 or from 295 on x, and up to 13 or from 279 on y, map to `null`. So do the bound and gap pixels 79..83 on x and 63..67 on y. |
| `Ranges.AxisOrder` | src/app/risk-matrix/risk-matrix.component.ts:44-57 | For two pixels `p <= q` that both map to a block, x blocks never decrease and y blocks never increase. |
| `Ranges.FindRealCordsOfPoint` | src/app/risk-matrix/risk-matrix.component.ts:238-244 | An origin is found if and only if the block is in 1..5. It is that block's reference origin: `29 + 54(b-1)` on x and `13 + 54(5-b)` on y. |
| `Ranges.PixelBlockOrigin` | src/app/risk-matrix/risk-matrix.component.ts:238-244 | Round trip: a pixel strictly inside a range maps to a block whose origin is that range's `min`. |
| `Ranges.OriginBlockPixel` | src/app/risk-matrix/risk-matrix.component.ts:238-244 | The reverse round trip: every pixel strictly inside the cell at a block's origin maps back to that block. |
| `RiskMatrix.LocalTablesAgree` | src/app/risk-matrix/risk-matrix.component.ts:123-137 | The local tables of `_mapPointToMyCordSystem` equal `blocksInOwnCordSystem`. |
| `RiskMatrix.MapPointToMyCordSystem` | src/app/risk-matrix/risk-matrix.component.ts:122-143 | Each coordinate of the mapped point is block `b` if and only if the pixel lies strictly inside cell `b` on that axis. The x coordinate uses the ascending axis and y the inverted one. |
| `Canvas.ColumnsAreTableMins` | src/app/risk-matrix/risk-matrix.component.ts:222-224 | The column coordinates of `_drawBlocksCol` are the `min`s of the x and y tables, in table order. |
| `Canvas.DrawBlocksColCoversGrid` | src/app/risk-matrix/risk-matrix.component.ts:222-231 | `_drawBlocksCol` adds exactly the 25 cell origins to the canvas (the cross product of the table `min`s) and paints them default. Everything else is left as it was. |
| `Canvas.ColorPoints` | src/app/risk-matrix/risk-matrix.component.ts:268-271 | Colouring a list of points paints each defined origin in the list with the colour. It adds those origins to the canvas and keeps every other cell's colour. |
| `RiskMatrix.InitIsBlank` | src/app/risk-matrix/risk-matrix.component.ts:71-79 | After `ngOnInit` nothing is chosen, no gray list is held, the 25 cells are default, and the widget is consistent. |
| `Dominance.CalcGrayBlocks` | src/app/risk-matrix/risk-matrix.component.ts:285-299 | The list is `(1,cy)..(cx-1,cy)` followed by `(cx,1)..(cx,cy-1)`, in that order. Its length is `max(0,cx-1) + max(0,cy-1)`. |
| `Dominance.GrayBlocksAreDominated` | src/app/risk-matrix/risk-matrix.component.ts:285-299 | A cell is in the list if and only if it is left of the chosen cell in its row, or below it in its column. No cell appears twice, and the chosen cell never appears. |
| `Dominance.GrayBlocksOnGrid` | src/app/risk-matrix/risk-matrix.component.ts:285-299 | For a chosen cell on the grid, the list has `(cx-1)+(cy-1)` cells and stays on the grid. |
| `Dominance.GrayBlocksExamples` | src/app/risk-matrix/risk-matrix.component.ts:285-299 | (3,3) yields `[(1,3),(2,3),(3,1),(3,2)]`. (1,1) yields the empty list. |
| `RiskMatrix.GrayOriginsLand` | src/app/risk-matrix/risk-matrix.component.ts:299-303 | For a cell on the grid, the stored gray origins are exactly the origins of the dominated cells, and the chosen cell's origin is not among them. |
| `RiskMatrix.Click` | src/app/risk-matrix/risk-matrix.component.ts:93-120 | A click emits if and only if both coordinates map to a block. The emitted value is a grid cell (not a pixel origin) that strictly contains the click. A click that emits nothing leaves no chosen point. |
| `RiskMatrix.ClickInvalid` | src/app/risk-matrix/risk-matrix.component.ts:99-109 | A click that maps to `null` on either axis emits nothing and forgets the chosen point. If a point was chosen, it also empties the gray list. It repaints exactly the previous chosen and gray origins default and changes no other cell. |
| `RiskMatrix.InvalidClickBlanks` | src/app/risk-matrix/risk-matrix.component.ts:99-109 | From a consistent widget, an invalid click leaves nothing chosen and every cell default, and the widget stays consistent. |
| `RiskMatrix.ClickValid` | src/app/risk-matrix/risk-matrix.component.ts:99-119 | A click inside cell (cx,cy) emits that cell and stores its pixel origin and its dominated origins. The canvas then shows that cell chosen, its dominated cells gray and every other cell default. The widget stays consistent. |
| `RiskMatrix.ClickValidAnyWidget` | src/app/risk-matrix/risk-matrix.component.ts:99-119 | A click strictly inside grid cell `c`, on any widget, consistent or not, emits `c` and remembers its origin and dominated origins. Afterwards `c` is chosen and its dominated cells are gray. The other origins the widget remembered are default. Every other cell keeps its colour, so a chosen cell the widget has forgotten stays chosen. |
| `RiskMatrix.CleanUpRepaints` | src/app/risk-matrix/risk-matrix.component.ts:101-104 | The clean-up forgets the chosen point and, when one was chosen, the gray list. It repaints exactly the remembered chosen and gray origins default and keeps every other cell. |
| `RiskMatrix.PaintOver` | src/app/risk-matrix/risk-matrix.component.ts:263-308 | Drawing the selection of a grid cell over any canvas paints that cell chosen and its dominated cells gray. Every other cell keeps its colour. |
| `RiskMatrix.ClickKeepsConsistent` | src/app/risk-matrix/risk-matrix.component.ts:93-120 | Every click, valid or not, keeps the widget consistent. |
| `RiskMatrix.SelectionCounts` | src/app/risk-matrix/risk-matrix.component.ts:111-119 | A shown selection has exactly one chosen cell and `(cx-1)+(cy-1)` gray cells. The remaining `25-1-((cx-1)+(cy-1))` cells are default. The chosen cell is not gray. |
| `RiskMatrix.AtMostOneChosen` | src/app/risk-matrix/risk-matrix.component.ts:246-266 | A consistent widget shows at most one chosen cell, and none while nothing is chosen. |
| `RiskMatrix.ExternalSelect` | src/app/risk-matrix/risk-matrix.component.ts:81-91 | `ngOnChanges` with `null` changes nothing. With a cell on the grid, it stores that cell's origin and dominated origins. It paints them chosen and gray over the current canvas, and every other cell keeps its colour, including a previously chosen one. |
| `RiskMatrix.ExternalSelectOnBlank` | src/app/risk-matrix/risk-matrix.component.ts:81-91 | On a widget with nothing chosen, `ngOnChanges` with a cell on the grid shows exactly that cell's selection and leaves the widget consistent. |
| `RiskMatrix.ExternalSelectExample` | src/app/risk-matrix/risk-matrix.component.ts:81-91 | Supplying (1,1) after start-up chooses the cell at pixel (29,229) and shades nothing. |
| `Session.StaleChosenCell` | src/app/risk-matrix/risk-matrix.component.ts:81-91 | As written: a click on (1,1) followed by an initial risk of (5,5) leaves both (29,229) and (245,13) chosen. The widget is then no longer consistent. |
| `Session.NgOnChangesClearedSelects` | src/app/risk-matrix/risk-matrix.component.ts:81-91 | With the click's clean-up first, an initial risk on the grid replaces the previous selection entirely and leaves the widget consistent. |
| `Session.NgOnChangesClearedKeepsConsistent` | src/app/risk-matrix/risk-matrix.component.ts:81-91 | With the clean-up first, every initial risk keeps the widget consistent: `null`, a cell on the grid, or a value off the grid whose origins are partly undefined. |
| `Session.StaleCellSurvivesClick` | src/app/risk-matrix/risk-matrix.component.ts:81-109 | As written: after that stale state, a click at pixel (160,140), inside cell (3,3), emits (3,3). Both (29,229) and the new (137,121) are then chosen, because the clean-up repaints only the remembered cells. The widget stays inconsistent. |
| `Session.RunAsWrittenStale` | src/app/risk-matrix/risk-matrix.component.ts:81-91 | As written: the event run "click (50,250), then initial risk (5,5)" ends with two chosen cells and an inconsistent widget. |
| `Session.ClicksKeepConsistent` | src/app/risk-matrix/risk-matrix.component.ts:93-120 | As written: along any sequence of clicks alone, the widget stays consistent and shows at most one chosen cell. |
| `Session.RunEmitsGridCells` | src/app/risk-matrix/risk-matrix.component.ts:111-119 | Under either variant and from any widget, every emitted value is a grid cell. There are no more emitted values than events. |
| `Session.RunKeepsConsistent` | src/app/risk-matrix/risk-matrix.component.ts:93-120 | With the clean-up-first `ngOnChanges` (not the one as written), along any sequence of clicks and initial risks, the widget stays consistent and shows at most one chosen cell. Every emitted value is a grid cell. |
| `Session.TwoClicksExample` | src/app/risk-matrix/risk-matrix.component.ts:111-119 | Clicking cell (2,4) and then (5,1) emits both cells. The canvas then has (245,229) chosen, 4 gray cells and 20 default cells. |
| `Session.GapClickExample` | src/app/risk-matrix/risk-matrix.component.ts:99-109 | A click at the gap pixel x = 81 changes nothing while nothing is chosen. After a selection, it erases that selection. It never emits. |

## Left out

- `_drawAxises`: axis labels, fonts and text placement are pure rendering with no state.
- `_drawBlock` and the Canvas 2D API: a filled 50x50 rectangle is modelled as
  its origin's entry in the scene. Colour strings become the tokens
  `Default`, `Chosen` and `Gray`.
- The Angular lifecycle is not modelled. For example, `ngOnChanges` can run
  before `ngOnInit` has acquired the context, and then its drawing would fail.
  The model assumes the canvas exists.
- `EventEmitter` and the rxjs operators: a click is one step function that
  returns the emitted cell, if any.
- `Dominance.CalcGrayBlocks`: an `initialRisk` coordinate of 2^32 or more
  makes the source's array construction throw a range error. This is not
  modelled: the model builds the long list instead.
- Pixel offsets and external coordinates are integers. Fractional offsets and
  non-numeric or NaN coordinates are not modelled.
- `src/app/signature/signature.component.ts`: mouse-drag plumbing and stroke
  calls, with no logic beyond drawing a segment between successive samples.
- `src/app/app.component.ts`, `src/app/app.module.ts`, `src/stories/index.stories.ts`:
  static demo lists and framework wiring.

## Findings

| source | as written | input that shows it | evidently intended | confidence | as-written member | corrected member |
|---|---|---|---|---|---|---|
| src/app/risk-matrix/risk-matrix.component.ts:81-91 | `ngOnChanges` paints the new chosen and gray cells and overwrites `_currentPoint` and `_currentGrayPoints`. It never repaints the previous selection. | A click at pixel (50,250) chooses cell (1,1). The host then supplies `initialRisk` (5,5). Cells at (29,229) and (245,13) are both painted chosen, and the widget remembers only the second. So the next click's clean-up does not repaint the first: after a click on cell (3,3), (29,229) is still chosen (`Session.StaleCellSurvivesClick`). | Clean up the previous chosen and gray cells first, as the click pipeline does, so that at most one cell is ever chosen. | medium, not executed | `Session.StaleChosenCell` | `Session.NgOnChangesClearedKeepsConsistent` |

`RiskMatrix.NgOnChanges` keeps the behaviour as written. The event loop
`Session.Run` runs it under `Variant.AsWritten` (`Session.RunAsWrittenStale`,
`Session.ClicksKeepConsistent`) and runs the corrected
`Session.NgOnChangesCleared` under `Variant.CleanUpFirst`
(`Session.RunKeepsConsistent`).
