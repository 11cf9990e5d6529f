# CircusFluid core in Dafny

A model of the simulation and input core of CircusFluid, a browser wave toy.
A grid of cells holds a density and a velocity. Each solver pass updates the
grid in place with a clamped-neighbour Laplacian. Pointer and touch input
push velocity into the cells under the pointer, or along the line it moved
through. A fixed-timestep accumulator decides how many solver passes each
animation frame runs.

One module per source file:

- `util.dfy` (module `Util`): `worldToCellCoords`, `hsvToHsl`, the integer
  clamp, and the value types that stand in for `THREE.Vector2`.
- `bresenham.dfy` (module `Raster`): the all-octant integer line walk. The
  method `Bresenham` returns the points the source passes to its callback.
  It is proved equal to a recursive description `Line` of the loop. The
  facts about the walk (length, first point, excluded end point, bounding
  box, 8-neighbour steps) are proved about `Line`.
- `wave_solver.dfy` (module `Wave`): the class `WaveSolver` with its two
  grids. `Solve` is proved to perform the row-major, single-buffered sweep
  `SolvePass`. The per-cell equations of a pass and the fixed point at rest
  are proved about that sweep.
- `time_manager.dfy` (module `Timing`): the class `TimeManager`. The clock
  is a parameter. `Update` returns the argument of every callback
  invocation, in order, and is proved against the function `PlanUpdate`.
- `touch_pos.dfy` (module `TouchPositions`) and `touch_tracker.dfy` (module
  `TouchTracking`): the two identical previous/current position records.
  Both follow the value abstraction `Track` with `Start` and `Shift`.
- `controller.dfy` (module `Input`): the class `Controller`.
  - Its map from touch identifier to `TouchPos` is a `map` plus the
    sequence of its keys in insertion order (`order`). That sequence is
    the order in which a JavaScript `Map` iterates.
  - The temporary JavaScript `Set`s become Dafny sets.
  - Events are lists of (identifier, screen position).
  - Pure functions say which cells each handler pushes force into:
    `TapCells`, `StrokeCells`, `DragCells`, `MouseStrokeCells`. They also
    say how the touch records move: `MoveTouches` and `AddNew`.
  - `Inject` says what the velocity grid becomes. The handlers are proved
    to push exactly that.

Behaviour of the code that the model keeps as written:

- The solver uses friction 0.58 and speed 20, fixed in the constructor
  (src/waveSolver.ts:12-13).
- The solver is single-buffered (src/waveSolver.ts:32-44). Cells already
  updated in a pass are read by their neighbours later in the same pass
  (`SweepIsBlend`).
- Force goes into one cell, with no spreading to its neighbours
  (src/waveSolver.ts:47-49). Queries return the stored value.
- The line walk stops before its end point (src/bresenham.ts:30-32,
  `LineExcludesEnd`).
- The mouse drag walks from the current cell to the previous one, because
  the two variables are swapped (src/controller.ts:143-149). The current
  cell is therefore pushed and the previous one is not
  (`MouseStrokeStartsAtCurrent`). Touch drags walk from the previous cell
  to the current one.

## Model

| member | source | states |
|---|---|---|
| Util.Clamp | src/util.ts:34-41 | the result is at least lo, and at most hi when lo <= hi; it is v inside the range, lo below it and hi above it |
| Util.CellIndex | src/util.ts:31-41 | one axis of worldToCellCoords lands in [0, count - 1] for any position |
| Util.WorldToCellCoords | src/util.ts:28-44 | both coordinates of the cell are clamped into [0, countX - 1] x [0, countY - 1] |
| Util.CellIndexAtEdges | src/util.ts:31-41 | screen edge -50 maps to index 0 and edge 50 to count - 1 |
| Util.WorldToCellCoordsAtCorners | src/util.ts:28-44 | (-50, -50) maps to cell (0, 0) and (50, 50) to (countX - 1, countY - 1) |
| Util.CellIndexMonotone | src/util.ts:31-41 | a position further along an axis never maps to an earlier cell |
| Util.HsvToHsl | src/util.ts:10-25 | the hue is unchanged and l = (2 - s) v / 2; s is kept when l = 0 and set to 0 when l = 1; each division is well defined because its divisor is non-zero in its branch |
| Util.HsvToHslInRange | src/util.ts:10-25 | for s and v in [0, 1], the saturation and lightness returned are in [0, 1] |
| Util.HsvToHslRecoversValue | src/util.ts:10-25 | the HSV value is recovered from the result by the HSL-to-HSV formula l + s min(l, 1 - l) |
| Raster.Bresenham | src/bresenham.ts:4-55 | the loop passes exactly the points of Line(start, end) to the callback, in order |
| Raster.StartInv | src/bresenham.ts:9-28 | the initial direction, error term and position satisfy the loop invariant |
| Raster.StepArith | src/bresenham.ts:45-53 | one loop pass keeps the invariant; the major axis always steps and the minor axis never passes its end |
| Raster.AdvanceStep | src/bresenham.ts:45-53 | one loop pass keeps the invariant, leaves one visit fewer, and moves to a distinct 8-neighbour in the end's direction |
| Raster.RemainingZeroIsEnd | src/bresenham.ts:30 | the loop test fails exactly when no visits remain, so the loop terminates |
| Raster.Segment.Advance | src/bresenham.ts:45-53 | one pass of the loop body after the callback: each coordinate stays or moves one step in its direction, and unless start and end coincide at least one of them moves |
| Raster.Step | src/bresenham.ts:45-53 | the loop body's updates of x0, y0 and err are the step Segment.Advance describes |
| Raster.Trace | src/bresenham.ts:30-54 | the points the loop still passes to the callback from a reachable state: as many as visits remain, none exactly when the loop test already fails, the first being the current point |
| Raster.TraceInBox | src/bresenham.ts:30-54 | from any reachable state the walk never visits the end point and stays inside the bounding box |
| Raster.TraceSteps | src/bresenham.ts:30-54 | from any reachable state consecutive points are distinct 8-neighbours, and the end follows the last point |
| Raster.Line | src/bresenham.ts:9-54 | the points of the whole walk: max(\|endX - startX\|, \|endY - startY\|) of them, the first being the start |
| Raster.LineLength | src/bresenham.ts:9-54 | the callback runs max(\|endX - startX\|, \|endY - startY\|) times, and never when the start is the end |
| Raster.LineStartsAtStart | src/bresenham.ts:24-32 | when start and end differ, the first point is the start |
| Raster.LineExcludesEnd | src/bresenham.ts:30-32 | the end point is never passed to the callback |
| Raster.LineInBox | src/bresenham.ts:14-53 | every point lies in the bounding box of the two end points, so a coordinate whose extent is 0 never changes even though its step is -1 |
| Raster.LineSteps | src/bresenham.ts:45-53 | consecutive points, and the last point and the end, are distinct 8-neighbours moving towards the end |
| Raster.HorizontalLine | src/bresenham.ts:14-53 | a walk of n cells along x visits x, x + 1, ..., x + n - 1 on one row |
| Raster.HorizontalTrace | src/bresenham.ts:30-54 | on a horizontal walk the error term stays dx and only x steps, from any cell on |
| Wave.Zeros | src/waveSolver.ts:16-24 | the grid has the given shape and holds only zeros |
| Wave.WaveSolver.constructor | src/waveSolver.ts:8-25 | both grids are cellCountX rows of cellCountY zeros; friction 0.58 and speed 20 |
| Wave.AddAt | src/waveSolver.ts:47-49 | the target cell gains amount, the shape is kept and every other cell is unchanged |
| Wave.WaveSolver.AddVelocity | src/waveSolver.ts:47-49 | velocity gains amount at the floored indices and nowhere else; density is unchanged |
| Wave.NewVelocity | src/waveSolver.ts:38-40 | without a density difference the velocity only decays by friction; with positive timestep and speed it rises above friction v exactly when the difference is positive and falls below exactly when it is negative |
| Wave.UpdateCell | src/waveSolver.ts:34-42 | new velocity = friction v + (adjacent sum - 4 d) timeStep speed, density grows by the new velocity, no other cell changes |
| Wave.Sweep | src/waveSolver.ts:32-44 | a partial pass keeps the shape of both grids |
| Wave.SolvePass | src/waveSolver.ts:32-44 | a whole pass keeps the shape of both grids |
| Wave.WaveSolver.Solve | src/waveSolver.ts:27-45 | the new grids are SolvePass of the old ones, and the dimensions are kept |
| Wave.SweepAhead | src/waveSolver.ts:32-44 | cells not yet visited by the pass still hold their old values |
| Wave.SweepSettled | src/waveSolver.ts:32-44 | a visited cell keeps the value it was given for the rest of the pass |
| Wave.Blend | src/waveSolver.ts:32-44 | the grid holding new values before a cell in row-major order and old values from it on |
| Wave.SweepIsBlend | src/waveSolver.ts:32-44 | when the pass reaches a cell, the cells before it already hold their final values and the others their old ones (single buffering) |
| Wave.SolvePassEquations | src/waveSolver.ts:32-44 | each cell's final velocity and density satisfy the update rule over the partly updated neighbour densities |
| Wave.UpdateCellAtRest | src/waveSolver.ts:34-42 | at rest with one density everywhere, updating a cell changes nothing |
| Wave.SweepAtRest | src/waveSolver.ts:32-44 | at rest with one density everywhere, no partial pass changes anything |
| Wave.RestIsFixedPoint | src/waveSolver.ts:32-44 | a field at rest with equal densities is a fixed point of Solve |
| Wave.AdjacentSum | src/waveSolver.ts:67-77 | the sum of the four axis neighbours with each index clamped into the grid; its meaning is stated by AdjacentSumNeighbours |
| Wave.AdjacentSumNeighbours | src/waveSolver.ts:67-77 | at every cell, the adjacent sum less four times the cell is the sum of the differences to the neighbours that exist; a missing neighbour contributes 0 |
| Wave.AdjacentSumAtCorner | src/waveSolver.ts:67-77 | at the corner (0, 0) the missing neighbours are replaced by the cell itself |
| Wave.WaveSolver.GetCellCountX | src/waveSolver.ts:51-53 | the row count of both grids |
| Wave.WaveSolver.GetCellCountY | src/waveSolver.ts:55-57 | the column count shared by every row of both grids |
| Timing.WholeSteps | src/timeManager.ts:35-37 | the floored timestep count k satisfies k ts <= total < (k + 1) ts: the timesteps fill the total up to less than one timestep |
| Timing.PlanUpdate | src/timeManager.ts:35-47 | the carried-over time is in [0, timestep) and the count never exceeds the limit |
| Timing.PlanConservesTime | src/timeManager.ts:35-47 | below the limit, the timesteps run plus the carried-over time make up the total, and no further timestep fits |
| Timing.PlanDropsExcess | src/timeManager.ts:41-47 | above the limit, exactly limit timesteps run and the time of the others is dropped |
| Timing.PlanExample | src/timeManager.ts:35-51 | 23 ms at 10 ms per timestep gives 2 timesteps and 3 ms carried over |
| Timing.LagSpikeExample | src/timeManager.ts:35-51 | 1000 ms at 10 ms per timestep with limit 10 gives 10 timesteps and nothing carried over |
| Timing.TimeManager.constructor | src/timeManager.ts:15-21 | nothing carried over, the last update is now, and timestepSec = timestepMs / 1000 |
| Timing.TimeManager.Update | src/timeManager.ts:27-55 | the callback runs max(0, min(floor(total / ts), limit)) times with timestepSec; the leftover is taken before the cap; the last update time becomes now |
| Timing.TimeManager.GetTimeSinceLastUpdate | src/timeManager.ts:61-67 | the result times the timestep is now - last update + leftover, non-negative once now is past the last update |
| Timing.FreshUpdateFraction | src/timeManager.ts:61-67 | right after an update the result is in [0, 1) |
| TouchPositions.Start | src/touchPos.ts:13-19 | a new record has previous equal to current |
| TouchPositions.Shift | src/touchPos.ts:21-27 | a move makes the old current position the previous one and the new position current |
| TouchPositions.ShiftTwiceSettles | src/touchPos.ts:21-27 | two moves to the same position leave previous equal to current, both that position |
| TouchPositions.ShiftTwiceForgets | src/touchPos.ts:21-27 | after two moves the record does not depend on what it held before |
| TouchPositions.ShiftAtRest | src/touchPos.ts:21-27 | a record at rest moved to where it is stays at rest |
| TouchPositions.TouchPos.constructor | src/touchPos.ts:13-19 | the current and previous positions both equal the arguments |
| TouchPositions.TouchPos.SetPos | src/touchPos.ts:21-27 | the record becomes Shift of its old positions by the arguments |
| TouchTracking.TouchTracker.constructor | src/touchTracker.ts:9-15 | the current and previous positions both equal the arguments |
| TouchTracking.TouchTracker.SetPos | src/touchTracker.ts:17-23 | the record becomes Shift of its old positions by the arguments |
| Input.ClampCell | src/controller.ts:181-192 | the clamped cell is in the grid, and a cell already in the grid is unchanged |
| Input.Inject | src/controller.ts:181-192 | pushing a list of cells keeps the grid's shape |
| Input.InjectAdds | src/controller.ts:181-192 | each cell gains amount once per pushed cell that lands on it after clamping, whatever the order |
| Input.InjectLast | src/controller.ts:181-192 | the last pushed cell adds amount where it lands and nothing elsewhere |
| Input.InjectAppend | src/controller.ts:78-94 | pushing two lists of cells one after the other is pushing their concatenation |
| Input.EventIds | src/controller.ts:113-115 | every identifier of the event's touches is in the set |
| Input.TapCells | src/controller.ts:46-55 | the cells of touchstart's second loop: at most one per touch, and one per touch when no identifier is known |
| Input.TapCellsCount | src/controller.ts:46-55 | there are exactly as many pushes as touches whose identifier is not yet known |
| Input.TapCellsExact | src/controller.ts:46-55 | every touch whose identifier is unknown pushes at its cell, every push comes from such a touch, and there are at most as many pushes as touches |
| Input.TapCellsAllKnown | src/controller.ts:46-55 | when every identifier is known, a touchstart pushes nothing |
| Input.StrokeCells | src/controller.ts:78-94 | the walk from the cell of the previous position to the cell of the current one: max(\|dx\|, \|dy\|) cells, the first being the previous cell |
| Input.DragCells | src/controller.ts:78-94 | every cell of the stroke of every listed touch is pushed |
| Input.StrokeInGrid | src/controller.ts:78-94 | every cell of a touch's stroke is already in the grid, so clamping leaves it unchanged |
| Input.StrokeEnds | src/controller.ts:78-94 | a stroke is empty exactly when the two cells are equal; otherwise it starts at the previous cell; it never contains the current cell |
| Input.MoveTouch | src/controller.ts:63-73 | the touch is tracked at its new position; its previous position is its old current one if it was tracked and the new position if not |
| Input.MoveTouches | src/controller.ts:62-74 | after the first touchmove loop every old key and every identifier of the event is tracked |
| Input.AddNew | src/controller.ts:62-74 | the old insertion order is a prefix of the new one; every identifier of the event is in it; each appended identifier comes from the event and was not there before |
| Input.MoveTouchesKeys | src/controller.ts:62-74 | after the first touchmove loop the keys are the old keys plus the event's identifiers: none is removed |
| Input.MoveTouchesKeeps | src/controller.ts:62-74 | a tracked touch that is not in the event keeps its positions |
| Input.MoveTouchesMovesOnce | src/controller.ts:62-74 | with distinct identifiers, each touch of the event is shifted to its position if it was tracked and started there if not |
| Input.FirstMovePushesNothing | src/controller.ts:62-94 | a touch seen for the first time by a touchmove has an empty stroke |
| Input.Keep | src/controller.ts:117-122 | the insertion order after deleting keys is never longer than before; which keys stay is stated by KeepMembers |
| Input.KeepMembers | src/controller.ts:118-122 | an identifier stays in the insertion order exactly when it was there and is not deleted |
| Input.KeepDistinct | src/controller.ts:118-122 | deleting keys keeps the insertion order free of duplicates |
| Input.KeepNothing | src/controller.ts:118-122 | deleting no key leaves the insertion order unchanged |
| Input.KeepTwice | src/controller.ts:118-122 | deleting one set of keys and then another is deleting their union |
| Input.DistinctAppend | src/controller.ts:68-72 | appending a new key keeps the insertion order free of duplicates |
| Input.DropEventIdentifiers | src/controller.ts:113-115 | the set loses exactly the identifiers of the event's touches |
| Input.ForgetKeepsTracked | src/controller.ts:117-122 | deleting keys from the map and its insertion order keeps them in step |
| Input.TrackAdd | src/controller.ts:68-72 | adding a new key with a fresh record keeps the map and its insertion order in step |
| Input.TrackedOrder | src/controller.ts:79 | the insertion order lists exactly the map's keys, so iterating over the values visits every record |
| Input.MouseStrokeCells | src/controller.ts:140-150 | the mouse drag's walk has as many cells as a touch stroke over the same two positions and starts at the current cell |
| Input.MouseStrokeStartsAtCurrent | src/controller.ts:140-150 | the mouse drag starts at the current cell and never pushes the previous cell |
| Input.Controller.constructor | src/controller.ts:21-31 | no touch is tracked, the mouse is up, and both mouse positions are the origin |
| Input.Controller.ScreenToCellCoords | src/controller.ts:211-229 | the cell is worldToCellCoords for the solver's grid, inside the grid |
| Input.Controller.ClampedAddVelocity | src/controller.ts:181-192 | velocity gains force at the cell clamped into the grid and nowhere else; density and shape are kept |
| Input.Controller.PushAlong | src/controller.ts:90-93 | the bound callback pushes force into each point of the walk in turn |
| Input.Controller.UpdateMousePos | src/controller.ts:194-197 | the previous mouse position becomes the old current one and the current one becomes the argument |
| Input.Controller.HandleMouseDown | src/controller.ts:125-128 | the mouse is down and its positions shift to the argument |
| Input.Controller.HandleMouseUp | src/controller.ts:130-133 | the mouse is up and its positions shift to the argument |
| Input.Controller.HandleMouseMove | src/controller.ts:135-151 | the positions shift; only while the mouse is down, the drag pushes force 10000 along the line from the current cell to the previous one |
| Input.Controller.HandleMouseClick | src/controller.ts:153-159 | the positions shift and force 250000 is pushed at the clicked cell |
| Input.Controller.CollectIdentifiers | src/controller.ts:38-43 | the set built from the map's keys is exactly the set of keys |
| Input.Controller.HandleTouchStart | src/controller.ts:33-56 | force 250000 is pushed at the cell of each touch whose identifier is not yet a key, and the map is unchanged |
| Input.Controller.PushTap | src/controller.ts:51-53 | force goes straight into the cell under the touch, and nowhere else |
| Input.Controller.PushNewTouches | src/controller.ts:46-55 | the second loop of touchstart pushes exactly the cells listed by TapCells |
| Input.Controller.HandleTouchMove | src/controller.ts:58-95 | the records move as MoveTouches says and new keys are appended to the insertion order; then force 10000 is pushed along every tracked touch's stroke, in insertion order |
| Input.Controller.UpdateTouches | src/controller.ts:62-74 | the first loop of touchmove moves the records as MoveTouches says and keeps the map and its order in step |
| Input.Controller.MoveOne | src/controller.ts:63-73 | the records move as MoveTouch says: a known touch's record is shifted in place, and an unknown touch gets a fresh record appended to the insertion order |
| Input.Controller.PushStroke | src/controller.ts:80-93 | force is pushed along the walk from the record's previous cell to its current cell |
| Input.Controller.PushStrokes | src/controller.ts:78-94 | the second loop of touchmove pushes exactly DragCells, and the records are unchanged |
| Input.Controller.HandleTouchEnd | src/controller.ts:97-123 | the keys left are the old keys that are identifiers of the event's touches; retained entries hold the same records; the mouse is unchanged |
| Input.Controller.Delete | src/controller.ts:119-121 | the key leaves the map and its insertion order |
| Input.Controller.Forget | src/controller.ts:117-122 | exactly the given keys leave the map and its insertion order |

## Left out

- src/view.ts (WebGL scene, colour mapping) and src/app.ts (page bootstrap, animation loop, resize): rendering and host plumbing over foreign libraries.
- Controller._RegisterForEvents, Controller._PageToScreen and pageToCamera: these bind window events and read the window size. Events are given in screen coordinates instead, and `preventDefault` has no counterpart.
- Date.now: the clock is a parameter of every TimeManager operation that reads it.
- Callbacks: Bresenham returns the visited points and TimeManager.Update returns the timestep argument of each invocation, in order.
- Floating point: all quantities are reals. Nothing is claimed about rounding, overflow, NaN or the numerical stability of the solver.
- Touch identifiers are integers; the source accepts any value as a Map key.
- Grids are sequence values reassigned by the solver. Row arrays shared between grids (aliasing) are not modelled; the source never shares them.
- Wave.WaveSolver.AddVelocity: requires the floored indices to be inside the grid. The source reads a missing row there and throws, or writes a NaN cell.
- Wave.WaveSolver.GetCellCountY: requires at least one row. The source reads row 0 and throws when there is none.
- Wave.WaveSolver.GetDensity and Wave.WaveSolver.GetVelocity: plain reads of the cell at the floored indices, with the same index requirement as AddVelocity. Being functions, they change nothing. They have no contract beyond their body.
- TouchPositions.TouchPos getters and TouchTracking.TouchTracker getters: plain reads of the four fields with no contract beyond their body.
- Timing.TimeManager.constructor: requires a positive timestep. With timestep 0 the source divides by zero and counts Infinity or NaN timesteps. With a negative timestep it counts a negative number: 23 ms at -10 ms gives floor(-2.3) = -3 and a leftover of -7 ms, so no callback runs and the leftover leaves [0, timestep).
- Grids without cells: the source behaves differently with no rows and with rows but no columns. With no rows, _ScreenToCellCoords throws when GetCellCountY reads row 0 (src/waveSolver.ts:56), before anything is written. With rows but no columns, the clamp yields column 0 and AddVelocity writes NaN one past the end of an empty row (src/waveSolver.ts:48). The members below require at least one row and one column where they would reach either case.
- Input.Controller.HandleTouchStart: requires a grid with cells when some touch is new, since only a new touch reaches _ScreenToCellCoords.
- Input.Controller.HandleTouchMove: requires a grid with cells when a touch is tracked or the event has touches, since each tracked touch reaches _ScreenToCellCoords.
- Input.Controller.HandleMouseMove: requires a grid with cells while the mouse is down, since only then does it reach _ScreenToCellCoords.
- Input.Controller.HandleMouseClick: requires a grid with cells, since it always reaches _ScreenToCellCoords.
- Input.Controller.ScreenToCellCoords: requires a grid with cells.
- Input.Controller.ClampedAddVelocity: requires a grid with cells.
- Input.Controller.PushAlong: requires a grid with cells.
- Input.Controller.PushTap: requires a grid with cells.
- Input.Controller.PushStroke: requires a grid with cells.
- Input.Controller.PushStrokes: requires a grid with cells when a touch is tracked.
- Input.Controller.PushNewTouches: requires a grid with cells when some touch is new.
- Input.Controller handlers require the map and its insertion order to be in step (Valid). The constructor establishes this and every handler keeps it.
- TouchTracking.TouchTracker is not used by the controller; it is modelled on its own.
