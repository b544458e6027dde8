# Navigation grid and wandering agent, modelled in Dafny

This project models the navigation core of a small three.js/Rapier world in
which one character wanders among trees:

- **`Pathfinding`** (`pathfinding.dfy`) models `src/core/PathfindingManager.js`.
  The walkability grid is a class field `grid: array2?<bool>`, indexed
  `[y, x]`, and is null until `Setup` runs. The world↔grid mapping is pure
  arithmetic on `real`. Obstacle marking and clearing are nested loops that
  write the grid in place. `FindPath` checks its guard, hands a value copy of
  the grid to the external A* finder, and maps the answer to cell centres.
  `GetRandomWalkablePoint` is a rejection-sampling loop over supplied random
  draws. The methods are proved against `Stamp`, a function on the grid's
  value (`Snapshot`). Lemmas about `Stamp` give idempotence, mark-then-clear
  restoration, and the absence of reference counting.
- **`AiControl`** (`ai_controller.dfy`) models `src/components/AIController.js`.
  The class `AIController` keeps `state`, `timer`, `path` and
  `currentPathIndex`. Its methods are proved against the transition functions
  `Decide` and `Step` on an `Agent` value. The class invariant `Inv` says
  three things: the state is never TURNING; while following a path, the
  cursor lies in `1..|path|`; an idle agent has a positive wait left.
  `RunKeepsInv` proves that every sequence of frames preserves `Inv`.
- **`Wrappers`** (`wrappers.dfy`) holds the `Option` type that stands for
  "object or `null`".

The code's behaviour differs from what its names suggest in these places:

- The obstacle rectangle is half-open (`start <= x < end`), not inclusive.
- Out-of-range cells are skipped, not clamped. The effect is the same.
- `setup` does not reject non-positive dimensions.
- `getRandomWalkablePoint` has no retry bound. On a fully blocked grid it
  never returns.
- The start cell of a path request is not checked for walkability.

## Model

| member | source | states |
|---|---|---|
| `Pathfinding.WorldToGrid` | src/core/PathfindingManager.js:20-24 | the cell returned is the one whose unit square, offset by half the grid size, contains the point's x/z |
| `Pathfinding.GridToWorld` | src/core/PathfindingManager.js:27-31 | the point returned has height 0.5 and maps back to the same cell (grid→world→grid round trip for every integer cell) |
| `Pathfinding.SnapToCellCentre` | src/core/PathfindingManager.js:20-31 | world→grid→world moves a point by at most half a unit on x and on z (it lands on its cell's centre) |
| `Pathfinding.Footprint` | src/core/PathfindingManager.js:35-42 | the obstacle rectangle's start is `worldToGrid` of the low corner `position - size/2` and its end is `worldToGrid` of the high corner `position + size/2`; its extent on each axis is within one cell of the size |
| `Pathfinding.FootprintCovers` | src/core/PathfindingManager.js:35-45 | a cell is covered if and only if its far edge, on both axes, lies above the obstacle's low side and at or below its high side |
| `Pathfinding.FootprintOfWholeSize` | src/core/PathfindingManager.js:35-42 | a footprint of whole size n × m spans exactly n columns and m rows |
| `Pathfinding.TreeFootprintIsOneCell` | src/world/Elements.js:32 | the 1 × 1 footprint a tree registers covers exactly one cell |
| `Pathfinding.StampCells` | src/core/PathfindingManager.js:44-50 | stamping a rectangle keeps the grid's shape, sets every in-bounds cell of the rectangle and leaves every other cell unchanged |
| `Pathfinding.StampIdempotent` | src/core/PathfindingManager.js:44-50 | marking (or clearing) the same rectangle twice gives the same grid as doing it once |
| `Pathfinding.MarkThenClearRestores` | src/core/PathfindingManager.js:86-103 | mark then clear of the same rectangle restores the grid if and only if every in-bounds cell of it was walkable before |
| `Pathfinding.ClearOneOfTwo` | src/core/PathfindingManager.js:96-102 | no reference counting: after marking two rectangles and clearing the second, all of the second is walkable (shared cells included), the rest of the first stays blocked, and every other cell keeps its flag |
| `Pathfinding.MapToWorld` | src/core/PathfindingManager.js:70 | mapping path cells to world points keeps the length, and each waypoint is `gridToWorld` of its cell (the cell centre, height 0.5) and maps back to that cell |
| `Pathfinding.DrawnCell` | src/core/PathfindingManager.js:78-79 | a cell drawn with `floor(random * size)` lies inside the grid on every axis whose size is positive |
| `Pathfinding.PathfindingManager.constructor` | src/core/PathfindingManager.js:4-11 | no grid yet; the finder is the one given |
| `Pathfinding.PathfindingManager.Setup` | src/core/PathfindingManager.js:14-17 | a fresh grid of the given width and height with every cell walkable |
| `Pathfinding.PathfindingManager.Snapshot` | src/core/PathfindingManager.js:66 | the copy has the grid's shape and the grid's flag in every cell |
| `Pathfinding.PathfindingManager.IsWalkableAt` | src/core/PathfindingManager.js:61 | the live grid's answer agrees with the copy, and an out-of-bounds cell is not walkable |
| `Pathfinding.PathfindingManager.MarkObstacle` | src/core/PathfindingManager.js:34-51 | the new grid is the old grid with the footprint's in-bounds cells set to unwalkable and nothing else changed |
| `Pathfinding.PathfindingManager.ClearObstacle` | src/core/PathfindingManager.js:86-103 | the new grid is the old grid with the footprint's in-bounds cells set to walkable and nothing else changed |
| `Pathfinding.PathfindingManager.StampRect` | src/core/PathfindingManager.js:44-50 | the nested row/column loop, with its bounds check, writes exactly the stamped grid |
| `Pathfinding.PathfindingManager.FindPath` | src/core/PathfindingManager.js:54-71 | null without a grid; otherwise a path comes back if and only if the destination cell is walkable and the finder, run on a copy of the grid, found one (the start cell is not checked); each waypoint is `gridToWorld` (the centre, height 0.5) of the finder's cell at the same position and maps back to it; only reads the grid |
| `Pathfinding.PathfindingManager.GetRandomWalkablePoint` | src/core/PathfindingManager.js:74-83 | null exactly when there is no grid; a returned point is the centre of the first drawn cell that is walkable, and every earlier draw hit a blocked cell; if no draw hits, the source is still looping; on a grid with no walkable cell it never returns |
| `AiControl.Initial` | src/components/AIController.js:20-23 | after construction the agent is IDLE with `timer == idleTime` (3), no path, `currentPathIndex == 0`, and satisfies the invariant |
| `AiControl.ResetTimer` | src/components/AIController.js:50 | a fresh wait `idleTime * (0.5 + r)` lies in `[0.5·idleTime, 1.5·idleTime)` |
| `AiControl.Decide` | src/components/AIController.js:26-51 | FOLLOWING_PATH is entered if and only if choice < 0.5, a destination came back and the path has more than one point, and then the cursor is 1; every other outcome is IDLE with a wait in range and an unchanged cursor; `path` holds the path request's result whenever a request was made; the invariant holds afterwards |
| `AiControl.Step` | src/components/AIController.js:53-91 | IDLE: the timer drops by `deltaTime`, and a decision is taken only when it reaches ≤ 0; FOLLOWING_PATH with no path or an exhausted one: IDLE with a wait in range, cursor and path unchanged; otherwise the cursor advances by exactly 1 when the waypoint is within 0.5 horizontally and is unchanged otherwise; the invariant is preserved |
| `AiControl.Intent` | src/components/AIController.js:56-79 | the controller stops the character exactly when IDLE, and steers it towards `path[currentPathIndex]` exactly when following a path that is not exhausted |
| `AiControl.RunKeepsInv` | src/components/AIController.js:36-87 | any sequence of frames from a state satisfying the invariant ends in a state satisfying it |
| `AiControl.NeverTurning` | src/components/AIController.js:4-8 | from construction, whatever the frames, the state is never TURNING, and while following a path the cursor lies in `1..|path|` |
| `AiControl.AIController.constructor` | src/components/AIController.js:11-24 | the fields start as in `Initial`, and the invariant holds |
| `AiControl.AIController.DecideNextAction` | src/components/AIController.js:26-51 | the fields afterwards are `Decide` of the fields before, and the invariant holds |
| `AiControl.AIController.Update` | src/components/AIController.js:53-91 | the fields afterwards are `Step` of the fields before, the motion call is `Intent` of the state before, and the invariant holds |

## Left out

- The A* search (`AStarFinder`, `Grid.clone` from the external `pathfinding` package) is left out because its source is not part of this model. It is the constructor parameter `finder`, an arbitrary function from a grid value and two cells to an optional cell sequence. Shortest paths, 8-way moves, the no-corner-cutting rule, tie-breaks and waypoint walkability are therefore not claimed.
- `IsWalkableAt` treats an out-of-bounds cell as not walkable. This is assumed of the external grid class.
- `Math.random()` is left out because it is random. Its values are passed in as parameters of type `Unit`, the reals in `[0, 1)`.
- `GetRandomWalkablePoint` does not model non-termination directly. It consumes a finite sequence of draws and answers `StillDrawing` where the source would keep drawing.
- `Setup` takes natural-number dimensions. What the external grid does with negative dimensions is not part of this model.
- `MarkObstacle` and `ClearObstacle` require a grid, because the source dereferences `this.grid` and throws when `setup` has not run. The same holds for `worldToGrid`, which the model takes as a function of explicit grid dimensions.
- Coordinates, sizes and timers are exact reals, not IEEE doubles. Rounding in the floating-point sums is not modelled.
- `Decide` and `Step` do not model the link to the grid manager. The random destination and the path request's result arrive as `Tick` fields and are not constrained to be `GetRandomWalkablePoint`'s and `FindPath`'s answers.
- The character's position is a single `Tick` field, which merges two positions. The path request's start is the rigid body's translation. The distance test uses the mesh position, which `Character.update` copies from the translation only after the controller's update in the same frame (src/main.js:68-79). The mesh position is therefore one physics step behind the translation.
- The horizontal distance test is compared as squared distance < 0.25, with no square root.
- Character motion (`stopMovement`, `rotateTowards`, `moveTo`) is left out because it is floating-point vector and quaternion maths plus physics-engine calls. Only which call is made, and towards which waypoint, is returned as a `Motion`. The speeds `rotationSpeed` (4) and `moveSpeed` (3) are arguments of those calls and are not modelled.
- The unused field `scale` (1), the singleton export, and all `console.log` output are left out because they have no effect on navigation.
- The physics wrapper, scene and camera management, mouse interaction, world and chunk construction, and the page's animation loop are presentation and I/O. They are not part of this model.
