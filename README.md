# Sliding-ice puzzle engine, modelled in Dafny

The game is played on a 10×10 grid. The outer ring and a few random interior cells are
walls (`WALL`), and one interior cell is the target (`TARGET`). The player (`PLAYER`) slides
in one of four directions until the next cell is a wall or off the grid.

The model covers the engine behind that game:

- **Grid construction** (`MapCreator.initialize` and `addStrategicWalls`). The ring is walled, then 10 to 15 interior walls are drawn. A drawn wall is kept only when the interior EMPTY cells stay 4-connected.
- **The connectivity flood fill** (`checkConnectivity`).
- **Target placement** (`placeTarget`), away from the player.
- **The bounds-checked cell accessors.**
- **The two breadth-first checks**: `checkSolvable`, the least number of slides after which a slide has passed over or landed on the target; and `checkAllCellsReachable`, whether every EMPTY or TARGET cell is passed over by some slide sequence.
- **The player** (`place`, `reset`, `calculateMovePath`).
- **The string hash** that seeds the level, and the position tests.

The repository has two revisions of the grid class:

- `slide_puzzle/mapCreator.js` writes each slide inline. It is modelled by module `InlineSolver`.
- `mapCreator.js` factors the slide into `simulateMove`, which stops on the target. It is modelled by module `MoveSolver`.

Their grid construction, flood fill, target placement and accessors are the same code. That code is modelled once, in module `Board`, and cited from `slide_puzzle/mapCreator.js`. Module `Players` depends on `Board`, `Slides` and `Utils`.

State that the source updates in place is kept in classes:

- `Board.MapCreator` has the grid as a `seq<seq<int>>` field (`grid[y][x]`) and `targetPos`.
- `Players.Player` has `pos`, `initialPos` and `moveCount`.
- `Random.SeededRandom` has its `seed`.

Loops stay loops, each with its invariants. The two searches are proved against specifications in the following modules:

- **`Slides`** (what a slide is): `Path`, a slide's list of entered cells, and `End`, its resting cell.
- **`Search`** (a generic breadth-first theory over a successor map `Graph`):
  - `Level(G, start, k)` is the set of cells reachable in at most k edges;
  - `Frontier` and `Sweep` are the queue invariants, with one step lemma per queue operation.
- **`Reach`** (the two graphs the searches walk):
  - `SolveGraph` follows the slides that do not touch the target;
  - `SweepGraph` follows all slides, and `SweepCover` collects the cells those slides pass over;
  - `ShortestSolution` and `AllReachable` are the promised results.

`ShortestSolutionUnique` shows that at most one result meets `ShortestSolution`. Because both revisions of `checkSolvable` are proved to return a result meeting it, they return the same result on every grid.

The random generator's floating-point formula is a parameter of `SeededRandom`, called `sample`. It is an arbitrary function from the seed to a value in [0, 1).

## Model

| member | source | states |
|---|---|---|
| Constants.Code | slide_puzzle/constants.js:13-16 | The direction codes UP=0, RIGHT=1, DOWN=2, LEFT=3 are a bijection with the four directions. |
| Constants.StepBack | slide_puzzle/mapCreator.js:123-128 | A step followed by a step in the opposite direction returns to the start, so 4-neighbourhood is symmetric. |
| Grid.GetAfterSet | slide_puzzle/mapCreator.js:176-193 | After setCellType, getCellType at that cell gives the value written. Every other cell, and every cell after an out-of-bounds write, is unchanged. |
| Grid.GetOutOfBounds | slide_puzzle/mapCreator.js:176-181 | An out-of-bounds read gives WALL. |
| Grid.SetOutOfBounds | slide_puzzle/mapCreator.js:189-193 | An out-of-bounds write leaves the grid unchanged. |
| Grid.FreshConnected | slide_puzzle/mapCreator.js:18-32 | The grid with a walled ring and an all-EMPTY interior is connected: every nonempty set of interior EMPTY cells closed under neighbour steps is all of them. |
| Grid.ConnectedFromCover | slide_puzzle/mapCreator.js:114-149 | A flood fill that reaches every interior EMPTY cell, and lies inside every closed set containing its start, proves the grid connected. |
| Grid.DisconnectedWitness | slide_puzzle/mapCreator.js:147-149 | A closed, nonempty, proper subset of the interior EMPTY cells proves the grid disconnected. |
| Grid.ComplementClosed | slide_puzzle/mapCreator.js:130-144 | The interior EMPTY cells outside a closed set form a closed set too. |
| Grid.SubsetSameSize | slide_puzzle/mapCreator.js:147-149 | A subset as large as its superset is the superset; this is why comparing counts decides connectivity. |
| Random.Scale | seededRandom.js:28-30 | floor(u·(max−min+1))+min is in [min, max] for u in [0, 1), and is min for u = 0. |
| Random.SeededRandom.constructor | seededRandom.js:9-11 | Stores the given seed, and the oracle `sample` standing for the floating-point formula. |
| Random.SeededRandom.Random | seededRandom.js:17-20 | Returns the sample of the current seed and advances the seed by one. |
| Random.SeededRandom.RandomInt | seededRandom.js:28-30 | Returns a value in [min, max], Scale of the next sample, and advances the seed by one. |
| Board.MapCreator.constructor | slide_puzzle/mapCreator.js:9-13 | The grid is empty, the target is (0,0), and the generator is the one given. |
| Board.MapCreator.Initialize | slide_puzzle/mapCreator.js:18-32 | The result is a well-formed 10×10 grid whose ring is WALL and which is connected. At most 15 walls are added, all interior, and every other interior cell is EMPTY. |
| Board.MapCreator.AddStrategicWalls | slide_puzzle/mapCreator.js:37-81 | numWalls is the generator's first draw scaled to [10, 15]. Fewer than numWalls walls are added exactly when one wall ran out of attempts, and that wall used all 100 draws (50 attempts of two draws each), after every kept wall used between 2 and 100. The final grid, walls and seed are those of the ghost function AddWalls, which runs each wall's attempts in order from the draws of the generator and stops at the first wall given up, so no wall is tried after it. The draw counts come from AddWallsUse, and connectivity from AddWallsPlain. Only interior non-WALL cells become WALL, and rejected attempts are reverted to EMPTY. When the interior held only EMPTY and WALL, no other cell changes, and a connected grid stays connected. |
| Board.MapCreator.WallLoop | slide_puzzle/mapCreator.js:44-80 | The `for` loop over the walls, from no walls. Every cell it walls is a kept wall, every other changed cell is a rejected attempt set back to EMPTY, and its grid, walls, seed and early stop are those of AddWalls from the grid it started on. |
| Board.MapCreator.NextWall | slide_puzzle/mapCreator.js:45-79 | One turn of the `for` loop: the attempt loop of one wall is the next step of AddWalls. A kept wall adds one cell, and a wall given up ends the run there, with the walls unchanged. |
| Board.MapCreator.PlaceWall | slide_puzzle/mapCreator.js:51-74 | The attempt loop for one wall, of at most 50 attempts of two draws each. A kept wall is a new interior cell, leaves the grid connected, and took between 2 and 100 draws. A failure took all 100 draws and reverts its tentative walls to EMPTY; when the interior held only EMPTY and WALL, the grid is then unchanged. The outcome, grid, walls and seed are those of the ghost function WallAttempts, which stops at the first attempt that keeps its wall. |
| Board.MapCreator.WallAttempt | slide_puzzle/mapCreator.js:52-73 | One attempt, of two draws: x and then y in [1, 8]. A cell already in wallPositions or already a wall is left alone. Otherwise it is walled, and kept exactly when the grid stays connected, else set back to EMPTY. The result equals the ghost function Attempt of the old grid, walls and seed. |
| Board.MapCreator.TryWall | slide_puzzle/mapCreator.js:57-71 | An attempt on a cell that is neither a wall nor in wallPositions. It keeps the cell walled exactly when the walled grid is connected. Otherwise it sets the cell back to EMPTY and leaves wallPositions as it was. |
| Board.Attempt | slide_puzzle/mapCreator.js:52-73 | One attempt uses exactly two draws. A kept wall adds one cell to the walls, on a grid that the connectivity check accepted, and a rejected or skipped attempt leaves the walls unchanged. |
| Board.WallAttempts | slide_puzzle/mapCreator.js:51-74 | Whenever the attempt loop keeps a wall, the connectivity check accepted the resulting grid. |
| Board.WallAttemptsUse | slide_puzzle/mapCreator.js:51-74 | From attempt a on, a kept wall is one new cell after between 2 and 2·(50−a) draws. A wall given up used exactly 2·(50−a) draws and adds nothing. |
| Board.PlainRevert | slide_puzzle/mapCreator.js:57-69 | When the interior holds only EMPTY and WALL, walling a free interior cell keeps that true, and setting the cell back to EMPTY restores the grid exactly. |
| Board.WallAttemptsPlain | slide_puzzle/mapCreator.js:51-74 | On such a grid, the attempt loop keeps the interior EMPTY and WALL only, and a wall given up leaves the grid exactly as it was. |
| Board.AddWallsUse | slide_puzzle/mapCreator.js:39-80 | From wall i of n on: with k walls added, k ≤ n−i, and k < n−i exactly when a wall was given up. The run takes between 2k and 100k draws, plus exactly 100 for the wall given up. |
| Board.AddWallsPlain | slide_puzzle/mapCreator.js:44-80 | On such a grid, the wall loop either ends with no wall added and the grid unchanged, or ends on a grid the connectivity check accepted. |
| Board.MapCreator.FirstEmpty | slide_puzzle/mapCreator.js:88-99 | Returns −1 exactly when there is no interior EMPTY cell. Otherwise it returns the first such cell in row-major order. |
| Board.MapCreator.CountEmpty | slide_puzzle/mapCreator.js:104-112 | Returns the number of interior EMPTY cells. |
| Board.MapCreator.FloodFill | slide_puzzle/mapCreator.js:114-145 | The visited set contains only interior EMPTY cells, every one reachable from the start, and is closed under neighbour steps. |
| Board.MapCreator.VisitNeighbours | slide_puzzle/mapCreator.js:130-144 | The visited set grows only by cells added to the queue, and the count of unvisited cells falls by the number enqueued. |
| Board.FloodFillVerdict | slide_puzzle/mapCreator.js:147-149 | After the fill, its size equals the number of interior EMPTY cells iff the grid is connected. |
| Board.MapCreator.CheckConnectivity | slide_puzzle/mapCreator.js:87-150 | Returns true iff the grid is connected, including true when there is no interior EMPTY cell. |
| Board.MapCreator.PlaceTarget | slide_puzzle/mapCreator.js:156-168 | When placed, the target is interior, its cell was EMPTY and is now TARGET, only that cell changed, and it is not adjacent to the player. Otherwise the grid is unchanged. |
| Board.MapCreator.GetCellType | slide_puzzle/mapCreator.js:176-181 | Returns the cell's code in bounds and WALL out of bounds. |
| Board.MapCreator.SetCellType | slide_puzzle/mapCreator.js:189-193 | Writes the cell in bounds and nothing out of bounds; no other cell changes. |
| Slides.PathSteps | slide_puzzle/mapCreator.js:269-297 | Each entered cell is one step in the slide direction from the previous one, and is in bounds and not WALL. |
| Slides.PathStopsOnce | mapCreator.js:202-206 | The stop cell occurs in a stopping slide only as its last entered cell. |
| Slides.PathEndsBlocked | mapCreator.js:193-196 | Unless the slide stopped on the stop cell, the cell after its resting cell is off the grid or WALL. |
| Slides.PathShape | player.js:81-119 | The start followed by the entered cells has the shape of a slide, and its last element is the resting cell. |
| Slides.SlideUnique | player.js:85-121 | Any sequence with the shape of a slide from p is exactly that slide, so the shape determines the path. |
| Slides.StopIsPrefix | mapCreator.js:203-206 | The slide that stops on t is a prefix of the full slide. Either both touch t or neither does, and when neither does they are equal. |
| Slides.EndOnPath | slide_puzzle/mapCreator.js:289-295 | The resting cell is the start or an entered cell, and every entered cell is in bounds. |
| Slides.SlideUnfold | slide_puzzle/mapCreator.js:293-295 | Entering a free cell other than the stop continues the same slide from there, with the same resting cell. |
| Slides.MissedStop | mapCreator.js:203-206 | A slide that did not stop on t is the full slide, which never touches t. |
| Slides.StoppedSlide | mapCreator.js:203-209 | A stopping slide's last cell is its resting cell. It entered t iff the full slide touches t, and otherwise it rests where the full slide rests. |
| Slides.EnterCell | mapCreator.js:197-200 | One entered cell extends the recorded prefix: the rest of the slide is the slide from that cell, or nothing when it is the stop. |
| Search.LevelGrows | slide_puzzle/mapCreator.js:234-347 | The set reachable in at most a edges lies inside the set reachable in at most b edges, for a ≤ b. |
| Search.ClosedContainsLevel | slide_puzzle/mapCreator.js:319-346 | A set containing the start and closed under successors contains every level. |
| Search.LevelInGraph | slide_puzzle/mapCreator.js:319-346 | Every reachable cell is a node of a complete graph. |
| Search.SearchInit | slide_puzzle/mapCreator.js:219-231 | The queue holding only the start at 0 moves, with only the start visited, meets the breadth-first invariant. |
| Search.TargetAtHead | slide_puzzle/mapCreator.js:238-250 | If the target is ever dequeued, it is the start at 0 moves, so minMoves 0 means that the start is the target. |
| Search.Dequeue | slide_puzzle/mapCreator.js:234-235 | Removing the head keeps the invariant, with the head at its own level, first reached there. |
| Search.Enqueue | slide_puzzle/mapCreator.js:319-346 | Adding an unvisited successor at moves+1 keeps the invariant. Each cell is enqueued at most once. |
| Search.Finish | slide_puzzle/mapCreator.js:254-347 | A fully expanded head keeps the invariant, and the number of unexpanded nodes strictly falls, so the loop terminates. |
| Search.Found | slide_puzzle/mapCreator.js:298-309 | A dequeued node with a target-touching move lies at its level, and no earlier level has one. |
| Search.Exhausted | slide_puzzle/mapCreator.js:354 | With the queue empty, no level has a target-touching move. |
| Search.SweepInit | slide_puzzle/mapCreator.js:376-386 | The start alone, visited and touched, meets the sweep invariant. |
| Search.SweepTouch | slide_puzzle/mapCreator.js:422-431 | Deleting cells that a slide from a visited cell passes over keeps the sweep invariant. |
| Search.SweepEnqueue | slide_puzzle/mapCreator.js:435-445 | Enqueuing an unvisited landing cell keeps the sweep invariant. |
| Search.SweepFinish | slide_puzzle/mapCreator.js:389-447 | A fully expanded head keeps the invariant, and the number of unexpanded nodes falls. |
| Search.SweepVerdict | slide_puzzle/mapCreator.js:447-450 | At the end, the touched cells are exactly the start and the cells passed over from some reachable cell. |
| Reach.ShortestSolutionUnique | slide_puzzle/mapCreator.js:249 | At most one result is the least number of slides to touch the target, so the two revisions agree. |
| Reach.SolveGraphComplete | slide_puzzle/mapCreator.js:319-346 | Every resting cell of a non-touching slide is again a node, so the search stays inside a finite graph. |
| Reach.MoveIntro | slide_puzzle/mapCreator.js:319-321 | A slide that does not touch the target is an edge to its resting cell. |
| Reach.HitIntro | slide_puzzle/mapCreator.js:298-309 | A cell with a target-touching slide is a hit cell. |
| Reach.TriedNext | slide_puzzle/mapCreator.js:254 | Having processed one more direction without touching the target adds its resting cell to those visited. |
| Reach.MovesTried | slide_puzzle/mapCreator.js:254-347 | After all four directions without touching, every successor is visited and the cell is no hit cell. |
| Reach.SolutionAt | slide_puzzle/mapCreator.js:309 | A hit cell first reached at level m makes m+1 the least number of slides, as claimed at line 249. |
| Reach.NoSolution | slide_puzzle/mapCreator.js:354 | If no level contains a hit cell, "not solvable, 0" is the promised result. |
| Reach.SweepGraphComplete | mapCreator.js:391-395 | Every resting cell of any slide is again a node. |
| Reach.SweepIntro | mapCreator.js:379-395 | Each slide gives an edge to its resting cell and covers the cells it passes over. |
| Reach.SweptNext | slide_puzzle/mapCreator.js:393 | One more direction processed adds its resting cell to the visited cells and its cells to the touched cells. |
| Reach.SlidesTried | slide_puzzle/mapCreator.js:393-446 | After all four directions, every successor is visited and every covered cell is touched. |
| Reach.SweepResult | slide_puzzle/mapCreator.js:450 | When the sweep ends, the set of untouched EMPTY/TARGET cells is empty iff every such cell is reachable. |
| Reach.TouchedFromCovered | slide_puzzle/mapCreator.js:422-431 | Being touched from a reachable cell is the same as the generic covered notion over the sweep graphs. |
| InlineSolver.TrySlide | slide_puzzle/mapCreator.js:268-312 | The inline slide reports touching the target iff the full slide passes over or lands on it; otherwise it ends at the slide's resting cell. |
| InlineSolver.TrySlides | slide_puzzle/mapCreator.js:254-347 | Either a target-touching direction is found from the current cell, or every resting cell is enqueued or already visited. |
| InlineSolver.CheckSolvable | slide_puzzle/mapCreator.js:201-355 | The result meets ShortestSolution: (true, 0) iff the start is the target; (true, n) with n the least number of slides touching the target; otherwise (false, 0). |
| InlineSolver.CollectFreeCells | slide_puzzle/mapCreator.js:367-374 | Collects exactly the EMPTY and TARGET cells. |
| InlineSolver.SweepSlide | slide_puzzle/mapCreator.js:398-433 | Ends at the full slide's resting cell and deletes exactly the cells the slide enters. |
| InlineSolver.SweepAll | slide_puzzle/mapCreator.js:389-447 | Runs the queue to empty, keeping the sweep invariant; what is left is the untouched EMPTY/TARGET cells. |
| InlineSolver.SweepSlides | slide_puzzle/mapCreator.js:393-446 | All four slides from the current cell are swept: their cells deleted and their new landing cells enqueued. |
| InlineSolver.CheckAllCellsReachable | slide_puzzle/mapCreator.js:362-451 | Returns true iff every EMPTY or TARGET cell is the start or is passed over by a full slide from a cell reachable by full slides. |
| MoveSolver.SimulateMove | mapCreator.js:166-210 | The path is the start followed by the cells entered, and has the shape of a slide. endPos is its last element. hitTarget holds iff the target is among the entered cells, iff it is the last one. When the target is not hit, the slide is the full slide. |
| MoveSolver.TryMoves | mapCreator.js:296-330 | Either some simulated move hits the target, or every endPos is enqueued or already visited. |
| MoveSolver.CheckSolvable | mapCreator.js:261-339 | The result meets the same ShortestSolution as the inline revision. |
| MoveSolver.DeletePath | mapCreator.js:383-388 | Deletes exactly the cells on the path. |
| MoveSolver.SweepMove | mapCreator.js:374-395 | One simulated move from the current cell: its path is deleted and its endPos enqueued if new. |
| MoveSolver.SweepMoves | mapCreator.js:377-396 | All four simulated moves from the current cell are swept. |
| MoveSolver.SweepAll | mapCreator.js:373-397 | Runs the queue to empty, keeping the sweep invariant over the slides that stop on the target. |
| MoveSolver.CheckAllCellsReachable | mapCreator.js:346-401 | Returns true iff every EMPTY or TARGET cell is the start or is passed over by a target-stopping slide from a cell reachable by such slides. Cells beyond the target count only when another slide passes them. |
| Players.ResetClearsCurrent | player.js:44 | Reset writes EMPTY over the current cell, even when it holds the target, unless it is the start. |
| Players.ResetCellsEffect | player.js:44-48 | After reset, the start holds PLAYER and every other cell apart from the old position is unchanged. |
| Players.ResetIdempotent | player.js:42-59 | A second reset leaves the grid as the first left it. |
| Players.Player.constructor | player.js:10-17 | Starts at (0,0) with initial position (0,0) and no moves. |
| Players.Player.Place | player.js:22-37 | When placed, pos is interior, its cell was not WALL and is now PLAYER (nothing else changed), and initialPos equals pos. |
| Players.Player.Reset | player.js:42-59 | The grid becomes ResetCells of the old grid, pos equals initialPos, and moveCount is 0. |
| Players.Player.CalculateMovePath | player.js:73-124 | The path is pos followed by the slide stopping on the target, and has the shape of a slide. It changes no state. |
| Utils.ToInt32 | utils.js:6-7 | The result is a signed 32-bit value congruent to the input modulo 2^32. |
| Utils.ToInt32OfCongruent | utils.js:6-7 | Congruent inputs give the same 32-bit value. |
| Utils.ToInt32OfInt32 | utils.js:7 | A signed 32-bit value is unchanged by `hash & hash`. |
| Utils.ShiftLeft5 | utils.js:6 | `hash << 5` is the 32-bit value congruent to 32·hash. |
| Utils.HashStep | utils.js:5-7 | One loop step gives ToInt32(31·hash + charCode). |
| Utils.HashFold | utils.js:3-8 | The accumulated hash is a 32-bit value and is 0 on the empty string. |
| Utils.HashFoldIsPoly31 | utils.js:3-8 | The accumulated hash is the 32-bit reduction of the polynomial Σ c_i·31^(n−1−i). |
| Utils.Abs | utils.js:9 | Math.abs: non-negative and equal to v or −v. |
| Utils.HashString | utils.js:2-10 | Returns Math.abs of the 32-bit reduction of the 31-polynomial, in [0, 2^31]; 2^31 arises from −2^31. The empty string hashes to 0. |
| Utils.ArePositionsAdjacent | utils.js:12-21 | True iff both coordinate differences are in [−1, 1], i.e. Chebyshev distance ≤ 1, including equal positions. |
| Utils.AdjacentSymmetric | utils.js:17-20 | Adjacency is symmetric. |
| Utils.ArePositionsEqual | utils.js:23-25 | True iff the positions are equal. |
| Utils.EqualImpliesAdjacent | utils.js:12-25 | Equal positions are adjacent. |
| LegacyUtils.HashString | slide_puzzle/utils.js:10-18 | The same value as the utils.js hash for every string, in [0, 2^31], and 0 on the empty string. |
| LegacyUtils.ArePositionsAdjacent | slide_puzzle/utils.js:26-37 | True iff Chebyshev distance ≤ 1; equal to the utils.js test. |
| LegacyUtils.AdjacentSymmetric | slide_puzzle/utils.js:33-36 | Adjacency is symmetric. |
| LegacyUtils.ArePositionsEqual | slide_puzzle/utils.js:45-47 | True iff x and y both match; equal to the utils.js test. |

## Left out

- Random.SeededRandom: the value `frac(sin(seed)·10000)` is floating point. It is the parameter `sample`, and no concrete seed or layout is reproduced.
- Board.MapCreator.PlaceTarget: the unbounded do-while sampling loop takes a `maxAttempts` bound and reports `placed`, because random sampling need not terminate.
- Players.Player.Place: the same applies to its do-while loop, under the same bound.
- The game manager (gameManager.js, slide_puzzle/gameManager.js) is not modelled. Its retry loop is driven by the clock, timers, alerts and the DOM.
- Animation, rendering and keyboard input (animation.js, renderer.js, inputHandler.js) are not modelled: they are canvas and event code.
- Not modelled, since they are DOM writes and debug logging:
  - every DOM write in the engine, including the `solvableStatus` text;
  - the `silent` flag;
  - the date-dependent debug logging.
- Player.updateScoreDisplay (a DOM write) and `pixelPos` (pixel coordinates for drawing) are not modelled.
- calculateAnimationDuration is not modelled: it uses `Math.sqrt`.
- The Node test script in slide_puzzle is not modelled: it only logs.
- The `distances`, `paths` and `moveCounts` maps and the per-node `path` arrays of checkSolvable are dropped. They never affect the result.
- Sets keyed by the string `"x,y"` are modelled as sets of positions.
- Directions are a datatype, so a direction code outside 0..3 cannot occur. In the JS, such a code leaves the next cell equal to the current one. The slide then stops after one push when that cell is the target (player.js:116-118, mapCreator.js:203-205), and otherwise pushes the same cell forever.
- Some source loops are split into helper methods so each proof stays small: TrySlides, TryMoves, SweepAll, SweepSlides, SweepMoves, SweepMove, WallLoop, NextWall, PlaceWall, WallAttempt, TryWall, VisitNeighbours, FirstEmpty and CountEmpty. The loop structure and its order of effects are kept.
- The solver routines take the `MapCreator` as a parameter instead of being its methods, because they only read `grid` and `targetPos`.

Two behaviours of the code worth noting:

- `reset` writes EMPTY over the current cell even if it was the target (player.js:44). It does not restore the target.
- mapCreator.js's `simulateMove` stops on the target (mapCreator.js:203-206). The inline slides of the slide_puzzle revision slide through it (slide_puzzle/mapCreator.js:419-432). The reachability sweep of mapCreator.js therefore counts cells beyond the target only when another slide passes over them.
