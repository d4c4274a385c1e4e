# Wilson's-algorithm maze generator, modelled in Dafny

This project models the engine of a step-by-step maze generator built on
Wilson's algorithm, and proves properties about it. The engine has two parts:

- **The maze (`src/maze.py`):** a fixed `width × height` grid of cells. Each
  cell has four wall flags and a visited flag. The maze offers:
  - a bounds-checked lookup;
  - a neighbour list in the order North, East, South, West;
  - passage carving;
  - an unvisited count and a pick among the unvisited cells.
- **The generator (`src/algorithm.py`):** a state machine. Each call to `step`
  does one unit of work:
  - seed the tree with one cell;
  - start a walk at an unvisited cell;
  - extend the walk by one neighbour;
  - erase a loop the walk made;
  - or graft the finished walk onto the tree by carving between each pair of
    consecutive cells.

The project has three modules:

- **`Mazes` (`maze.dfy`):**
  - `Direction`, `Pos`, `Walls` and `Cell` are datatypes.
  - The pure queries are functions over a grid value, `seq<seq<Cell>>`.
  - Class `Maze` holds the grid, the walk, the walk set and the completion
    flag as fields. `CarvePassage` updates the grid in place; `GetNeighbors`
    and `CountUnvisited` are read-only loops. Each is proved against a
    function.
- **`Wilson` (`algorithm.dfy`):**
  - One step is the function `Stepped` over an `Engine` value. An `Engine`
    is the generator's fields together with the maze state.
  - Class `WilsonAlgorithm` does the same work in place. Its methods are
    `Initialize`, `Step`, `EraseLoop` and `CarvePath`.
  - `Step` is proved to produce exactly the state and result that `Stepped`
    gives.
  - `Inv` is the engine invariant:
    - the walls are symmetric;
    - the walk is a simple path of adjacent, in-bounds, unvisited cells;
    - the walk set mirrors the walk;
    - the current position is the walk's last cell.

    Every step keeps it.
- **`SpanningTree` (`tree.dfy`):** the open passages always form a spanning
  tree of the visited cells. When generation completes, the maze has
  `width * height - 1` passages, and every cell can be reached from every
  other.

Randomness is an explicit `roll: nat` argument. A choice from a list of length
`n` takes the element at index `roll % n`. The seed cell is column
`roll % width`, row `(roll / width) % height`.

## Model

| member | source | states |
|---|---|---|
| Mazes.Direction.DX | src/maze.py:7-12 | Definition: the horizontal unit offset of each direction: West -1, East 1, North and South 0 |
| Mazes.Direction.DY | src/maze.py:7-12 | Definition: the vertical unit offset of each direction, with `y` growing southwards: North -1, South 1, East and West 0 |
| Mazes.DirectionsEnumerate | src/maze.py:7-12 | The enumeration lists all four directions once each, in the order North, East, South, West that the neighbour loop follows. Each offset is a unit step along one axis, and no two directions share an offset |
| Mazes.Direction.Opposite | src/maze.py:14-22 | The opposite direction is never the direction itself, and its unit offset is the negated offset, so North and South swap, and so do East and West |
| Mazes.NewCell | src/maze.py:33-42 | A new cell keeps its coordinates, has all four walls and is not visited |
| Mazes.Cell.RemoveWall | src/maze.py:44-50 | Removing the wall in direction `d` clears exactly that wall; the other walls, the coordinates and the visited flag are unchanged |
| Mazes.Cell.HasWall | src/maze.py:48-50 | Definition: whether the cell still has its wall in direction `d` |
| Mazes.RemoveWallAt | src/maze.py:44-46 | Definition: the grid with one cell's wall in direction `d` removed; the grid keeps its shape |
| Mazes.NewGrid | src/maze.py:68-71 | The initial grid has `height` rows of `width` cells, and the cell at column `x`, row `y` is a new cell with coordinates `(x, y)` |
| Mazes.Maze.constructor | src/maze.py:56-66 | A new maze has the given size, the initial grid with symmetric walls, an empty walk and walk set, and is not complete |
| Mazes.GetCell | src/maze.py:73-77 | Returns a cell exactly when `0 <= x < width` and `0 <= y < height`; that cell is the grid's cell and carries the coordinates `(x, y)` |
| Mazes.NeighborsVia | src/maze.py:81-86 | Definition: the loop over a list of directions, keeping each step that lands in bounds, in list order. `Mazes.NeighborsSpec` states its meaning |
| Mazes.Neighbors | src/maze.py:79-87 | Definition: the neighbour list over the directions North, East, South, West. `Mazes.NeighborsSpec` states its meaning |
| Mazes.NeighborsSpec | src/maze.py:79-87 | The neighbour list has at most 4 entries. Each entry is in bounds and equals `(x + dx, y + dy)` for its direction. Every in-bounds unit step appears in it. Directions strictly increase in the order N, E, S, W, so none repeats |
| Mazes.NeighborsNonEmpty | src/maze.py:79-87 | In a grid of two or more cells, every cell has at least one neighbour |
| Mazes.Maze.GetNeighbors | src/maze.py:79-87 | The loop over the four directions returns exactly the neighbour list above |
| Mazes.DirectionTo | src/maze.py:98-111 | For adjacent cells, the direction chosen from `dx` and `dy` leads from the first cell to the second |
| Mazes.Carve | src/maze.py:89-111 | Definition of `carve_passage` as written: a no-op when an endpoint is out of bounds, otherwise `dx` is tested before `dy` without an adjacency check. The grid keeps its shape. The carve lemmas below state its meaning |
| Mazes.CarveIsFacingPair | src/maze.py:89-111 | Between in-bounds adjacent cells, carving removes the first cell's wall toward the second and the second cell's wall back toward the first |
| Mazes.CarveAdjacent | src/maze.py:97-111 | Between in-bounds adjacent cells, carving clears exactly those two facing walls; no other wall and no visited flag changes |
| Mazes.CarveKeepsVisited | src/maze.py:89-111 | Carving any pair leaves every visited flag unchanged, so the visited and unvisited sets do not change |
| Mazes.CarveOutOfBounds | src/maze.py:91-95 | Carving does nothing if either endpoint is outside the grid |
| Mazes.CarveIdempotent | src/maze.py:89-111 | Carving the same pair twice gives the same grid as carving it once |
| Mazes.CarvePreservesWallsAgree | src/maze.py:100-111 | Carving between adjacent cells keeps the walls symmetric: a cell lacks its wall toward a neighbour exactly when the neighbour lacks its wall back |
| Mazes.CarveDiagonalBreaksWallsAgree | src/maze.py:98-100 | As written, carving the diagonal pair (0,0)–(1,1) of a fresh 2×2 grid clears (0,0)'s East wall while (1,0) keeps its West wall, so the walls stop being symmetric |
| Mazes.Maze.CarvePassage | src/maze.py:89-111 | Carving between adjacent cells updates the grid exactly as `Carve` does, and the walls stay symmetric |
| Mazes.MarkVisited | src/algorithm.py:16-18 | Definition: the bounds-checked lookup, then the cell's visited flag raised; the grid keeps its shape. `Mazes.MarkVisitedEffect` states its meaning |
| Mazes.MarkVisitedEffect | src/algorithm.py:16-18 | Marking a cell through the bounds-checked lookup adds exactly that cell to the visited set if it is in bounds, and touches no wall |
| Mazes.MarkVisitedPreservesWallsAgree | src/algorithm.py:112-114 | Marking a cell visited keeps the walls symmetric |
| Mazes.RowUnvisited | src/maze.py:124-125 | Definition: one row's unvisited cells, as coordinates read from the cells, in column order |
| Mazes.UnvisitedList | src/maze.py:124-125 | Definition: the unvisited cells' coordinates in row-major order, as the list comprehension builds them. `Mazes.UnvisitedListSpec` states its meaning |
| Mazes.UnvisitedListSpec | src/maze.py:124-125 | The row-major list of unvisited coordinates lists each unvisited cell exactly once, so its length is the number of unvisited cells, at most `width * height` |
| Mazes.UnvisitedSetCard | src/maze.py:113-120 | The number of unvisited cells is at most `width * height` |
| Mazes.Maze.CountUnvisited | src/maze.py:113-120 | The nested counting loop returns the number of unvisited cells, which is at most `width * height` |
| Mazes.RandomUnvisited | src/maze.py:122-126 | The pick is "none" exactly when no cell is unvisited; otherwise it is an in-bounds, unvisited cell |
| Mazes.RandomUnvisitedCovers | src/maze.py:122-126 | Every unvisited cell is picked for some roll |
| Wilson.SeedCell | src/algorithm.py:14-15 | The seed cell lies inside the grid |
| Wilson.SeedCellCovers | src/algorithm.py:14-15 | Every cell of the grid is the seed cell for some roll, as the two independent draws over the whole grid allow: the roll `y * width + x` picks `(x, y)` |
| Wilson.Initialized | src/algorithm.py:12-20 | Definition of `initialize`: the seed cell is marked visited through the lookup, and the phase moves to selecting a start. `Wilson.InitStep` states its meaning |
| Wilson.FirstIndex | src/algorithm.py:89-93 | The search finds nothing exactly when the cell is not on the walk; otherwise it finds an occurrence with none before it |
| Wilson.FirstIndexUnique | src/algorithm.py:89-95 | The search loop's outcome is that first occurrence and no other |
| Wilson.LoopErased | src/algorithm.py:86-100 | Definition of `erase_loop`: the walk is cut back to the first occurrence of the cell, which is kept, and the walk set is rebuilt; nothing changes if the cell is absent. `Wilson.LoopErasedValid` states its meaning |
| Wilson.CarveSteps | src/algorithm.py:104-114 | Definition: the grid after the first `n` rounds of the carve loop. Round `i` carves between walk cells `i` and `i + 1`, then marks cell `i` visited. The grid keeps its shape |
| Wilson.PathCarved | src/algorithm.py:102-118 | Definition of `carve_path`: every round of the carve loop, then the walk and walk set emptied. `Wilson.GraftFacts` states its meaning |
| Wilson.Stepped | src/algorithm.py:22-84 | Definition of `step`: the phase dispatch, the seeding, the start selection with its completion test, and the walking step. The walking step includes both defensive returns and, in order, the graft, erase and extend cases. It gives the next state and whether the step reported completion. The step lemmas below state its meaning |
| Wilson.Inv | src/algorithm.py:7-118 | Definition of the engine invariant that every step keeps: symmetric walls; a visited cell once seeded; an empty walk outside the walking phase; in the walking phase, a simple path of adjacent, in-bounds, unvisited cells, mirrored by the walk set and ending at the current position |
| Wilson.ChainedExtend | src/algorithm.py:76-77 | Appending a cell adjacent to the walk's last cell keeps every consecutive pair adjacent |
| Wilson.CarveStepsAgree | src/algorithm.py:104-114 | Carving and marking along a walk of adjacent cells keeps the walls symmetric |
| Wilson.CarveStepsVisited | src/algorithm.py:104-114 | After the first `n` rounds of the carve loop, a cell is visited exactly when it was visited before or is among the walk's first `n` cells |
| Wilson.GraftFacts | src/algorithm.py:102-118 | Grafting a valid walk that reached the tree keeps the walls symmetric. Its cells join the visited set and leave the unvisited set. The unvisited count drops by the walk's length |
| Wilson.WalkHasNeighbors | src/algorithm.py:46-55 | The two early returns in the walking phase cannot fire: a walking engine has a current position, and that cell has a neighbour |
| Wilson.WalkChoice | src/algorithm.py:50-58 | The neighbour chosen in the walking phase is in bounds and adjacent to the walk's last cell |
| Wilson.WalkChoiceCovers | src/algorithm.py:51-58 | The walking phase chooses from the full, unfiltered neighbour list: every in-bounds neighbour of the current cell is the next cell for some roll, whether it is visited or on the walk |
| Wilson.InitStep | src/algorithm.py:25-27 | The first step reports "not done" and moves to selecting a start. It adds exactly the seed cell to the visited set. It changes no wall, the walk or the flag, and it keeps the invariant |
| Wilson.SelectStartStep | src/algorithm.py:29-42 | With no unvisited cell, the step reports done and only raises the completion flag. Otherwise it starts a one-cell walk at an unvisited cell, enters the walking phase and reports "not done". It keeps the invariant |
| Wilson.WalkStepped | src/algorithm.py:44-82 | A walking step does exactly one of three things. It grafts the walk extended by a visited neighbour and returns to selecting a start. It cuts the walk back to a neighbour already on it. Or it appends a new neighbour. In each case the step reports "not done" |
| Wilson.GraftStep | src/algorithm.py:61-67 | The grafting case gives the grafted engine and keeps the invariant |
| Wilson.EraseStep | src/algorithm.py:69-73 | The loop-erasing case gives the cut-back walk at the neighbour and keeps the invariant |
| Wilson.ExtendStep | src/algorithm.py:74-79 | The extending case appends the neighbour to the walk and the walk set, moves to it, and keeps the invariant |
| Wilson.WalkStep | src/algorithm.py:44-82 | A walking step never reports completion and keeps the invariant |
| Wilson.LoopErasedValid | src/algorithm.py:86-100 | Erasing a loop leaves a prefix of the old walk ending at the revisited cell, with the walk set rebuilt to match, and keeps the invariant |
| Wilson.ExtendValid | src/algorithm.py:74-79 | Appending an adjacent, in-bounds, unvisited cell that is not on the walk keeps the invariant |
| Wilson.SteppedPreservesInv | src/algorithm.py:22-84 | Every step keeps the engine invariant |
| Wilson.SteppedDone | src/algorithm.py:29-35 | A step reports completion exactly when it is selecting a start and no cell is unvisited; then the completion flag is raised |
| Wilson.CompletionIsFinal | src/algorithm.py:29-35 | Once complete, every later step reports completion again and changes nothing |
| Wilson.SteppedMonotone | src/algorithm.py:12-118 | No step clears a visited flag: the visited set only grows, and the unvisited set only shrinks |
| Wilson.GraftDecreasesUnvisited | src/algorithm.py:61-67 | A walking step that returns to selecting a start strictly decreases the number of unvisited cells |
| Wilson.WilsonAlgorithm.constructor | src/algorithm.py:7-10 | A new generator is in the initial phase with no current position, and the invariant holds |
| Wilson.WilsonAlgorithm.Initialize | src/algorithm.py:12-20 | Marks the seed cell visited through the lookup and moves to selecting a start, as the seeding function does |
| Wilson.WilsonAlgorithm.Step | src/algorithm.py:22-84 | One step updates the generator and the maze in place to exactly the state, and returns exactly the completion result, that the step function gives; the invariant holds afterwards |
| Wilson.WilsonAlgorithm.EraseLoop | src/algorithm.py:86-100 | The search loop and truncation cut the walk back to the first occurrence of the cell and rebuild the walk set; if the cell is absent, nothing changes |
| Wilson.WilsonAlgorithm.CarvePath | src/algorithm.py:102-118 | The carve loop carves between each consecutive pair, marks the first cell of each pair visited, and then empties the walk and walk set; the walls stay symmetric |
| SpanningTree.EdgeKeyOpen | src/maze.py:100-111 | With symmetric walls, the passage between two adjacent cells is open exactly when the first cell lacks its wall toward the second |
| SpanningTree.CarveKeyWalls | src/maze.py:100-111 | Carving between adjacent cells opens exactly their passage and no other |
| SpanningTree.CarveStepsEdges | src/algorithm.py:104-114 | The carve loop opens exactly the passages between consecutive walk cells |
| SpanningTree.KeysCard | src/algorithm.py:104-109 | A simple walk of `n + 1` cells has `n` distinct passages between consecutive cells |
| SpanningTree.FreshTreeInv | src/maze.py:68-71 | A generator over a fresh grid satisfies the tree invariant: no cell visited, every cell sealed |
| SpanningTree.InitTree | src/algorithm.py:12-19 | Seeding keeps the tree invariant. The visited cells are exactly the seed cell, and no passage is open |
| SpanningTree.GraftEdges | src/algorithm.py:102-114 | After a graft, the open passages are exactly the old passages plus the passages between consecutive walk cells. None of those walk passages was open before, so the count grows by the walk's length and no old passage closes |
| SpanningTree.GraftSealed | src/algorithm.py:102-114 | After a graft, every cell still unvisited keeps all four walls |
| SpanningTree.GraftConnected | src/algorithm.py:61-67 | After a graft, every two visited cells are joined by a path of open passages |
| SpanningTree.GraftTree | src/algorithm.py:61-67 | Grafting keeps the tree invariant: one fewer passage than visited cells, all of them connected, and the unvisited cells sealed |
| SpanningTree.SteppedPreservesTree | src/algorithm.py:22-84 | Every step keeps the tree invariant |
| SpanningTree.CompleteIsSpanningTree | src/algorithm.py:29-35 | A completed maze has exactly `width * height - 1` open passages, and every cell is reachable from every other |

## Left out

- `status_text` and every assignment to it (src/maze.py:66 and src/algorithm.py:20, 34, 41, 73, 81) are presentation only. The `count_unvisited` call in the walking step (src/algorithm.py:80) only feeds that text, so `Step` does not make it.
- The renderer, the event loop, the configuration constants and the package re-exports (src/renderer.py, src/main.py, src/config.py, src/__init__.py) are presentation, I/O or constants. They are not part of this model.
- The random module is not modelled. Each choice is an explicit `roll`, and the two independent `randint` draws of the seed cell are folded into one roll. The distribution, the uniformity of the generated tree and the termination of a random walk are probabilistic claims, so they are not stated. The model proves that every graft strictly shrinks the unvisited set.
- Cells are values in a grid that the methods reassign. The source mutates shared cell objects; the model does not capture that aliasing.
- The maze's width and height are natural numbers; the source's negative sizes are not modelled. The 5–50 bound enforced by the caller is also not modelled.
- Wilson.WilsonAlgorithm.Step: it leaves out the source's two defensive returns to start selection (no current position, no neighbours; src/algorithm.py:46-55), because `Wilson.WalkHasNeighbors` proves that neither can happen under the invariant. The step function `Stepped` still models both.
- The final `return False` of `step` for an unknown state string (src/algorithm.py:84) has no counterpart, because the phase is a closed datatype.
- Wilson.WilsonAlgorithm.constructor: it requires the maze to be in the state the maze constructor leaves: an empty walk, not complete, and symmetric walls. The source accepts any maze.
- Wilson.WilsonAlgorithm.constructor, Wilson.WilsonAlgorithm.Initialize, Wilson.Stepped, Wilson.SeedCell, Wilson.Initialized: they require width and height of at least 1. On a zero-width or zero-height maze, the Python implementation raises ValueError from `random.randint(0, -1)` at the first step (src/algorithm.py:14-15). That error path is not modelled. The caller only builds mazes of 5 to 50 cells a side.
- Wilson.WilsonAlgorithm.CarvePath: it requires the walk's consecutive cells to be adjacent, which every walk the generator builds satisfies. The source's loop carries no such condition.
- Mazes.Maze.CarvePassage: it requires the two cells to be adjacent, which the source does not check (see Findings).
- `get_cell` and `get_random_unvisited` change nothing, so they are the functions `Mazes.GetCell` and `Mazes.RandomUnvisited` on the grid rather than methods of `Maze`.

## Findings

| source | as written | input that shows it | evidently intended | confidence | as-written member | corrected member |
|---|---|---|---|---|---|---|
| src/maze.py:98-111 | `carve_passage` picks the walls from `dx` alone whenever `dx` is ±1, without checking `dy` or that the cells are adjacent | `carve_passage(0, 0, 1, 1)` on a fresh 2×2 maze clears the East wall of (0, 0) and the West wall of (1, 1). Then (0, 0) has no East wall while its eastern neighbour (1, 0) keeps its West wall | Only adjacent cells are carved, and the walls stay symmetric | not executed | Mazes.CarveDiagonalBreaksWallsAgree | Mazes.Maze.CarvePassage |
