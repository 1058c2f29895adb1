# Maze generation and Dijkstra solving, modelled in Dafny

The repository holds the same program twice, in two languages:

- `maze_solver.py` is a `Maze` class. It holds a `(2·height + 1) × (2·width + 1)` grid of
  walls (1) and passages (0).
  - Its generator carves a perfect maze with a randomised depth-first walk over the
    `width × height` logical cells.
  - Its solver runs Dijkstra's algorithm from the entrance `(1, 1)` to the exit
    `(2·height − 1, 2·width − 1)`. It uses a `heapq` binary heap and the maps `distances`
    and `previous`, then rebuilds the path by walking the predecessors back from the exit.
- `maze-game.tsx` is a browser game on a 15 × 15-cell maze. It carves the grid with the
  same walk and solves it with Dijkstra's algorithm over an array that is re-sorted after
  every push. The player walks the maze with the arrow keys or WASD, and the game counts
  the moves and declares a win at the exit.

The model has five modules.

- `Carving` (`carving.dfy`) covers the depth-first carving walk that both generators share.
  - It maps logical cells to rooms and walls.
  - It holds the walk's loop invariant (`CarveState`), with the walk's tree kept as ghost
    `order`/`par` sequences, and one lemma per push and pop.
  - It proves the perfect-maze facts. The tree spans the grid, the maze has
    `w·h` rooms and `w·h − 1` opened walls, and every room is connected to the entrance.
- `UniformCost` (`uniform_cost.dfy`) is the search theory both solvers share. It is generic
  over the node type and the step relation.
  - It defines walks, reachability and shortest walks.
  - It defines the search invariant, made of `Links`, `Frontier` and `AllRelaxed`.
  - It has one lemma per step of the search loop: pop stale, expand, relax, skip, finish,
    end taken and frontier exhausted.
  - It has the lemmas that turn the predecessor chain into the returned path.
- `MazeSolver` (`maze_solver.dfy`) models the Python program.
  - `Maze` is a class with an `array2<int>` grid.
  - `GenerateMaze` writes the grid in place. `SolveDijkstra` loops over a heap, modelled as
    the multiset of its entries, and maps.
- `MazeGame` (`maze_game.dfy`) models the TypeScript program.
  - Generation writes an `array<array<int>>` in place.
  - The solver works on the finished grid as a value, `seq<seq<int>>`.
  - The player's moves are pure transitions of a `Game` record.
- `Wrappers` (`wrappers.dfy`) holds `Option`, used for the game's not-yet-built maze.

Both `SolveDijkstra` and `SolveMaze` are proved to return a walk of the step relation that
starts at the entrance; every position after the entrance is open (the entrance itself is
open on generated grids: for the Python maze because the constructor's `start` is the room of
cell (0, 0), which `MazeSolver.Maze.GenerateMaze` sets to 0, and for the game by
`GeneratedMazeSolvable`). When the exit is reachable, it is a shortest walk to the exit. When
the exit is not reachable, the result is the entrance alone, and the result ends at the exit
exactly when the exit is reachable. On the generator's output the exit is always reachable
(`PerfectMazeSolvable`, `GeneratedMazeSolvable`).

For the game, every sequence of key presses traces a walk of the solver's graph with one step
per counted move. Hence a won game never takes fewer moves than the solution has steps. The
win banner's test `moves <= solution.length` compares steps with positions. It is still exact:
it holds precisely when the moves equal the optimum, because every step flips the parity of
x + y.

## Model

| member | source | states |
|---|---|---|
| Carving.NeighborIsAdjacent | maze_solver.py:28-29 | each of the four scanned (dx, dy) directions leads to a 4-adjacent cell |
| Carving.AdjacentIsNeighbor | maze_solver.py:28 | every 4-adjacent cell lies in one of the four scanned directions, so the scan misses none |
| Carving.WallJoinsRooms | maze_solver.py:39-40 | the wall cell opened between two adjacent rooms is 4-adjacent to both, is the same from either side, and is not itself a room |
| Carving.UnvisitedSpec | maze_solver.py:27-33 | the neighbour scan yields at most one cell per direction, only in-grid unvisited adjacent cells, and every such cell of a scanned direction |
| Carving.UnvisitedNeighbors | maze_solver.py:27-33 | the loop that builds the neighbour list computes exactly the scan, in direction order |
| Carving.InitialCarveState | maze_solver.py:19-20 | the walk's invariant holds with (0, 0) on the stack and nothing visited or carved |
| Carving.Push | maze_solver.py:35-45 | choosing an unvisited neighbour and pushing it keeps the walk's invariant, and the pushed cell is new, in the grid and adjacent to the stack top |
| Carving.FreshNext | maze_solver.py:30-33 | the chosen neighbour is neither visited, nor on the stack, nor pushed before |
| Carving.Pop | maze_solver.py:46-47 | popping a cell with no unvisited neighbour keeps the walk's invariant |
| Carving.CarvedByPush | maze_solver.py:39-44 | a push opens exactly the new wall cell and the rooms of the current and chosen cells |
| Carving.PushShrinksUnseen | maze_solver.py:22-47 | every push takes one more grid cell, so the walk terminates |
| Carving.Spanning | maze_solver.py:22-47 | when the stack runs empty, the walk's tree holds every cell of the grid |
| Carving.WalkDone | maze_solver.py:22-51 | the finished walk is a spanning tree, and forcing the entrance and exit open adds nothing beyond its passages |
| Carving.FinalPassages | maze_solver.py:49-51 | the entrance and exit rooms are already carved by a spanning tree |
| Carving.PassagesInterior | maze_solver.py:12 | every passage lies strictly inside the grid's border and has an odd row or an odd column |
| Carving.WallSeqDistinct | maze_solver.py:39-41 | the tree's edges open pairwise different wall cells |
| Carving.PassageCount | maze_solver.py:16-51 | a perfect maze has width·height rooms and width·height − 1 opened walls, disjoint, so 2·width·height − 1 passages |
| Carving.RoomsConnected | maze_solver.py:35-45 | every room of the tree is joined to the room of (0, 0) by a walk over passages |
| Carving.MazeConnected | maze_solver.py:16-51 | in the finished maze every in-grid room, the exit's included, is reachable from the entrance |
| UniformCost.Initial | maze_solver.py:67-70 | the search starts with the invariant holding: only the start recorded, at 0, on the frontier |
| UniformCost.FrontierBelowWalk | maze_solver.py:72-87 | every walk to an unexpanded node passes a frontier entry no farther than the walk is long |
| UniformCost.PopStale | maze_solver.py:78-79 | dropping an entry above its node's recorded distance keeps the invariant |
| UniformCost.BeginExpand | maze_solver.py:73-81 | a minimum entry that is not stale belongs to an unexpanded node whose recorded distance is optimal |
| UniformCost.Relax | maze_solver.py:84-87 | lowering a neighbour's distance to current + 1, recording its predecessor and pushing it keeps the invariant, and the neighbour is neither the start nor expanded |
| UniformCost.Skip | maze_solver.py:84 | a neighbour already within one step needs no update |
| UniformCost.FinishExpand | maze_solver.py:81-87 | once every neighbour of the expanded node is relaxed, all expanded nodes are |
| UniformCost.EndTaken | maze_solver.py:75-76 | when the exit is taken off the frontier, its recorded distance is optimal |
| UniformCost.FrontierExhausted | maze_solver.py:72 | when the frontier runs empty before the exit is taken, the exit is unreachable |
| UniformCost.ChainWalk | maze_solver.py:92-94 | a chain of recorded predecessor links is a walk of the graph |
| UniformCost.RebuiltPath | maze_solver.py:89-98 | the rebuilt path is a shortest walk when the exit is reachable and the start alone when not; it ends at the exit exactly when the exit is reachable |
| UniformCost.TracedPath | maze-game.tsx:115-124 | the chain walked back from the exit, with the start put in front of everything after its first node, is such a path |
| MazeSolver.HeapPop | maze_solver.py:73 | the popped entry is least in tuple order (distance, row, column), and the rest is the heap without it |
| MazeSolver.Reversed | maze_solver.py:96 | reversal keeps the length and puts element i at position n − 1 − i |
| MazeSolver.BackChainWalk | maze_solver.py:92-96 | the list collected from the exit back along predecessors, reversed, is a walk |
| MazeSolver.PerfectMazeSolvable | maze_solver.py:16-51 | the exit room is reachable from the entrance room over the passages of any spanning tree |
| MazeSolver.Maze.constructor | maze_solver.py:8-14 | a (2·height + 1) × (2·width + 1) grid of walls, entrance (1, 1), exit (2·height − 1, 2·width − 1) |
| MazeSolver.Maze.GenerateMaze | maze_solver.py:16-51 | the walk's tree spans the cell grid, and exactly its passages are set to 0 with all else unchanged |
| MazeSolver.Maze.CarveWalk | maze_solver.py:19-47 | the loop ends with the walk's invariant on an empty stack, and exactly the cells the tree carved are 0 |
| MazeSolver.Maze.CarveNext | maze_solver.py:35-45 | a push keeps the walk's invariant, takes one more cell, and sets exactly the new wall cell and the two rooms to 0 |
| MazeSolver.Maze.CarvedOpenCells | maze_solver.py:16-51 | on a grid that started as walls only, the open cells after generation are exactly the tree's passages |
| MazeSolver.Maze.CarvePassage | maze_solver.py:39-44 | sets exactly the wall cell and the two rooms to 0 |
| MazeSolver.Maze.ScanSpec | maze_solver.py:53-62 | the scan yields only open 4-neighbours and every open one in a scanned direction |
| MazeSolver.Maze.ScanSteps | maze_solver.py:56-61 | the full scan holds exactly the open cells one step away |
| MazeSolver.Maze.GetNeighbors | maze_solver.py:53-62 | the result holds exactly the open cells one step away, in scan order, at most four |
| MazeSolver.Maze.SolveDijkstra | maze_solver.py:64-98 | the result starts at the entrance and is a walk of the step relation whose every position after the entrance is open; it is shortest when the exit is reachable and the entrance alone when not; it ends at the exit exactly when the exit is reachable |
| MazeSolver.Maze.Search | maze_solver.py:66-87 | the maps satisfy the predecessor links, and a reachable exit gets its optimal distance |
| MazeSolver.Maze.RelaxNeighbors | maze_solver.py:81-87 | after the inner loop every step of the expanded cell is relaxed and the search invariant holds |
| MazeSolver.Maze.RelaxEach | maze_solver.py:81-87 | the loop over the neighbour list relaxes exactly the listed neighbours |
| MazeSolver.Maze.RelaxEdge | maze_solver.py:82-87 | an improving neighbour gets distance + 1, the current cell as predecessor and one heap entry; otherwise nothing changes; either way the invariant holds |
| MazeSolver.Maze.Rebuild | maze_solver.py:89-98 | the path rebuilt from the predecessors is shortest when the exit is reachable and the entrance alone when not |
| MazeGame.NewGrid | maze-game.tsx:38-40 | a fresh grid of pairwise different fresh rows, filled with 1 |
| MazeGame.GenerateMaze | maze-game.tsx:35-76 | the walk's tree spans the 15 × 15 cells, and the grid holds 0 exactly on its passages |
| MazeGame.CarveWalk | maze-game.tsx:42-69 | the loop ends with the walk's invariant on an empty stack, and the grid is 0 exactly on the carved cells |
| MazeGame.CarveNext | maze-game.tsx:59-65 | a push keeps the walk's invariant, takes one more cell, and leaves the grid 0 exactly on the carved cells |
| MazeGame.CarvePassage | maze-game.tsx:61-64 | opens the two rooms and the wall between them and nothing else |
| MazeGame.InsertAddsOne | maze-game.tsx:108-109 | inserting an entry adds it and keeps every other entry |
| MazeGame.InsertKeepsSorted | maze-game.tsx:109 | insertion into an array sorted by distance keeps it sorted |
| MazeGame.SortByDist | maze-game.tsx:109 | the sort returns a permutation of its input, sorted by distance |
| MazeGame.InsertPosition | maze-game.tsx:108-109 | the new entry lands after every entry at most as far and before the first farther one |
| MazeGame.SortedFixed | maze-game.tsx:109 | sorting an array already sorted by distance leaves it unchanged |
| MazeGame.SortAfterPush | maze-game.tsx:108-109 | a push followed by the sort on a sorted array is the stable insertion of the new entry |
| MazeGame.SolveMaze | maze-game.tsx:79-125 | the result starts at (1, 1) and is a walk of the step relation whose every position after (1, 1) is open; it is shortest when the exit is reachable and (1, 1) alone when not; it ends at the exit exactly when the exit is reachable |
| MazeGame.Search | maze-game.tsx:85-113 | the maps satisfy the predecessor links, and a reachable exit gets its optimal distance |
| MazeGame.ShiftLeast | maze-game.tsx:91 | shift on a sorted array takes an entry of least distance and leaves the rest sorted |
| MazeGame.RelaxNeighbors | maze-game.tsx:97-112 | after the four directions every step of the expanded position is relaxed, and the array stays sorted |
| MazeGame.RelaxDirection | maze-game.tsx:97-111 | a direction leading to an open position in range has that position relaxed; any other direction changes nothing |
| MazeGame.RelaxEdge | maze-game.tsx:102-110 | an improving neighbour gets distance + 1, the current position as predecessor and a stably inserted entry; otherwise nothing changes; either way the invariant holds |
| MazeGame.Rebuild | maze-game.tsx:115-124 | the path rebuilt from the predecessors is shortest when the exit is reachable and (1, 1) alone when not |
| MazeGame.TraceBack | maze-game.tsx:116-121 | the positions prepended form the predecessor chain back from the exit, each link lowering the distance |
| MazeGame.GeneratedMazeSolvable | maze-game.tsx:35-83 | on a generated grid, (1, 1) is open and the solver's exit is reachable from it |
| MazeGame.MovementKeysUnit | maze-game.tsx:10-23 | every movement key moves one position along one axis, in one of the four scan directions |
| MazeGame.MovePlayer | maze-game.tsx:128-143 | a won game or a target that is not an existing 0 changes nothing; conversely, in a game not yet won, a target that is an existing 0 always becomes the player's position with the move counted; the game is won exactly at the exit, and the message turns to the win message exactly then |
| MazeGame.HandleKeyDown | maze-game.tsx:146-153 | a key outside the movement keys changes nothing; a movement key either changes nothing or moves the player by exactly that key's vector to an adjacent 0, counting the move; in a game not yet won it does move whenever that target is an existing 0, winning exactly at the exit |
| MazeGame.WonIsFinal | maze-game.tsx:129 | a won game ignores every later key |
| MazeGame.ReplayWalk | maze-game.tsx:128-153 | the player's positions over any keys form a walk of the solver's graph with one step per move, and a win happens only at the exit |
| MazeGame.NewGame | maze-game.tsx:156-164 | the reset of `initGame`: the new maze is present, the player at (1, 1), no moves, not won, the initial message |
| MazeGame.PlayerNeverBeatsSolution | maze-game.tsx:128-153 | no key sequence wins a new game in fewer moves than a shortest walk to the exit has steps |
| MazeGame.WalkParity | maze-game.tsx:128-143 | every step flips the parity of x + y, so a walk's length fixes its end's parity |
| MazeGame.WonParity | maze-game.tsx:138-141 | a won game's move count has the parity of the exit's distance from (1, 1) |
| MazeGame.BannerMeansOptimal | maze-game.tsx:245 | the banner's test "moves ≤ solution length", modelled as `OptimalBanner`, holds for a won game exactly when the moves equal the shortest walk's steps |

## Left out

- Randomness. `random.choice` (maze_solver.py:37) and `Math.random` (maze-game.tsx:60) become a
  chooser parameter `pick: nat -> nat`. The k-th choice takes neighbour `pick(k) mod n`, so
  every choice sequence the program can make is covered.
- The layout of `heapq`'s binary heap. The heap is modelled as the multiset of its entries,
  and `heappop` as removal of a least entry in tuple order.
- The JavaScript sort algorithm. `Array.prototype.sort` with comparator `a.dist - b.dist` is
  stable, so its result is unique. The model computes that result by insertion.
- numpy float grids become `int` grids, and `float('inf')` defaults become absent map keys.
  - The defaultdict entries that Python's reads insert at infinity are not modelled: they
    never affect a comparison.
  - The TypeScript string keys `` `${x},${y}` `` become the positions themselves. The keys
    are injective on integer pairs.
- Plotting, printing and the example driver: `visualize`, `create_and_solve_maze` and
  `__main__` (maze_solver.py:100-133).
- React plumbing.
  - Not modelled: `useState`, `useCallback`, `useEffect`, listener registration,
    `preventDefault`, the solution toggle and the rendering (maze-game.tsx:25-33, 155-258).
  - `initGame` is reduced to `NewGame`, the state it resets; the solution toggle it also
    resets is not modelled.
- The TypeScript solver reads the grid after generation has finished. It is modelled on the
  grid's contents as a value, so aliasing between the arrays and the game state is not
  captured.
- MazeSolver.Maze.constructor: requires width ≥ 1 and height ≥ 1.
  - The constructor itself accepts a zero dimension (np.ones then builds a grid one column
    or one row wide), but `generate_maze` then fails at maze_solver.py:50 with an index
    error.
  - A negative dimension makes numpy reject the shape.
- MazeGame.HandleKeyDown: a key naming an inherited `Object.prototype` property (such as
  `toString`) is treated as a non-movement key. The source would look up a function there
  and fail while destructuring it.
- MazeGame.SolveMaze: requires a grid with at least one row, because the source reads
  `maze[0].length`.
- Unreachable exit: the code returns the entrance alone and raises no error; the model does
  the same.
- The entrance (1, 1) and the exit (2·height − 1, 2·width − 1) are interior positions, so the
  border stays all wall.
