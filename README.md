# Rabbit: maze generation and pursuit, in Dafny

Rabbit is a small grid chase game. The hero, a rabbit, collects carrots (coins) in a maze while an
enemy chases it. The model covers two parts of the game and the tile rules around them.

**Maze generation** (`maps/maze_generator.py`):
- A `width` x `height` matrix starts as all walls.
- A randomized depth-first search carves rooms on the odd lattice from (1, 1), opening the door cell between two rooms.
- The outer frame is walled again.
- One exit (tile 2) is cut into a random side, off the corners, and the cell inward of it is opened.
- About `width * height / 6` random interior walls are knocked out.
- `save_maze` writes the matrix as lines of space-separated digits.

**Pursuit** (`Labyrinth.find_path_step` in `Rabbit.py`):
- A breadth-first search runs from the enemy's cell over free tiles, with neighbours in the order East, South, West, North.
- It fills a distance matrix, with the sentinel `INF = 1000`, and a predecessor matrix.
- The predecessor chain is then walked back from the hero's cell to find the enemy's next step.

**Game rules** (`Rabbit.py`):
- Loading a map file and reading tiles.
- Placing coins and picking random start cells.
- Finding the exit in the map file, and the whole-file tile rewrites that hide the exit (2 → 3) and later reopen it (3 → 2) or turn it into the finish (3 → 4).
- The hero's move and coin pickup in `update_hero`, the enemy's move in `move_enemy`, and the win, level and lose tests.

## Modules
- `grid.dfy`, module `Grid`:
  - cells `(x, y)` and the tile matrix `seq<seq<int>>`, indexed `[y][x]`;
  - adjacency and writing one cell;
  - `Mirrors`, which ties an `array2` to the sequence value it holds.
- `oracle.dfy`, module `Oracle`: the `random` module as a class `Random`. It replays a fixed sequence of raw draws, one per internal `_randbelow` call. On top of that come `randint`, `shuffle` and `sample`, each consuming draws where Python's does.
- `maze.dfy`, module `MazeGenerator`: `generate_maze`, written imperatively as the Python is. The matrix is an `array2<int>` changed in place by `CreatePath` (the recursive carve), `StampFrame`, `PlaceExit` and `AddOpenings`. Each step's effect is stated on a ghost mirror of the matrix.
- `text.dfy`, module `MapText`:
  - `str.split`, `' '.join`, `str(int)` and `int(str)`;
  - the map file's text form and the line-by-line reading of it;
  - the exit scan and the character replacement done by the file rewrites.
- `pursuit.dfy`, module `Pursuit`:
  - the specification of walks and shortest walks over enterable cells;
  - the search `Search`, on two `array2` matrices and a FIFO queue;
  - the back-walk `BackWalk`;
  - the loop invariants as named predicates, each step proved by its own lemma.
- `rabbit.dfy`, module `Rabbit`:
  - the classes `Labyrinth`, `Hero`, `Enemy` and `Game`, and coins as values;
  - coin placement and start-cell picking;
  - `update_hero`, `move_enemy` and the game-end predicates;
  - lemmas that follow a generated maze through saving, the exit lookup and the tile rewrites into the game's checks.

The model follows the code as written, also where it departs from its own comments and from the intended design:
- The entrance `(0, 1)` opened at `maps/maze_generator.py:24` is walled again by the frame loop at line 28. The finished maze therefore has no entrance; only the exit is open on the frame.
- The generator is not guarded against small dimensions: Python fails inside the carve or in `randint` when a dimension is below 3. The model returns `None` in that case.
- The search's bounds test `0 < next_y` (`Rabbit.py:78`) means row 0 is never entered, so a target in row 0 is never reached.
- An enemy next to the hero steps onto the hero's cell when that cell is free and not in row 0. It does not stay put.

## Model

| member | source | states |
|---|---|---|
| Oracle.Random.RandBelow | maps/maze_generator.py:35 | the draw is in `[0, n)`, it is the next raw draw reduced mod `n`, and exactly one draw is consumed |
| Oracle.Random.RandInt | maps/maze_generator.py:35-51 | `randint(lo, hi)` lies in `[lo, hi]`, is fixed by the next raw draw, and consumes exactly one draw |
| Oracle.Random.Shuffle | maps/maze_generator.py:12 | the shuffled array is a permutation of the original one, and one draw is consumed per position from the last down to the second, `length - 1` draws in all |
| Oracle.Random.Sample | Rabbit.py:92 | `sample(population, k)` fails exactly when `k` is negative or larger than the population; otherwise it returns `k` elements drawn without replacement (a sub-multiset of the population) and consumes `k` draws |
| Oracle.PoolStep | Rabbit.py:92 | taking one entry out of the sampling pool and moving the last pool entry into its place removes exactly that entry from the pool's multiset |
| MazeGenerator.AllWalls | maps/maze_generator.py:4 | the initial matrix has `height` rows of `width` entries, all walls |
| MazeGenerator.ShuffledDirections | maps/maze_generator.py:11-12 | the shuffled direction list holds each of the four unit moves, and the shuffle consumes three draws |
| MazeGenerator.CreatePath | maps/maze_generator.py:7-18 | the carve only turns walls into floor; the open cells stay the cells of a tree rooted at (1, 1), linked through open door cells; every room it entered is closed (no wall room two steps away) when it returns; it terminates because each call opens a cell that was a wall (recursion depth at most `width * height`) |
| MazeGenerator.TryAll | maps/maze_generator.py:14-18 | the loop over the shuffled directions keeps the tree invariant, only opens walls, and leaves the room it started from closed |
| MazeGenerator.TryDirection | maps/maze_generator.py:15-18 | trying one direction keeps the tree invariant; afterwards the room two steps away is open or off the lattice |
| MazeGenerator.OpenDoor | maps/maze_generator.py:17 | opening a door attaches it to the tree and leaves the next room a wall still to be entered |
| MazeGenerator.CarvedConnected | maps/maze_generator.py:7-21 | after the carve every floor cell is reachable from (1, 1) over floor |
| MazeGenerator.AllRoomsCarved | maps/maze_generator.py:7-21 | once the carve finishes, every odd-odd cell of the matrix has been carved |
| MazeGenerator.StampFrame | maps/maze_generator.py:27-32 | after the frame loops every frame cell is a wall and every other cell is unchanged |
| MazeGenerator.ExitCellOnFrame | maps/maze_generator.py:35-51 | whatever side and coordinate are drawn, the exit is a frame cell, not a corner, and its inward neighbour is inside the frame |
| MazeGenerator.PlaceExit | maps/maze_generator.py:35-51 | the exit cell is chosen by the two draws, made 2, and its inward neighbour made 0; nothing else changes |
| MazeGenerator.AddOpenings | maps/maze_generator.py:54-58 | the matrix keeps its shape; at most `width * height / 6` cells change, each an interior wall turned to floor; `2 * (width * height / 6)` draws are consumed |
| MazeGenerator.MazeShape | maps/maze_generator.py:21-58 | after the entrance, frame, exit and openings steps: the matrix is `width` x `height` over {0, 1, 2}; the only 2 is the exit, on the frame and off the corners; every other frame cell (the entrance included) is a wall; the cell inward of the exit is floor; no interior floor was walled up |
| MazeGenerator.MazeConnected | maps/maze_generator.py:7-58 | with odd width and height, the exit of the finished maze is reachable from (1, 1) over floor and exit cells |
| MazeGenerator.GenerateMaze | maps/maze_generator.py:3-60 | `None` exactly when a dimension is below 3 (Python's recursion limit is not modelled, see "Left out"); otherwise a new matrix that is a finished maze in the sense of `MazeShape`, and, for odd dimensions, one whose exit is reachable from (1, 1) |
| MapText.WordLength | Rabbit.py:39 | the first token of a line ends at the first whitespace character |
| MapText.Split | Rabbit.py:39 | `str.split()` yields nonempty tokens that hold no whitespace |
| MapText.SplitJoin | maps/maze_generator.py:65 | splitting tokens joined by single spaces gives back those tokens |
| MapText.NatToString | maps/maze_generator.py:65 | `str` of a natural number is all decimal digits |
| MapText.NatRoundTrip | maps/maze_generator.py:65 | the value of the digits `str` writes is the number written |
| MapText.IntRoundTrip | maps/maze_generator.py:65 | `int(str(i)) == i` for every integer, and `str(i)` is one token |
| MapText.ParseTokens | maps/maze_generator.py:65 | parsing the tokens of a row gives back the row |
| MapText.RowRoundTrip | Rabbit.py:37-39 | a row written by `save_maze` and read back with `list(map(int, line.split()))` is the same row |
| MapText.LinesOfMaze | maps/maze_generator.py:62-66 | iterating over the saved file yields exactly one line per row of the matrix |
| MapText.ParseRowLines | Rabbit.py:37-39 | reading those lines row by row rebuilds the matrix |
| MapText.MapRoundTrip | maps/maze_generator.py:62-66 | a matrix saved by `save_maze` and loaded by `Labyrinth.__init__` is the same matrix |
| MapText.SaveMaze | maps/maze_generator.py:62-66 | the loop over the rows writes exactly the text of the matrix, row after row |
| MapText.ReplaceChar | Rabbit.py:177 | `str.replace` of one character replaces exactly that character everywhere and keeps the rest |
| MapText.ReplaceInLines | Rabbit.py:173-182 | every line is replaced in place, in order, none dropped or added |
| MapText.UpdateExitToWall | Rabbit.py:173-182 | each line of the map file has every `2` turned into `3` |
| MapText.UpdateWallToExit | Rabbit.py:200-209 | each line of the map file has every `3` turned into `2` |
| MapText.UpdateWallToWin | Rabbit.py:212-221 | each line of the map file has every `3` turned into `4` |
| MapText.RemapRow | Rabbit.py:177 | as a tile map: every tile equal to `from` becomes `to` and every other tile is kept |
| MapText.ReplaceRow | Rabbit.py:177 | replacing a digit character in a saved row is the same as replacing that tile value in the row |
| MapText.RemapFile | Rabbit.py:173-221 | rewriting the saved file of a matrix of digits yields the file of the remapped matrix, which loads as that matrix |
| MapText.FindExitCoordinates | Rabbit.py:163-170 | the result is the first token `2` in row-major order, or none exactly when no token is `2` |
| MapText.TokenTwo | Rabbit.py:163-170 | in a saved map the token `2` stands exactly where the tile is 2 |
| Pursuit.RowZeroUnreachable | Rabbit.py:78 | a cell of row 0 other than the start is unreachable, since the bounds test excludes row 0 |
| Pursuit.Start | Rabbit.py:69-74 | the initial tables and the one-cell queue satisfy the search invariant |
| Pursuit.Pop | Rabbit.py:76 | taking the head of the queue starts its expansion with the invariant kept |
| Pursuit.Skip | Rabbit.py:77-79 | a neighbour the guard rejects is already settled, so the invariant holds for the next direction |
| Pursuit.Discover | Rabbit.py:79-82 | recording a new neighbour at distance `d + 1` with predecessor `u` and queueing it keeps the invariant; the new distance stays below `INF` |
| Pursuit.DistanceBelowInf | Rabbit.py:68 | on a board of at most 1000 cells no recorded distance reaches `INF`, so `INF` is a true sentinel |
| Pursuit.Finish | Rabbit.py:75-82 | after the four directions the cell is expanded |
| Pursuit.Drained | Rabbit.py:74 | when the queue is empty every reached cell is expanded |
| Pursuit.PathTo | Rabbit.py:86-88 | following the predecessors back from a reached cell gives a walk from the start whose length is the recorded distance |
| Pursuit.LowerBound | Rabbit.py:70-82 | every walk from the start ends at a reached cell whose recorded distance is at most the walk's length |
| Pursuit.SearchExact | Rabbit.py:70-82 | after the search a reached cell's distance is the length of a shortest walk to it, and an unreached cell cannot be reached at all |
| Pursuit.Expand | Rabbit.py:75-82 | the inner loop over the four directions keeps the search invariant and expands the popped cell |
| Pursuit.Search | Rabbit.py:69-82 | the search terminates with tables in which every reached cell has its shortest distance and a predecessor one step nearer the start, and every cell not reached is unreachable (with `Pursuit.SearchExact`) |
| Pursuit.StepOnShortest | Rabbit.py:86-88 | the second cell of a shortest walk is one step nearer the target |
| Pursuit.BackWalk | Rabbit.py:86-88 | the back-walk terminates at a free neighbour of the start that lies on a shortest walk: its distance to the target is one less |
| Rabbit.Labyrinth.Load | Rabbit.py:35-45 | loading fails exactly when a line does not parse as integers or the file is empty; otherwise the labyrinth holds the parsed rows, its height is their number and its width the length of the first row, and it holds the given tile configuration |
| Rabbit.Labyrinth.constructor | Rabbit.py:35-45 | the labyrinth holds the given rows, height and first-row width, and tile configuration |
| Rabbit.Labyrinth.EnterableIsFree | Rabbit.py:61-65 | a cell the search may enter is exactly an in-bounds cell off row 0 whose tile id is one of the free tiles |
| Rabbit.Labyrinth.FindPathStep | Rabbit.py:67-88 | the result is `start` when it is the target or the target is unreachable; otherwise it is a free neighbour of `start`, and the target is one step nearer from it than from `start` along shortest walks; the map is not changed; which of several equally short steps is taken is not stated (see "Left out") |
| Rabbit.Labyrinth.RowCandidates | Rabbit.py:91 | a row's candidates are exactly its free cells left of the last column, in increasing column order |
| Rabbit.Labyrinth.CandidatesFrom | Rabbit.py:91 | the candidates from row `y` on are exactly the free cells off the last row and column, in row-major order |
| Rabbit.Labyrinth.CandidatesExact | Rabbit.py:91 | the candidate list of `generate_coins` holds exactly the free cells off the last row and column, each once |
| Rabbit.Labyrinth.GenerateCoins | Rabbit.py:90-92 | fails exactly when `n` is negative or exceeds the number of candidates; otherwise `n` distinct free cells off the last row and column |
| Rabbit.GetRandomFreeCoordinate | Rabbit.py:185-197 | a returned pair is two free cells in `[0, 23]²`, exactly 10 columns and 10 rows apart |
| Rabbit.Hero.constructor | Rabbit.py:103-104 | a new hero is at the given position |
| Rabbit.Hero.SetPosition | Rabbit.py:109-110 | the hero is at the new position |
| Rabbit.Enemy.constructor | Rabbit.py:120-124 | a new enemy is at its position with delay 0 and not paused |
| Rabbit.Enemy.SetPosition | Rabbit.py:129-130 | the enemy is at the new position; its delay and pause flag are kept |
| Rabbit.Positions | Rabbit.py:159-160 | the positions of the coins, one per coin, in order |
| Rabbit.KeyTarget | Rabbit.py:346-354 | the key target is at most one column and one row from the hero's cell; it lies to the right exactly when right is held without left, to the left exactly when left is held without right, and likewise below and above; it is the hero's own cell exactly when each pair of opposite keys is both held or both released |
| Rabbit.SweepRemoves | Rabbit.py:357-365 | the coin loop removes only coins at the hero's cell, and the count it adds is the number removed |
| Rabbit.SweepMiss | Rabbit.py:357-365 | with no coin at the hero's cell the coin loop changes nothing |
| Rabbit.SweepUpTo | Rabbit.py:357-365 | coins not at the hero's cell are passed over without effect |
| Rabbit.SweepDistinct | Rabbit.py:357-365 | with distinct coin positions the coin loop removes exactly the one coin at the hero's cell and counts 1, or removes nothing |
| Rabbit.SweepHit | Rabbit.py:357-365 | with distinct coin positions, the coin at index `k` on the hero's cell is the one removed |
| Rabbit.SweepSkips | Rabbit.py:357-359 | removing from the list while iterating over it skips the next coin: of two coins on the hero's cell only one is collected |
| Rabbit.CollectCoins | Rabbit.py:357-365 | the loop removes the coins as the coin sweep does, and both counters grow by the number removed |
| Rabbit.Game.constructor | Rabbit.py:226-245 | counters are zero with three levels left; the exit is the first `2` of the map file, or none when it has none; every `2` of the file becomes `3`; the snapshot records the hero, the enemy and the counters |
| Rabbit.Game.UpdateHero | Rabbit.py:340-365 | the snapshot is refreshed from the state on entry; the hero moves to the key target exactly when that cell is free; the coins on the hero's cell are removed as the coin sweep does, each adding 1 to `collected_coins` and `level_coins`; nothing else changes |
| Rabbit.Game.MoveEnemy | Rabbit.py:367-372 | a paused enemy stays and the snapshot is unchanged; otherwise the enemy takes the pursuit step of `find_path_step` towards the hero: it stays when on the hero or when the hero is unreachable, and otherwise moves to a free neighbour from which the hero is one step nearer along shortest walks; the snapshot records its cell; an enemy next to the hero on an enterable cell catches it (`check_lose` holds afterwards); nothing else changes; which of several equally short steps is taken is not stated (see "Left out") |
| Rabbit.OneStep | Rabbit.py:86-88 | a free neighbour is at shortest distance 1 |
| Rabbit.MazeExitOnly | maps/maze_generator.py:35-51 | in a generated maze every tile is 0, 1 or 2, and the only 2 is the exit |
| Rabbit.RemapAt | Rabbit.py:177 | a remapped cell holds `to` where it held `from` and its old tile elsewhere |
| Rabbit.HideExit | Rabbit.py:173-182 | after 2 → 3 the hidden tile 3 stands only at the exit, a cell is free to the game (tiles 0, 2, 4) exactly when it was floor, and after 3 → 4 the finish tile stands only at the exit |
| Rabbit.ReopenExit | Rabbit.py:200-209 | hiding the exit (2 → 3) and reopening it (3 → 2) gives back the generated maze |
| Rabbit.LevelAtExit | Rabbit.py:377-378 | on the reopened maze `check_level` holds exactly when the hero stands on the exit |
| Rabbit.WinAtExit | Rabbit.py:374-375 | on the maze turned to its final level (3 → 4) `check_win` holds exactly when the hero stands on the exit |
| Rabbit.GameFileOfMaze | Rabbit.py:236-237 | for a saved generated maze the exit lookup finds the generator's exit, and the rewritten file loads as the maze with its exit hidden |

Some members are the definitions that the rows above specify. They carry no contract of their own:
- `Rabbit.Labyrinth.GetTileId` (Rabbit.py:61-62) is the tile at a cell. `Rabbit.Labyrinth.IsFree` (Rabbit.py:64-65) says that tile is one of the free tiles. `Rabbit.Labyrinth.EnterableIsFree` relates them to the search.
- `Rabbit.Game.CheckWin`, `Rabbit.Game.CheckLevel` and `Rabbit.Game.CheckLose` (Rabbit.py:374-381) are the three game-end tests. `Rabbit.WinAtExit`, `Rabbit.LevelAtExit` and `Rabbit.Game.MoveEnemy` state when they hold.
- `Rabbit.Sweep` is the coin loop of Rabbit.py:357-365, removal at the current index included. `Rabbit.SweepRemoves`, `Rabbit.SweepMiss`, `Rabbit.SweepUpTo`, `Rabbit.SweepDistinct`, `Rabbit.SweepHit` and `Rabbit.SweepSkips` state what it does, and `Rabbit.CollectCoins` computes it with a loop.
- `MapText.ParseInt`, `MapText.ParseRow`, `MapText.ParseRows`, `MapText.Lines` and `MapText.ParseMap` are the reading of the map file (Rabbit.py:37-39). `MapText.IntToString`, `MapText.Join`, `MapText.RowLine` and `MapText.MazeText` are its writing (maps/maze_generator.py:62-66). `MapText.IntRoundTrip`, `MapText.SplitJoin`, `MapText.RowRoundTrip`, `MapText.LinesOfMaze`, `MapText.ParseRowLines` and `MapText.MapRoundTrip` prove reading inverts writing.

## Left out
- Everything pygame and pygame_gui do is left out: rendering, images, `UI`, the menus, `start_screen` and the `main` event loop with its level and game-over orchestration. Sounds and music are left out too, including the pickup sound inside the coin loop. These are user interface, not logic.
- Timers are left out: `pygame.time.set_timer` in `Enemy`, `set_delay` and `switch_pause`. The model keeps the `delay` and `paused` fields only.
- Opening, reading and writing files is left out. A file is its contents (`string`) or its lines (`seq<string>`), and the game's map file is the `Game.mapFile` field. This covers `update_from_file`, `save_game`, `load_game` and `print_maze`, which only move data between files, the matrix and the console.
- Oracle.Random: the Mersenne Twister and the distribution of draws are not modelled. Draws are a given sequence, so a fixed sequence plays the part of a fixed seed. Nothing is claimed about probabilities.
- Oracle.Random.Sample models the pool branch of `random.sample` only. Python switches to a set-based selection for large populations, which consumes draws differently. The contract (`k` elements drawn without replacement) holds for both.
- The getters and setters of `Game`, and `Hero.get_position` / `Enemy.get_position`, are plain field reads and writes. They are inlined as field accesses or as `Position()`.
- MazeGenerator.GenerateMaze returns `None` when a dimension is below 3, where Python raises. The draws Python would consume before it raises are not modelled.
- MazeGenerator.GenerateMaze and MazeGenerator.CreatePath do not model CPython's recursion limit. `create_path` recurses once for each room it enters. A carve deeper than the default 1000 frames raises `RecursionError`, which can happen from about 1000 rooms up (65 x 65 and larger). The model returns a finished maze for every dimension of 3 or more. The game's 25 x 25 maze has 144 rooms.
- Rabbit.Labyrinth.FindPathStep and Rabbit.Game.MoveEnemy do not state which step is taken when several neighbours lie on equally short walks. The search expands East, South, West, North, and every cell keeps its first discoverer as predecessor. So Python always returns the first neighbour in that order that is free and as near the target as possible. The contracts promise only some free neighbour on a shortest walk. Proving the tie-break needs a further search invariant: within each distance layer, the queue is ordered by the index of the cell's first step.
- MazeGenerator.GenerateMaze proves the exit reachable from (1, 1) only for odd dimensions; the game uses 25 x 25. With an even dimension the last lattice column or row lies on the frame and is walled over, which can cut the maze.
- Rabbit.Labyrinth.FindPathStep and Pursuit.Search require a rectangular board of at most 1000 cells, so that `INF` is a true sentinel. They also require `start` and `target` in bounds.
- Rabbit.Labyrinth.GetTileId, IsFree, CheckWin, CheckLevel and Game.UpdateHero require in-bounds cells. Python's negative-index wrap-around (for example `x = -1`) is not modelled.
- Rabbit.Labyrinth.Load accepts ragged maps, as Python does. The searches and the coin placement require a rectangular map.
- MapText.ParseInt reads an optional sign and ASCII decimal digits. Python's `int` also accepts non-ASCII digits and `_` separators, and `str.split` also splits on non-ASCII whitespace. The map files hold only single ASCII digits.
- MapText.Lines splits on `\n` only. Universal-newline translation of `\r\n` is not modelled.
- Rabbit.GetRandomFreeCoordinate bounds Python's `while True` retry loop with `fuel` and returns `None` when the fuel runs out. It requires a map of at least 24 x 24, since Python reads cells up to (23, 23). Termination of the unbounded loop is not claimed.
- Rabbit.Coin is a value, not a sprite object, and coins have no identity. `self.coins.remove(coin)` removes the very object the loop is at, because sprites compare by identity. The model therefore writes it as removal at the loop's current index. `is_collected` is only ever set by `load_game`, which is left out.
