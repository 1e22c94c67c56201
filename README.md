# Seeded maze race, modelled in Dafny

`srmr.js` is a browser game. One or two players race from the top-left
cell of a maze to the bottom-right cell. Player 1 steers with the arrow
keys and player 2 with `w`/`s`/`a`/`d`.

Every level has its own maze:

- The maze is carved by a randomised depth-first search.
- The search draws from a linear congruential generator seeded with the
  level's seed.
- A level draws its seed once and keeps it, so it always gets the same
  maze.
- Level `n` is `10 + 2(n-1)` rows by `14 + 2(n-1)` columns.

The page keeps five things between visits:

- the highest unlocked level;
- the last level played;
- the seed of every level;
- a leaderboard of the five fastest wins;
- the player mode (one or two players).

Winning a level unlocks the next one. `r` moves on to it.

The project models the deterministic core of the game:

- **`rng.dfy` (module `Rng`)**: the generator `LCG(seed)` as a class whose
  state `next()` advances. Each draw is represented by its integer
  numerator, so that `randInt` is an integer division.
- **`grid.dfy` (module `Grid`)**: directions, positions, the wall record of
  a cell, undirected edges between cells, and the properties of a grid:
  - the border is closed;
  - each wall is the same seen from both sides;
  - the open passages;
  - routes through open walls.
- **`maze.dfy` (module `MazeGen`)**: `generateMaze` as a `Generator` class.
  - The grid is an `array2` updated in place.
  - `shuffleDirs` works in place on an array.
  - `visit` is mutually recursive methods.
  - Ghost fields record the order in which cells were reached, the edges
    carved and how each cell was entered.
  - The carve is also written as ghost functions on values (`VisitFrom`,
    `TryAll`, `TryStep`), and the in-place methods are proved to follow
    them step by step. These functions take a recursion bound. `CarveOf`
    gives them one level per cell of the grid, and the preconditions of
    `Visit` show that the in-place carve never needs more. The grid
    `generateMaze` returns is therefore a function of `rows`, `cols` and
    `seed >>> 0` alone: the same three always give the same walls.
  - The grid `generateMaze` returns is proved to be a spanning tree of the
    grid: every cell is reached once, there are `rows * cols - 1` open
    passages, every cell is reachable from the start, the walls are
    symmetric and the border is intact.
- **`players.dfy` (module `Players`)**: a `Player` class whose `move` steps
  through an open wall. Any sequence of moves only reaches cells connected
  to the start.
- **`levels.dfy` (module `Levels`)**: `sizeForLevel`, the level clamp of
  `setup` and `ensureSeedForLevel`, as functions.
- **`leaderboard.dfy` (module `Leaderboard`)**: `saveScore`'s append, sort
  by time and cut to five.
- **`rules.dfy` (module `Rules`)**: key dispatch, and what `checkWin`'s loop
  does, as functions over the players' positions.
- **`game.dfy` (module `Game`)**: the page's global state as the class
  `Session`, with one method per event handler:
  - `setup`, `setupMazeOnly` and `setupPlayers`;
  - `saveScore` and `checkWin`;
  - the key handler;
  - the level list click, the reset button and the mode selector.

`Session.Valid()` is what holds between events:

- the level is unlocked;
- the maze has the level's size and a closed border;
- the maze is the grid `generateMaze` returns for the level's size and
  registered seed;
- there is one player per player of the mode, each on a cell of the maze;
- in the menu the clock is off and everyone is on the start cell;
- during a race nobody stands on the goal;
- after a race there is a winner, and the next level is unlocked and is the
  last level played.

Every handler keeps `Valid()`.

The key handler's contract states the race rules:

- Players move only during a race, and then each one moves as its
  response to the key says, so a key moves only the player it steers.
- A key during a race keeps the level, the maze, the seeds and the
  players. It either changes nothing but positions, or leaves that one
  player as the winner: the game is over, its score is saved once,
  `maxLevel` is `max(old, level + 1)` and `lastLevel` is `level + 1`.
- This holds although the loop in `checkWin` has no `break`.
- Outside a race no player moves. Space in the menu changes only the
  phase and the clock. No key changes the player mode. Any key other than Space in the menu or `r` after
  a win changes nothing.
- `r` after a win moves to the next level and registers its seed.
- The highest unlocked level never goes down.

Where the code and its documentation could be read differently, the model
follows the code. In particular:

- `r` after a win goes back to the menu of the next level. `setup` sets
  `state = "menu"`, so the race does not start straight away.
- A level-list click starts the race at once and leaves `winner` as it was.

## Model

| member | source | states |
|---|---|---|
| Rng.ToUint32 | srmr.js:46 | `seed >>> 0` lies in `[0, 2^32)` and is congruent to the seed modulo `2^32` |
| Rng.NextState | srmr.js:43-48 | one step `(a * state + c) % m` always gives a state below `m = 2^31` |
| Rng.Iterate | srmr.js:47-49 | after at least one draw the state is below `2^31` |
| Rng.IterateAdd | srmr.js:47-49 | drawing `m` times and then `n` times leaves the state of `m + n` draws |
| Rng.Fraction | srmr.js:48 | the value `next()` returns lies in `[0, 1)` and times `m` gives back the state |
| Rng.Scale | srmr.js:51 | `randInt(rng, min, max)` lies in `[min, max]` whenever `min <= max` |
| Rng.ScaleIsFloor | srmr.js:51 | the integer form of `randInt` equals `Math.floor(next() * span)` computed exactly on reals |
| Rng.Lcg.constructor | srmr.js:42-47 | a new generator starts from `seed >>> 0` with no draws taken |
| Rng.Lcg.Next | srmr.js:48 | `next()` advances the state by one step; the k-th draw depends only on the seed and k, and is below `2^31` |
| Rng.RandInt | srmr.js:51 | one draw, scaled into `[min, max]`, and the generator has advanced once |
| Grid.StepBack | srmr.js:74-79 | the opposite direction steps back to the start; every step changes exactly one coordinate by one |
| Grid.Opposite | srmr.js:75-78 | the opposite direction differs from `d` and lies on the same axis, which fixes it |
| Grid.ClearWall | srmr.js:81-82 | `cell[d] = false` opens that wall and changes no other flag |
| Grid.EdgeOfSides | srmr.js:81-82 | an edge is crossed from exactly two sides: from the cell towards `d`, and from its neighbour towards the opposite direction |
| Grid.RouteSnoc | srmr.js:123-131 | a route through open walls extends by one more open step |
| Grid.RouteStaysInGrid | srmr.js:123-131 | on a grid with a closed border, a route from a cell of the grid ends in the grid |
| MazeGen.Generator.constructor | srmr.js:55-62 | a fresh `rows` by `cols` grid of cells with every wall up and no cell visited, and a fresh generator seeded with `seed >>> 0` |
| MazeGen.SwapPermutes | srmr.js:66 | the swap `[dirs[i], dirs[j]] = [dirs[j], dirs[i]]` only reorders |
| MazeGen.Pick | srmr.js:65 | the index `randInt(rng, 0, i)` is at most `i` |
| MazeGen.Shuffled | srmr.js:64-67 | the pass of `shuffleDirs` from index `i` down keeps the length of the list |
| MazeGen.FisherYates | srmr.js:63-68 | the whole pass of `shuffleDirs` keeps the length of the list |
| MazeGen.ShufflePermutes | srmr.js:63-68 | the Fisher-Yates pass of `shuffleDirs` is a permutation of its input |
| MazeGen.ShuffleOfFour | srmr.js:71-72 | shuffling `["N","S","E","W"]` yields each direction exactly once |
| MazeGen.EveryDirection | srmr.js:73 | a reordering of the four directions tries every one of them |
| MazeGen.Generator.ShuffleDirs | srmr.js:63-68 | the array ends as the Fisher-Yates pass of its old contents under the generator's state, after `length - 1` draws, and the generator's state is that many steps on |
| MazeGen.Generator.Directions | srmr.js:71-72 | the directions are the Fisher-Yates pass of `["N","S","E","W"]` under the generator's state, so a reordering of all four, and the state is three steps on |
| MazeGen.Generator.OpenPassage | srmr.js:81-82 | the wall between a cell and its neighbour is knocked down on both sides, the edge joins the carved edges, and no `visited` flag changes |
| MazeGen.Generator.Mark | srmr.js:70 | the cell marked visited joins the reached cells, and the flags mark exactly those cells |
| MazeGen.Generator.Visit | srmr.js:69-86 | `visit(r, c)` keeps the carve a tree. The new cells follow the old ones, the entered cell first. It takes three draws per new cell and leaves every neighbour of a new cell reached. The cells reached, the edges opened and the generator's state end as `VisitFrom` of the old ones says |
| MazeGen.Generator.ExploreAll | srmr.js:73-85 | the loop over the shuffled directions reaches every neighbour of the cell and of every cell reached on the way, and the carve ends as `TryAll` from the first direction says |
| MazeGen.Generator.Explore | srmr.js:74-84 | one pass of the loop: a neighbour in the grid ends up reached, by carving towards it when it was not visited, and the carve ends as `TryStep` says |
| MazeGen.TreeGrow | srmr.js:80-83 | entering an unreached neighbour through a new edge extends the tree |
| MazeGen.CarveElsewhere | srmr.js:81-82 | carving an edge leaves the walls of every other cell matching the carved edges |
| MazeGen.CarveHere | srmr.js:81 | the cell the carve leaves matches the carved edges after its wall is cleared |
| MazeGen.CarveThere | srmr.js:82 | the cell the carve enters matches the carved edges after its opposite wall is cleared |
| MazeGen.AfterCarve | srmr.js:81-82 | clearing a wall keeps the cell's `visited` flag |
| MazeGen.CarveKeepsMatch | srmr.js:81-82 | after both walls are cleared, every cell's walls match the carved edges again |
| MazeGen.TreeFits | srmr.js:69-86 | the cells reached, each once, are never more than the grid holds, which is why the recursion ends |
| MazeGen.CoveredGrows | srmr.js:73-85 | the neighbours tried so far stay reached as more cells are reached |
| MazeGen.CoveredAll | srmr.js:73-85 | once all four directions were tried, every neighbour of the cell is reached |
| MazeGen.FinishedGrows | srmr.js:73-85 | a cell whose neighbours are all reached stays so as more cells are reached |
| MazeGen.ClosedCoversGrid | srmr.js:87 | a set of reached cells that holds the start and every neighbour of its cells holds the whole grid |
| MazeGen.ColumnReached | srmr.js:87 | the first column is reached from the start |
| MazeGen.RowReached | srmr.js:87 | each row is reached from its first cell |
| MazeGen.MatchedGridIsSound | srmr.js:60-82 | a grid whose walls match the carved edges has a closed border and walls that agree on both sides |
| MazeGen.PassagesAreCarved | srmr.js:80-84 | the open passages of the grid are exactly the carved edges |
| MazeGen.OpenIsCarved | srmr.js:80-84 | every open passage was carved |
| MazeGen.CarvedIsOpen | srmr.js:80-84 | every carved edge between two cells is an open passage |
| MazeGen.TreeReachable | srmr.js:69-86 | every reached cell can be walked to from the start through open walls |
| MazeGen.CarveMarksAll | srmr.js:70 | after the carve every cell is marked visited |
| MazeGen.CarveCoversGrid | srmr.js:87 | the carve from `(0, 0)` reaches every cell of the grid exactly once |
| MazeGen.CarveCountsPassages | srmr.js:80-84 | the finished grid has `rows * cols - 1` open passages |
| MazeGen.CarveConnects | srmr.js:87 | every cell of the finished grid can be reached from the top-left cell |
| MazeGen.CarveMakesPerfectMaze | srmr.js:54-89 | a finished carve from the top-left cell yields a perfect maze: a spanning tree of the grid with symmetric walls and a closed border |
| MazeGen.GenerateMaze | srmr.js:54-89 | `generateMaze` returns a fresh `rows` by `cols` grid that is a perfect maze, reached in the order `CarveOf(rows, cols, seed)` gives, and equal cell by cell to the maze of `rows`, `cols` and `seed >>> 0` |
| MazeGen.MatchedGridIsMaze | srmr.js:69-89 | a grid whose cells are all visited and whose walls match the edges of the carve for `seed` is the grid `generateMaze` returns for that seed |
| MazeGen.DistinctCard | srmr.js:69-86 | proof helper for the passage count: a list without repetitions, such as the visit order, has as many distinct elements as entries |
| MazeGen.CellsCard | srmr.js:57-62 | proof helper for the passage count: the set of cells of the grid the loops build has `rows * cols` elements |
| MazeGen.RowCellsCard | srmr.js:59-61 | proof helper for the passage count: the cells of one row form a set of `cols` elements |
| MazeGen.SubsetCard | srmr.js:69-86 | proof helper for the passage count: a subset has no more elements than its superset |
| Players.Step | srmr.js:123-131 | the player stays exactly when the wall on that side stands, otherwise moves one step through the open wall; with a closed border it stays on the grid |
| Players.Walk | srmr.js:123-131 | any run of moves keeps a player on a grid whose border is closed |
| Players.WalkFollowsPassages | srmr.js:123-131 | whatever keys are pressed, a player only reaches cells connected to its start through open walls |
| Players.Player.constructor | srmr.js:110-115 | a player has the given colour, label, cell and keys |
| Players.Player.Move | srmr.js:123-131 | `move(dir)` leaves the player where `Step` says |
| Levels.SizeForLevel | srmr.js:152-156 | every level has four more columns than rows and an even number of rows; level 1 and later levels have at least 10 by 14 cells |
| Levels.SizeGrows | srmr.js:152-156 | each level adds two rows and two columns |
| Levels.ClampLevel | srmr.js:161 | the level to resume at is the last level played when it is unlocked, the highest unlocked level when it is not, and never below 1 |
| Levels.EnsureSeed | srmr.js:143-150 | a registered seed comes back unchanged. Otherwise `draw + lv`, which is at least `lv`, is registered. No other level's seed changes |
| Levels.EnsureSeedIdempotent | srmr.js:143-150 | asking again for a level's seed, whatever the new draw, gives the same seed and the same registry |
| Leaderboard.Insert | srmr.js:187 | inserting one entry lengthens the list by one |
| Leaderboard.InsertAdds | srmr.js:187 | inserting adds exactly the new entry and loses nothing |
| Leaderboard.InsertSorted | srmr.js:187 | inserting into a list sorted by time keeps it sorted |
| Leaderboard.SortByTime | srmr.js:187 | sorting keeps the length |
| Leaderboard.SortSorts | srmr.js:187 | the sort is a permutation and orders the list by time |
| Leaderboard.SortSorted | srmr.js:187 | sorting a list already sorted by time changes nothing |
| Leaderboard.InsertAtEnd | srmr.js:187 | an entry no faster than all others goes last |
| Leaderboard.Record | srmr.js:184-189 | `saveScore`'s new list has one entry more than the old one, until it holds five |
| Leaderboard.RecordKeepsFastest | srmr.js:184-189 | `saveScore` leaves `min(old + 1, 5)` entries sorted by time, all from the old list plus the new entry, none slower than an entry dropped |
| Leaderboard.KeepsFastest | srmr.js:188 | `slice(0, 5)` of a sorted list keeps a sorted prefix no slower than what it cuts |
| Leaderboard.PrefixBeforeSuffix | srmr.js:188 | in a sorted list every kept entry is no slower than any cut entry |
| Leaderboard.CutOff | srmr.js:188 | what the cut removes is the rest of the list |
| Leaderboard.RecordInserts | srmr.js:186-188 | on a sorted leaderboard, saving is inserting the new entry after those no slower than it, then cutting to five |
| Rules.Controls | srmr.js:258-263 | a key steers a player exactly when it is one of that player's keys, and in that key's direction |
| Rules.Mover | srmr.js:258-263 | an arrow steers player 1 only, a letter player 2 only, any other key nobody |
| Rules.KeyFor | srmr.js:137-139 | the key bound to a direction steers its player that way |
| Rules.ControlsIsKeyFor | srmr.js:259-262 | `e.key === p.keys.up` and the three others: a key moves a player in `d` exactly when it is that player's key for `d` |
| Rules.Respond | srmr.js:258-263 | a key that does not steer the player leaves it in place; otherwise the player moves through an open wall or stays; with a closed border it stays on the grid |
| Rules.Finish | srmr.js:227-235 | a player on the goal becomes the winner at `time`, `maxLevel` becomes `max(old, level + 1)`, `lastLevel` becomes `level + 1`, and the game is over |
| Rules.ScanWins | srmr.js:224-237 | the passes of `checkWin`'s loop leave the phase as it was or end the game, and never lower the highest unlocked level |
| Rules.ScanScores | srmr.js:224-237 | after the passes of `checkWin`'s loop the leaderboard holds at least `min(old, 5)` and at most `max(old, 5)` entries |
| Rules.FinishersExact | srmr.js:224-237 | the players `checkWin` handles are exactly those on the goal, each once, in order |
| Rules.ScanWinsOutcome | srmr.js:223-238 | with nobody on the goal `checkWin` changes nothing. Otherwise the game is over and the last player on the goal is the winner; `maxLevel` is `max(old, level + 1)` and `lastLevel` is `level + 1` |
| Rules.ScanScoresUnique | srmr.js:223-238 | when only player `m` can be on the goal, `checkWin` saves that player's score once or saves nothing |
| Rules.AtMostOneFinisher | srmr.js:223-238 | when only player `m` can be on the goal, the missing `break` finds at most that one player |
| Rules.OneWinner | srmr.js:223-238 | when only player `m` can be on the goal, `checkWin` either changes nothing, or makes `m` the one winner with its score saved once |
| Game.PlayerCount | srmr.js:135-140 | one player, or two exactly in two-player mode |
| Game.PositionsOf | srmr.js:224-226 | the cells of the players in player order |
| Game.Session.GoalIsCorner | srmr.js:226 | the goal `(ROWS - 1, COLS - 1)` is the one cell of the maze with no cell south or east of it |
| Game.Session.constructor | srmr.js:288-294 | page load reads the stored progress back and runs `setup`: valid, in the menu, at the clamped level, with the level's seed registered |
| Game.Session.SetupPlayers | srmr.js:135-141 | `P1` on the arrows and, in two-player mode, `P2` on the letters, fresh and distinct, both on the top-left cell |
| Game.Session.SetupMazeOnly | srmr.js:177-182 | the level's seed is registered if it had none, the size is the level's, and the maze is a fresh one with a closed border, equal to the grid `generateMaze` returns for the level's size and registered seed |
| Game.Session.Setup | srmr.js:158-175 | valid again, in the menu with the clock off and no winner, at the clamped level, with that level's seed registered |
| Game.Session.SaveScore | srmr.js:184-191 | the leaderboard becomes the new entry added, sorted by time and cut to five |
| Game.Session.CheckWin | srmr.js:223-238 | the progress and the leaderboard become the scan of the players in order, each player on the goal in turn being handled |
| Game.Session.MovePlayers | srmr.js:258-263 | every player ends where its response to the key puts it |
| Game.Session.MoveOne | srmr.js:259-262 | one player's four `if`s move it as its response to the key says |
| Game.Session.StartRace | srmr.js:245-249 | Space in the menu starts the race and its clock, and keeps the state valid |
| Game.Session.NextLevel | srmr.js:250-256 | `r` after a win moves to the next level, remembers it and registers its seed, and leaves it valid in the menu |
| Game.Session.Advance | srmr.js:258-263 | during a race a key moves at most the player it steers, so every other player stays off the goal |
| Game.Session.RaceEndsValid | srmr.js:223-238 | after `checkWin` in a race step where only player `m` can be on the goal, the state is valid and the race either goes on unchanged or has `m` as the one winner |
| Game.Session.Conclude | srmr.js:264 | `checkWin` after a race step keeps the state valid and ends the race with one of its two outcomes |
| Game.Session.Play | srmr.js:257-265 | a key during a race moves the players it steers and then either changes nothing else, or ends the game with that player as the winner and its score saved; the highest unlocked level does not go down |
| Game.Session.Navigate | srmr.js:245-256 | outside a race Space in the menu starts the race, `r` after a win moves to the next level with its seed registered, and any other key changes nothing; no player moves, and the unlocked levels, the scores and the mode stay |
| Game.Session.KeyDown | srmr.js:241-266 | the key handler keeps the state valid. Space starts a race from the menu. `r` after a win goes to the next level in the menu with its seed registered. During a race every player ends at its response to the key, the level, maze, seeds and players stay, and the race has one of its two outcomes. Outside a race no player moves, and any other key changes nothing. The mode never changes and the highest unlocked level never goes down |
| Game.Session.SelectLevel | srmr.js:209-217 | clicking an unlocked level remembers it, registers its seed and starts the race on it at once, with fresh players all on the top-left cell, the mode kept and the state valid |
| Game.Session.ResetProgress | srmr.js:269-277 | a confirmed reset leaves level 1 unlocked and played, no scores, only a fresh seed for level 1, no winner and the clock off, in the menu, with the mode, the number of players and the last winning time kept. A declined reset changes nothing |
| Game.Session.ChangeMode | srmr.js:281-285 | changing the mode stores it and resets to the menu at the clamped level, with the clock off, no winner, one player per player of the mode and the level's seed registered. The unlocked levels, the last level, the scores, the last winning time and the other seeds stay |

## Left out

- Rendering is not part of this model: the canvas, `drawMaze`, `draw`,
  `showScores`, the level list's markup and the labels. These only
  display the game state and never change it.
- `resizeCanvas` is left out because it only sizes the canvas.
- The `resize` listener also calls `setupMazeOnly` again. That call would
  regenerate the same maze from the level's registered seed. The listener
  is left out with the canvas.
- `localStorage`, `JSON.parse` and `parseInt` are left out. The stored
  values are fields of `Session` that already hold the parsed values, and
  the getters' defaults appear only as the values a reset leaves.
- `Game.Session.constructor` takes the stored values as arguments, as
  `boot` would read them. `boot`'s writing of the defaults is not modelled.
- `confirm` is a boolean parameter of the reset button.
- `setInterval` and the render loop are left out.
- `Date.now()` and `Math.random()` become parameters:
  - `now`/`ts` are clock readings;
  - `time` is the elapsed race time in hundredths of a second;
  - `draw` stands for `Math.floor(Math.random() * 1e9)`, which is below
    10^9.
- `toFixed(2)` and `parseFloat`: a time is an integer number of
  hundredths, which sort the same way. The string formatting is not
  modelled.
- Leaderboard.SortByTime is stable by construction. Its result is
  therefore what a stable `sort` gives, but stability is not stated as a
  proved property.
- Rng.NextState uses exact integer arithmetic. JavaScript computes
  `a * state + c` in double precision, and the product reaches about 2^62.
  Past 2^53 the low bits are rounded away before `% m` is taken, so the
  page's draws are not those of the exact recurrence. The model states
  what the generator is evidently meant to compute. Bit-exact
  floating-point rounding is not modelled, so the mazes of the model are
  not claimed to be the page's mazes cell for cell.
- Rng.Fraction: the division `state / m` by a power of two is exact in
  floating point. The model uses the exact rational.
- `e.key` and `e.code` comparisons are abstracted into the `Key`
  datatype: `Space`, `r`/`R`, an arrow, a lowercase letter key, or
  anything else. `preventDefault` is left out.
- MazeGen.Generator.Visit does not model JavaScript's call-stack limit.
  `visit` recurses once per cell it carves, so its depth can reach
  `rows * cols`, and `sizeForLevel` grows without bound. A high enough
  level can therefore exhaust the page's stack. The model's recursion has
  no depth limit, and its bound `rows * cols` is only the proof that the
  recursion ends.
- MazeGen.GenerateMaze: `visit` bounds its search by the globals
  `ROWS`/`COLS`, while the model bounds it by the grid's own size. Every
  call passes those globals, so the two agree.
- Game.Session.Valid does not restate the perfect-maze property.
  `generateMaze` proves it of each new maze. The session keeps the maze's
  identity (it is the grid of the level's size and seed), its closed
  border and its size, which are what the players' moves need.
- The order of some assignments differs from the source. `setup` sets
  the phase, the clock and the winner, and the level-list click sets the
  level, the last level, the phase and the clock, before the maze is
  generated and the players are created. `setup`'s own assignment
  of `ROWS`/`COLS` is left to `setupMazeOnly`, which makes the same one.
  The fields involved are disjoint, so the outcome is the same.
