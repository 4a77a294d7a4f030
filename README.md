# Five grid games, modelled and verified in Dafny

This project models the game logic of a small collection of browser games.
Each game lives on a bounded integer grid. The model proves what each game's
logic does to that grid.

- **Maze** (`maze.dfy`, with the path lemmas in `gridpaths.dfy`). A 15 x 20
  grid is generated in two phases. First a randomised depth-first search
  carves two cells at a time out of an all-wall grid. Then, if the exit is
  cut off, a repair corridor is opened back from the exit to the start. A
  breadth-first search (`hasValidPath`) decides whether the exit can be
  reached. The player moves one cell at a time and wins on reaching the exit.
- **Tetris** (`tetris.dfy`). A 10 x 20 well and the seven-piece table. The
  model covers the collision scan, the clockwise rotation and shifting. It
  also covers locking a piece into the board, clearing full lines with the
  `splice`/`unshift` loop, scoring, levels, game over, the next spawn and the
  drop interval.
- **2048, rotation variant** (`game2048.dfy`). A 4 x 4 board held in an
  array. Only the slide to the left is implemented directly. Every other
  direction turns the board with in-place quarter turns, slides it left, and
  turns it back.
- **2048, reverse variant with undo** (`homepage.dfy`). The page the
  application routes to. Right is done by reversing each row, and up and
  down by working on columns. Every real move records the previous board
  and score so that it can be undone.
- **Pac-Man** (`pacman.dfy`). A 28 x 21 board parsed from a character
  template. The model covers `validateMap` and its reachability search for
  the dots, and the retry loop that draws templates until one passes. It
  also covers the move check without wrap (`canMove`) and the toroidal move
  (`moveCharacter`). For one game tick it covers the choice of direction, dot
  eating, the ghosts' moves and the collision that ends the game.

`tiles.dfy` holds what the two 2048 pages share. It defines a reference
slide for one line (compact, merge pairwise from the start, pad with zeros),
the board after a move in each direction, the row-major list of empty cells,
spawning one tile, the "no move left" condition, and one turn of play
(`Play`). The two pages' own loops and in-place updates are proved equal to
these definitions, and the game properties are proved about the definitions.
`basics.dfy` holds an `Option` type and `Max`.

The source's random choices are parameters. They include the tile cell and
the 2-or-4 draw, the piece draws, the maze's neighbour picks and coins, the
ghosts' turns, and the template index. The model therefore proves its
properties for every possible outcome of those choices.

## Model

| member | source | states |
|---|---|---|
| `Basics.Max` | src/games/tetris/index.tsx:279 | the larger of the two arguments: at least both, and equal to one of them |
| `Maze.Snapshot` | src/games/maze/index.tsx:18-19 | the grid read as a 20-row, 15-column value, cell by cell equal to the array |
| `Maze.VisitNeighbour` | src/games/maze/index.tsx:143-154 | an in-bounds, non-wall, unvisited neighbour is marked and appended to the queue, and nothing else changes; an open neighbour always ends up visited |
| `Maze.VisitNeighbours` | src/games/maze/index.tsx:136-154 | the four neighbours of the current cell are tried. The queue only grows at its end, and every open neighbour ends up visited |
| `Maze.SearchStep` | src/games/maze/index.tsx:128-155 | one dequeue keeps the search invariant: every visited cell is reachable from the start, and every finished cell's open neighbours are visited. Either the unvisited set shrinks or the queue does |
| `Maze.HasValidPath` | src/games/maze/index.tsx:121-158 | true exactly when the end is reachable from the start by in-bounds 4-adjacent steps over non-wall cells; this includes start == end |
| `Maze.Candidates` | src/games/maze/index.tsx:179-188 | the lattice neighbours two cells away that lie inside the border and are still wall, all of them and nothing else |
| `Maze.CarveCandidate` | src/games/maze/index.tsx:207-217 | carving writes path into a candidate and the cell between, both inside the border; the wall set loses exactly those two cells |
| `Maze.StartGrid` | src/games/maze/index.tsx:167-174 | an all-wall grid with the start cell opened: the carving invariant holds at the start |
| `Maze.FirstPick` | src/games/maze/index.tsx:192-214 | the first candidate of the shuffled order is one of the candidates |
| `Maze.SecondPick` | src/games/maze/index.tsx:207-212 | the extra carve takes a candidate different from the first one |
| `Maze.CarveStep` | src/games/maze/index.tsx:177-221 | one turn of the depth-first loop keeps the border walls and the start open, with no exit cell, and keeps the stack inside the border. Either some wall cell is carved or the stack pops |
| `Maze.CarveMaze` | src/games/maze/index.tsx:165-221 | the finished carving has wall all around the border, no exit cell and an open start |
| `Maze.OpenCell` | src/games/maze/index.tsx:234-258 | opening an interior non-exit cell makes it a path and never closes an open cell |
| `Maze.CorridorReaches` | src/games/maze/index.tsx:233-259 | a corridor of adjacent open cells from the start to the exit means the exit is reachable |
| `Maze.RepairStep` | src/games/maze/index.tsx:234-258 | one turn of the repair loop extends the corridor from the current cell to the exit, opens no wall back up, and strictly decreases current.x + current.y |
| `Maze.RepairCorridor` | src/games/maze/index.tsx:233-259 | the repair loop ends with a corridor of adjacent path cells from (1,1) to the exit, and no open cell is closed |
| `Maze.Repair` | src/games/maze/index.tsx:228-268 | after the repair and the forced cells, the grid keeps its shape and the exit is reachable from the start |
| `Maze.GenerateMaze` | src/games/maze/index.tsx:160-273 | the generated grid has a wall border and exactly one exit at (13,18), every other cell wall or path, an open start, and an exit reachable from the start. The retry loop runs its body once |
| `Maze.InitializeGame` | src/games/maze/index.tsx:275-283 | a new game: a generated maze, the player at (1,1), the exit at (13,18), not won, and playable |
| `Maze.MovePlayerOutcome` | src/games/maze/index.tsx:285-306 | a move whose target (x + dx, y + dy) is off the board or a wall returns the state unchanged; any other move puts the player on that target and sets the game won exactly when the target is the exit. The board and the exit never change. A one-cell move either changes nothing or takes the player to an adjacent open cell. A non-zero move leaves the player in place exactly when its target is not an open cell of the board, and a player who moved has won exactly when standing on the exit |
| `Maze.MovePreservesPlayable` | src/games/maze/index.tsx:291-302 | a unit move from a playable state leaves the player in bounds on an open cell, with the exit still reachable and a win only at the exit |
| `Tetris.TetrominoFacts` | src/games/tetris/index.tsx:10-64 | each of the seven shapes is a rectangle of at most 2 rows and 4 columns with exactly four filled cells, and its type is in 1..7 |
| `Tetris.InitializeGame` | src/games/tetris/index.tsx:94-111 | an empty 20 x 10 board, a falling piece at x = 4, y = 0 whose shape and type come from two separate draws, score 0, 0 lines, level 1, not over; the state invariant holds. The game is unpaused and the drop interval is 1000 ms, the interval of level 1 |
| `Tetris.MixedSpawnOk` | src/games/tetris/index.tsx:97-102 | a shape from one draw with the type of another still fits inside the walls at the spawn point |
| `Tetris.EmptyBoard` | src/games/tetris/index.tsx:96 | the empty board has 20 rows of 10 zeros |
| `Tetris.NoCollisionInside` | src/games/tetris/index.tsx:163-185 | a piece that does not collide lies inside the side walls and above the floor |
| `Tetris.Collide` | src/games/tetris/index.tsx:163-185 | true exactly when a filled cell lands beside a wall, below the floor, or on an occupied cell at row 0 or lower; rows above the top clash only with the walls |
| `Tetris.Rotate` | src/games/tetris/index.tsx:189-191 | the clockwise quarter turn: an r x c shape becomes c x r, with cell (r, c) moving to (c, R-1-r) |
| `Tetris.RotateFour` | src/games/tetris/index.tsx:189-191 | four quarter turns give back the original shape |
| `Tetris.HalfTurnTwice` | src/games/tetris/index.tsx:189-191 | two half turns give back the original shape |
| `Tetris.RotatePiece` | src/games/tetris/index.tsx:187-202 | a rotation that collides leaves the whole state unchanged; otherwise only the falling piece's shape changes, and the invariant holds |
| `Tetris.Lock` | src/games/tetris/index.tsx:217-228 | locking keeps a well-formed board |
| `Tetris.LockPiece` | src/games/tetris/index.tsx:217-228 | the merge loop writes the piece's type into exactly the covered cells at row 0 or lower, and leaves every other cell as it was |
| `Tetris.ClearFullFacts` | src/games/tetris/index.tsx:231-239 | after clearing, the board still has 20 rows of 10 cells and no row is full. The top rows, as many as were full, are empty, and below them come the non-full rows in their original order |
| `Tetris.ClearLines` | src/games/tetris/index.tsx:231-239 | the splice/unshift loop gives exactly the cleared board, and counts exactly the full rows |
| `Tetris.DropInterval` | src/games/tetris/index.tsx:279 | max(100, 1000 - (level - 1) * 100): between 100 and 1000 ms, 1100 - 100 * level up to level 10, and 100 from level 10 on |
| `Tetris.DropIntervalMonotone` | src/games/tetris/index.tsx:279 | a higher level never drops more slowly |
| `Tetris.SpawnOk` | src/games/tetris/index.tsx:265-271 | a tetromino spawned at x = 4, y = 0 lies inside the walls |
| `Tetris.AfterLockValid` | src/games/tetris/index.tsx:242-277 | a lock followed by clearing, scoring and spawning keeps the state invariant: the level is lines / 10 + 1, and a game that is over has no falling piece |
| `Tetris.LockStep` | src/games/tetris/index.tsx:217-277 | the state after a lock: the cleared board, score + cleared * 100 * level, the line total, level lines / 10 + 1, and game over exactly when row 0 is occupied. The waiting piece spawns unless the game is over |
| `Tetris.MovePiece` | src/games/tetris/index.tsx:204-283 | no piece, game over or pause: nothing changes. A free shift moves the piece. A blocked left or right shift changes nothing. A blocked drop locks, clears, scores, spawns and resets the drop interval |
| `Tiles.CompactFacts` | src/pages/HomePage.tsx:101 | dropping the empty cells keeps the sum and leaves only non-zero tiles |
| `Tiles.MergeFacts` | src/pages/HomePage.tsx:104-110 | merging keeps the sum, never lengthens the line, and scores a non-negative gain |
| `Tiles.PadFacts` | src/pages/HomePage.tsx:113-115 | padding keeps the tiles, fills the rest with zeros up to length four, and keeps the sum |
| `Tiles.SlideFacts` | src/games/2048/index.tsx:139-153 | a slid line has four cells, the same sum and zeros only at its end; no tile is negative, and the gain is never negative |
| `Tiles.SlideUnchangedScoresNothing` | src/games/2048/index.tsx:143-148 | a line that a slide leaves as it is scores no points |
| `Tiles.SlideStable` | src/games/2048/index.tsx:139-153 | a full line with no two equal neighbours neither moves nor scores |
| `Tiles.MergeIsBlocks` | src/games/2048/index.tsx:143-148 | every tile of the result is one tile or the merge of exactly two equal tiles, so no tile merges twice; the gain is exactly the sum of the merged tiles |
| `Tiles.Empties` | src/games/2048/index.tsx:117-124 | every listed cell is on the board and empty |
| `Tiles.EmptyCellsFacts` | src/games/2048/index.tsx:117-124 | the list holds every empty cell, in row-major order without repeats |
| `Tiles.SpawnFacts` | src/games/2048/index.tsx:116-129 | with an empty cell, exactly one previously empty cell becomes 2 or 4 and nothing else changes; on a full board nothing changes |
| `Tiles.EmptiesFull` | src/games/2048/index.tsx:272-276 | the empty list is empty exactly when no cell is 0 |
| `Tiles.ReverseReverse` | src/pages/HomePage.tsx:124-126 | reversing a line twice gives it back |
| `Tiles.Shifted` | src/pages/HomePage.tsx:121-145 | the board after a move in any direction is again a 4 x 4 board of non-negative tiles |
| `Tiles.ShiftedUnchanged` | src/pages/HomePage.tsx:121-145 | a move leaves the board as it is exactly when every row or column, read in the move's direction, slides to itself |
| `Tiles.UnchangedScoresNothing` | src/pages/HomePage.tsx:121-145 | a move that changes no line scores no points |
| `Tiles.NoMovesIsStuck` | src/games/2048/index.tsx:268-287 | on a full board with no equal neighbours, every direction leaves the board as it is and scores nothing |
| `Tiles.RealMoveLeavesRoom` | src/pages/HomePage.tsx:171-181 | a move that changes the board always leaves an empty cell for the new tile |
| `Tiles.MoveAndMerge` | src/pages/HomePage.tsx:99-118 | the filter, doubling walk and zero padding give exactly the reference slide and its gain |
| `Tiles.MergeWalk` | src/pages/HomePage.tsx:104-110 | the in-place walk that doubles the first tile of each equal pair and deletes the second gives exactly the pairwise merge and its points |
| `Tiles.PadLine` | src/pages/HomePage.tsx:113-115 | pushing zeros until the line has four cells is exactly padding to four |
| `Tiles.TwoSpawns` | src/games/2048/index.tsx:104-113 | two spawns into an empty board leave exactly two tiles, each 2 or 4 |
| `Tiles.PlayFacts` | src/pages/HomePage.tsx:167-187 | a turn that moves nothing, or any turn on a stuck board, keeps the whole state. A real turn adds exactly one tile to the moved board, never lowers the score, and appends exactly the previous board and score to the history |
| `Game2048.Cells` | src/games/2048/index.tsx:133 | the board array read as a 4 x 4 value, cell by cell |
| `Game2048.Quarter` | src/games/2048/index.tsx:166-180 | one clockwise quarter turn: cell (i, j) comes from (3 - j, i) |
| `Game2048.RotatedCells` | src/games/2048/index.tsx:166-180 | one, two and three quarter turns, cell by cell |
| `Game2048.FullTurn` | src/games/2048/index.tsx:166-180 | four quarter turns are the identity |
| `Game2048.RotateBack` | src/games/2048/index.tsx:166-180 | a turn by 1 and then by 3, by 2 twice, or by 3 and then by 1 gives back the board |
| `Game2048.Swap` | src/games/2048/index.tsx:172 | exchanges two cells and changes nothing else |
| `Game2048.TransposeInPlace` | src/games/2048/index.tsx:170-174 | the in-place swaps above the diagonal transpose the board |
| `Game2048.ReverseRowsInPlace` | src/games/2048/index.tsx:176-178 | every row is reversed in place |
| `Game2048.Rotate` | src/games/2048/index.tsx:166-180 | `times` in-place quarter turns leave exactly the board turned `times` times |
| `Game2048.MoveLeftRow` | src/games/2048/index.tsx:138-163 | one row becomes its slide, the gain is the slide's points, `changed` is true exactly when the row changed, and the other rows are untouched |
| `Game2048.MoveLeft` | src/games/2048/index.tsx:137-164 | every row slides left, the score gain is the sum of the rows' points, and `moved` is true exactly when some row changed |
| `Game2048.AgreeMoved` | src/games/2048/index.tsx:183-202 | the turned board changes under the left slide exactly when the board changes under the move |
| `Game2048.RotationAgrees` | src/games/2048/index.tsx:183-202 | turning, sliding left and turning back gives the move in every direction, with the same gain and the same "moved" answer as the direct reference move |
| `Game2048.MoveBoard` | src/games/2048/index.tsx:183-202 | the direction switch turns the array, slides it left and turns it back, and returns the gain and the moved flag of the turned board |
| `Game2048.EmptyCellsOf` | src/games/2048/index.tsx:117-124 | the nested scan lists exactly the board's empty cells in row-major order |
| `Game2048.AddRandomTile` | src/games/2048/index.tsx:116-129 | the array afterwards holds exactly the board with one tile spawned into the picked empty cell |
| `Game2048.Filled` | src/games/2048/index.tsx:272-276 | true exactly when no cell is 0 |
| `Game2048.NoEqualNeighbours` | src/games/2048/index.tsx:279-284 | true exactly when no two horizontally or vertically adjacent cells are equal |
| `Game2048.CheckGameOver` | src/games/2048/index.tsx:268-287 | true exactly when no cell is 0 and no two adjacent cells are equal |
| `Game2048.Copy` | src/games/2048/index.tsx:133 | a fresh array holding the board |
| `Game2048.Move` | src/games/2048/index.tsx:132-212 | nothing changes when no row of the turned board changed. Otherwise the moved board gets one new tile, the score gets the gain, and the history gets the board and score from before: one turn of play |
| `Game2048.InitializeGame` | src/games/2048/index.tsx:104-113 | an empty board with two spawned tiles, score 0 and no history: exactly two tiles, each 2 or 4 |
| `HomePage.MergeLine` | src/pages/HomePage.tsx:121-145 | a line merged forwards is its slide; merged backwards, it is reverse(slide(reverse(line))); the gain is the slide's points |
| `HomePage.RowWritten` | src/pages/HomePage.tsx:121-132 | left slides the row; right reverses, slides and reverses back; the row stays as it was exactly when its line slides to itself |
| `HomePage.RowStep` | src/pages/HomePage.tsx:123-131 | the merged row is the moved board's row; `changed` is true exactly when it differs from the row read, which is when the row's line does not slide to itself; the gain is that line's points |
| `HomePage.MoveRows` | src/pages/HomePage.tsx:121-132 | for left and right, the row loop gives exactly the moved board, its gain, and `moved` true exactly when the board changed |
| `HomePage.ColumnWritten` | src/pages/HomePage.tsx:133-145 | up slides the column; down reverses, slides and reverses back; the column stays as it was exactly when its line slides to itself |
| `HomePage.WriteColumn` | src/pages/HomePage.tsx:142 | writing a column back cell by cell changes that column only |
| `HomePage.MoveColumns` | src/pages/HomePage.tsx:133-145 | for up and down, the column loop gives exactly the moved board, its gain, and `moved` true exactly when the board changed |
| `HomePage.MoveBoard` | src/pages/HomePage.tsx:97-145 | in every direction, the reverse-based move is exactly the reference move, with its gain and the moved flag |
| `HomePage.CollectEmptyCells` | src/pages/HomePage.tsx:171-176 | lists exactly the empty cells in row-major order |
| `HomePage.SpawnTile` | src/pages/HomePage.tsx:171-181 | the copied board with the picked empty cell set to 2 or 4: exactly one spawn |
| `HomePage.HandleKeyPress` | src/pages/HomePage.tsx:91-189 | a key other than an arrow changes nothing; an arrow plays one turn. No move means no spawn and no history entry; a real move spawns a tile and appends the previous board and score |
| `HomePage.Undo` | src/pages/HomePage.tsx:226-235 | an empty history changes nothing; otherwise the last entry's board and score come back and that entry is removed |
| `HomePage.UndoAfterPlay` | src/pages/HomePage.tsx:183-235 | a real move followed by undo restores the board, score and history from before; after a move that changed nothing, undo acts as on the old state |
| `HomePage.CheckGameOver` | src/pages/HomePage.tsx:238-270 | true exactly when the board is full and no two adjacent cells are equal |
| `HomePage.InitialSpawn` | src/pages/HomePage.tsx:192-214 | the mount effect: a full board is kept as it is, otherwise exactly one tile is spawned and score and history are kept |
| `Pacman.Parse` | src/games/pacman/index.tsx:153-159 | the board has the template's rows, each of the same length |
| `Pacman.ParseCells` | src/games/pacman/index.tsx:153-159 | '.' becomes a dot, 'W' a wall and every other character an empty cell, each at its own row and column |
| `Pacman.ParseShow` | src/games/pacman/index.tsx:153-159 | every board is the parse of its own template, so parsing loses nothing |
| `Pacman.TemplateIsBoard` | src/games/pacman/index.tsx:7-8 | a template of 21 rows of 28 characters parses to a 21 x 28 board |
| `Pacman.FirstOpenUnique` | src/games/pacman/index.tsx:99-110 | the first non-wall cell in row-major order is unique |
| `Pacman.FindStart` | src/games/pacman/index.tsx:99-110 | `hasDots` is true exactly when the board has a dot. The start is the first non-wall cell in row-major order, and there is none only when every cell is wall |
| `Pacman.Step` | src/games/pacman/index.tsx:209-226 | one step in a direction reaches a 4-adjacent cell |
| `Pacman.VisitNeighbours` | src/games/pacman/index.tsx:115-130 | the four neighbours in the order left, right, up, down are tried. The queue only grows at its end, and every open neighbour ends up visited |
| `Pacman.SearchStep` | src/games/pacman/index.tsx:116-131 | one dequeue keeps the search invariant and either shrinks the unvisited set or the queue |
| `Pacman.Explore` | src/games/pacman/index.tsx:115-131 | the search visits exactly the cells reachable from the start |
| `Pacman.DotsVisited` | src/games/pacman/index.tsx:134-140 | true exactly when every dot was visited |
| `Pacman.ValidateMap` | src/games/pacman/index.tsx:90-143 | true exactly when the board has a dot and every dot is reachable from the first non-wall cell in row-major order; false whenever there is no dot |
| `Pacman.DrawTemplate` | src/games/pacman/index.tsx:152-161 | one try of the retry loop parses the drawn template and returns whether it is playable |
| `Pacman.InitializeBoard` | src/games/pacman/index.tsx:151-162 | the loop stops at the first drawn template that passes `validateMap` and returns its board |
| `Pacman.Wrapped` | src/games/pacman/index.tsx:236-252 | the wrapped neighbour is in bounds and differs from the cell. It is the plain neighbour when that is in bounds, and otherwise the opposite edge |
| `Pacman.MoveCharacter` | src/games/pacman/index.tsx:236-260 | the result is always in bounds. It is the wrapped neighbour exactly when that is not a wall, and otherwise the cell itself. A character off the walls stays off them |
| `Pacman.MoveAgrees` | src/games/pacman/index.tsx:209-260 | when `canMove` allows a move, `moveCharacter` takes the plain step. An in-bounds wall keeps the character still. An edge move is never allowed by `canMove` |
| `Pacman.ChosenMoveAdvances` | src/games/pacman/index.tsx:352-362 | when the next or current direction can move, Pac-Man takes one plain step onto an adjacent open cell |
| `Pacman.Movable` | src/games/pacman/index.tsx:375-377 | exactly the directions among those offered in which the ghost can move |
| `Pacman.MoveGhost` | src/games/pacman/index.tsx:372-383 | a ghost moves by `moveCharacter` in its old direction. Without a turn draw it keeps that direction. Its new direction is the old one or a movable one, and a movable one whenever it turns and some direction is movable |
| `Pacman.MoveGhosts` | src/games/pacman/index.tsx:372-383 | every ghost is moved by its own draw, and all stay in bounds |
| `Pacman.Eaten` | src/games/pacman/index.tsx:364-369 | a dot under Pac-Man becomes empty; any other cell, and any board without a dot there, is left as it was |
| `Pacman.EatingKeepsTotal` | src/games/pacman/index.tsx:364-369 | score plus 10 per remaining dot is unchanged by eating, and eating a dot removes exactly one |
| `Pacman.UpdateGame` | src/games/pacman/index.tsx:342-416 | a game that is over is left alone. A collision ends the game with Pac-Man, the score and the ghosts' positions of the previous state, and a board that differs from the previous one at most where a dot was. A game still running has no ghost on Pac-Man |
| `Pacman.TickOutcome` | src/games/pacman/index.tsx:352-412 | the game ends exactly when a moved ghost lands on Pac-Man's new cell. Then the board has lost the dot Pac-Man landed on, because the copied board shares its rows with the previous one, and the previous ghosts carry the directions the ghost map wrote into them. Otherwise Pac-Man moves in the chosen direction, the ghosts move, and a dot there is eaten for 10 points; any other landing keeps the board and score |
| `Pacman.TickKeepsTotal` | src/games/pacman/index.tsx:364-411 | score plus 10 per remaining dot is the same before and after every tick except the one that ends the game. On that tick a dot Pac-Man lands on disappears without its 10 points. The score never falls |
| `Pacman.TickKeepsOffWalls` | src/games/pacman/index.tsx:362-383 | a tick never moves Pac-Man or a ghost onto a wall |

## Left out

- Drawing, canvas sizes, colours, orientation and the history pages are not
  modelled. They are rendering and user interface.
- Keyboard and touch handlers are not modelled; a key press is a parameter
  (`HomePage.HandleKeyPress` takes the key). Timers are left out too:
  `requestAnimationFrame`, `Date.now`, the drop counters and the Pac-Man
  movement speed. A tick is one call of the modelled function.
- Score saving in `localStorage` is not modelled, because it is browser
  storage.
- `Math.random` is not modelled. Every draw is a parameter or an oracle
  function: the empty-cell pick and the 2-or-4 draw in 2048, the three
  tetromino draws, the maze's candidate order, the extra-carve coin, the
  repair coins, the ghosts' turns and the template index.
- Maze.FirstPick: the float-weighted sort of the carve candidates is not
  modelled. The model allows any choice of first candidate, so it proves the
  carving properties for every order, not for the sort's distribution.
- Maze.SecondPick: the extra carve takes any candidate other than the
  first, again in place of the sorted order.
- Maze.HasValidPath: requires the start to be on the grid, and every caller
  in the source passes (1,1). For a start whose row is off the grid, the
  source throws when it marks the start as visited. For a start whose column
  is off the grid, the source writes outside the visited row and goes on
  searching. The model excludes both cases.
- Maze.MovePreservesPlayable: stated for unit moves only, which are the
  moves the key handler makes. A longer jump could skip walls in the source
  too.
- Maze.GenerateMaze: proves that its retry loop runs once: a repaired grid
  always passes the second `hasValidPath` test, so the model does not
  loop.
- Aliasing of shallow copies is modelled only where it is visible. In the
  Pac-Man tick it is visible on a collision: the previous state comes back
  with the eaten dot gone from the shared row and the ghosts' new
  directions (`Pacman.UpdateGame`). Elsewhere the mutated previous state is
  replaced by the new one, so the model builds fresh values. This covers
  `[...board]` in the Tetris lock and the Pac-Man tick when no ghost
  catches Pac-Man.
- The Pac-Man templates are ragged: most rows are shorter than 28 characters, and
  there are 24 rows against a height of 21. `Pacman.InitializeBoard` and the
  movement functions require a rectangular 21 x 28 board instead of modelling
  reads outside the rows.
- Pacman.InitializeBoard: requires that some draw gives a playable
  template. The source's `while (!validMap)` loop would not end otherwise.
- The placement loops for Pac-Man and the ghosts in the source's
  `initializeGame` are not modelled. They retry random cells and promise
  nothing that could be stated.
- Tetris starts with no falling piece before the first `initializeGame`.
  That state and the restart button are not modelled separately;
  `Tetris.InitializeGame` is the state a new game starts from.
- Tetris.InitializeGame: takes the falling piece's shape and type from
  different draws, as the source does. `Tetris.MixedSpawnOk` shows that this
  mix still fits the walls. The model does not treat it as an intended
  invariant that the type matches the shape.
- The 2048 boards hold non-negative tiles (`Tiles.IsGrid`). The source never
  creates any other value.
- The restart after game over in the reverse-variant page is a
  `window.confirm` dialog followed by the same spawn as the mount effect.
  The dialog is not modelled; `HomePage.InitialSpawn` is that spawn.
- Integers are unbounded. Scores and tiles never come near JavaScript's
  integer limits in play.
