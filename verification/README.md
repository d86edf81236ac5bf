# Maze Runner — a verified model of the game core

Maze Runner is a small SDL game written in C: it carves a random perfect maze
into an 11 by 11 grid of cells with a randomised iterative depth-first search,
and the player walks from the top-left cell to the bottom-right one. This
project models the core of `main.c` in Dafny and proves properties of it:

- `grid.dfy` (module `Grid`): directions, cells with four wall flags, and the
  grid array. It covers `fillGrid`, the zero-initialised static array, and the
  wall-carving step of `makeMaze`.
- `maze.dfy` (module `Maze`): `makeMaze`. It covers the candidate directions
  in TOP, RIGHT, BOTTOM, LEFT order, `getRandom`, and the fixed-size stack of
  `GRID_WIDTH * GRID_HEIGHT` cells with its index. It proves that the loop
  ends, that the stack never overflows, and that the result is a perfect maze.
  "Perfect" is stated through a spanning tree: every cell has a parent
  direction and a push rank, and a wall is down exactly where a cell was
  carved from its parent.
- `perfect.dfy` (module `Perfect`): what a perfect maze gives the player. Any
  two cells are joined by a path of openings, and exactly `w*h - 1` walls are
  open.
- `motion.dfy` (module `Motion`): `movePlayer` (the target cell) and
  `playerMovement` (the sprite's pixel position, 14 pixels per frame).
- `session.dfy` (module `Session`): the `'S'`/`'G'`/`'W'`/`'D'` state machine,
  `processEvents`, and one pass of the main loop.

The grid size is a parameter `w` by `h` everywhere except in `Session`, which
fixes it at 11 by 11 as the program does. `rand()` is an oracle
`rand: nat -> nat`: the k-th call yields `rand(k)`. `MakeMaze` proves its
result is a perfect maze for every oracle.

In three places the code does something other than its layout or comments
suggest, and the model follows the code:

- The arrow keys are not gated on the game state. Their `case` labels sit
  inside the `if (game_state == 'G')` at main.c:83, and `switch` jumps
  straight to a label.
- A target cell may run several cells ahead of the sprite: `movePlayer`
  (main.c:115-132) moves the target from the target, never reading the
  current cell.
- The comment at main.c:135-137 says the next cell is set to the current
  one; the code sets the current cell to the next one, when the pixel
  position equals the target's exactly.

The session follows the code as written, both defects below included:
arrow presses run `movePlayer` with its loose bounds, and the loop moves the
sprite only while the current cell differs from the target. The corrected
`MovePlayer` and `Advance` are defined and proved beside them, and
`PlayFollowsSource` shows that during the game the two moves agree.

## Model

| member | source | states |
|---|---|---|
| Grid.NeighborFacts | main.c:332-355 | stepping towards a side and back the opposite way returns to the start cell; different sides lead to different neighbours |
| Grid.RowCard | main.c:217-220 | one row of the grid has `w` cells |
| Grid.AllPosCard | main.c:216-221 | the grid has `w*h` cells, the size of the generator's stack array |
| Grid.AllPosSplit | main.c:216-221 | the grid is its rows above the last plus the last row, which share no cell |
| Grid.CellsBound | main.c:291 | a set of grid cells never has more than `w*h` members, and has exactly that many if and only if it covers the grid |
| Grid.FillGrid | main.c:213-222 | every cell records its own column and row, has all four walls, and is unvisited |
| Grid.FillGridIsClosed | main.c:213-222 | a filled grid has consistent coordinates, consistent walls between neighbours, a closed outside, and no opening anywhere |
| Grid.ZeroGrid | main.c:377 | before the first maze, the static grid has every field zero, so no wall stands anywhere |
| Grid.Carve | main.c:331-355 | carving towards `d` removes that wall of the cell and the facing wall of the neighbour, marks the neighbour visited, and leaves every other cell unchanged |
| Grid.CarveKeepsOutside | main.c:331-355 | carving keeps each cell's coordinates and never opens an outside wall |
| Grid.CarveKeepsSymmetric | main.c:331-355 | carving keeps neighbours in agreement about their shared wall, and opens the passage in both directions |
| Maze.InOrder | main.c:305-324 | the listed directions are exactly those whose flag is set, at most four, in TOP, RIGHT, BOTTOM, LEFT order |
| Maze.Candidates | main.c:305-324 | the listed directions are exactly those whose neighbour is in the grid and unvisited, at most four, in TOP, RIGHT, BOTTOM, LEFT order |
| Maze.GetRandom | main.c:57-59 | the random index is below the number of candidates |
| Maze.LinkedBothWays | main.c:331-355 | a tree edge is the same edge seen from either of its two cells |
| Maze.TreeSymmetric | main.c:331-355 | walls that follow a tree are consistent between neighbours |
| Maze.Begin | main.c:289-300 | after the reset, marking the centre cell and pushing it, the loop invariant holds |
| Maze.BeginCells | main.c:289-298 | after the reset only the centre cell is visited, and the closed walls form the one-cell tree at the centre |
| Maze.CentreCandidates | main.c:298-324 | in a grid of at least 3 by 3, right after the reset, all four directions are candidates from the centre, in TOP, RIGHT, BOTTOM, LEFT order |
| Maze.Reset | main.c:289-300 | the reset grid, the marked centre and the stack of `w*h` slots satisfy the loop invariant, and the first pass will choose among all four directions |
| Maze.Room | main.c:357-358 | when a fresh neighbour exists, the stack has a free slot for the push |
| Maze.CellsStep | main.c:331-355 | a carve keeps visited flags equal to the reached set, and keeps unreached cells fully walled |
| Maze.StackStep | main.c:357-358 | a push keeps the stack within the reached cells, and every reached cell off the stack has no fresh neighbour |
| Maze.TreeStep | main.c:331-358 | linking the fresh neighbour to the current cell extends the tree of reached cells |
| Maze.WallStep | main.c:331-355 | after a carve, a wall between two grid cells is down exactly on a tree edge |
| Maze.Push | main.c:328-360 | the carve-and-push branch keeps the whole loop invariant |
| Maze.Pop | main.c:361-363 | popping a cell with no fresh neighbour keeps the loop invariant |
| Maze.Spread | main.c:303-365 | if every reached cell has no fresh neighbour, reachability spreads to the whole grid |
| Maze.Finish | main.c:303-365 | with an empty stack, every cell is reached and the passages form a spanning tree |
| Maze.Step | main.c:303-363 | one pass of the loop keeps the invariant and either reaches a new cell or pops the stack; every tree edge is kept, and when there are candidates the edge towards the one `rand()` picks is added |
| Maze.LinkedGrows | main.c:303-363 | a tree edge stays one while the tree only grows |
| Maze.CentrePassage | main.c:303-365 | in the finished maze of a grid of at least 3 by 3, a tree edge at the centre is an opening |
| Maze.MakeMaze | main.c:287-366 | the loop terminates without overflowing the stack; the result has every cell visited, consistent walls, a closed outside and a spanning tree of passages, using `w*h - 1` calls of `rand()`; in a grid of at least 3 by 3 the centre is open towards the direction the first `rand()` value picks from TOP, RIGHT, BOTTOM, LEFT, so the maze depends on the random source |
| Perfect.PathConcat | main.c:287-366 | two paths of openings joined end to end form one path |
| Perfect.PathBack | main.c:287-366 | a path of openings walked backwards is a path the other way |
| Perfect.PathToRoot | main.c:287-366 | from every cell, following parent links reaches the centre cell through openings |
| Perfect.Connected | main.c:287-366 | in a generated maze any two cells, the start and goal included, are joined by a path of openings |
| Perfect.EdgeImage | main.c:331-355 | distinct parent links name distinct walls |
| Perfect.EdgesAreLinks | main.c:331-355 | every opened wall comes from a parent link |
| Perfect.LinksAreEdges | main.c:331-355 | every parent link is an opened wall |
| Perfect.SameEdge | main.c:331-355 | two cells whose links name the same wall are the same cell |
| Perfect.EdgeCount | main.c:287-366 | a generated maze has exactly `w*h - 1` opened walls, so it has no cycle |
| Motion.MovePlayerAsWritten | main.c:115-132 | with the bounds as written, the move reads outside the array exactly when the loose bound holds but the target is outside the grid; otherwise the target steps to the neighbour exactly when the loose bound holds, the target is in the grid and its wall that way is down, and else stays put; the sprite is untouched |
| Motion.MovePlayer | main.c:115-132 | the target stays in the grid; it steps to the neighbour exactly when there is an opening that way, and otherwise stays put |
| Motion.LooseBoundSafe | main.c:120-126 | when the outside walls stand, the bounds as written behave exactly like the corrected bounds |
| Motion.RightsOnOpenGrid | main.c:120-122 | on a grid with no walls, each RIGHT press moves the target one column, up to one column past the grid |
| Motion.StartScreenEscape | main.c:84-102 | on the start screen's zeroed grid, eleven RIGHT presses take the target out of the grid, and a further DOWN reads outside the array |
| Motion.StartScreenContained | main.c:120-122 | with the corrected bound, RIGHT at the last column leaves the target in place |
| Motion.PlayerMovement | main.c:138-160 | on each axis, the sprite moves one step towards the target's pixel, or snaps the current cell to the target when it is already there |
| Motion.LatticeGap | main.c:25 | the step divides the cell span, so on either axis every cell origin lies on the sprite's step lattice |
| Motion.Approach | main.c:138-160 | the sprite stays on the lattice and never overshoots: its distance to the target shrinks by one step on each axis not yet there |
| Motion.SettledIsFixpoint | main.c:138-160 | at rest, a movement changes nothing |
| Motion.SettledStays | main.c:138-160 | at rest, any number of frames changes nothing |
| Motion.Converges | main.c:138-160 | from any lattice position, the player comes to rest on its target within one frame more than the steps to cover |
| Motion.AdvanceAsWritten | main.c:480-482 | the loop's motion step keeps the target, and leaves the player exactly as it is when, and only when, the current cell equals the target |
| Motion.AdvanceAsWrittenStaysOnBoard | main.c:480-482 | the loop's motion step keeps both cells in the grid and the sprite on the board |
| Motion.AdvanceGuards | main.c:480-482 | the loop's guard `current != next` differs from "not at rest" exactly when the target is reached but the sprite is off its cell |
| Motion.TurnBackStrands | main.c:480-482 | as written throughout, RIGHT, one frame, then LEFT leaves the sprite one step off cell (0, 0), and the loop's motion step then never moves it |
| Motion.AdvanceConverges | main.c:138-160 | with the "not at rest" guard, the player always comes to rest, as pure movement would |
| Motion.AdvanceSettledStays | main.c:138-160 | at rest, the corrected frames change nothing |
| Motion.MoveStaysOnBoard | main.c:115-132 | the corrected move keeps both cells in the grid and the sprite on the board |
| Motion.AdvanceStaysOnBoard | main.c:138-160 | the corrected motion frame keeps both cells in the grid and the sprite on the board |
| Session.NextState | main.c:77-102 | quit ends the session from any state; S leads from the start screen into the game, R from the win screen into the game; nothing else changes the state |
| Session.DoneIsFinal | main.c:445 | once done, no events change the state |
| Session.StatesReached | main.c:77-102 | events alone keep the state or lead to the game or to done, never to the start or win screen |
| Session.GameEntered | main.c:97-102 | the game is entered only from the start or the win screen |
| Session.Initial | main.c:437-440 | the session starts on the start screen, with the zeroed grid and the player at cell (0, 0) |
| Session.KeyOf | main.c:84-94 | each direction has its arrow key, which `processEvents` turns back into that direction |
| Session.ProcessEvent | main.c:80-102 | an event leaves the grid alone and moves the state as NextState says; a fresh arrow press runs `movePlayer` as written in any state, and the event fails exactly when that call reads outside the array; other events leave the player alone |
| Session.ProcessEvents | main.c:65-110 | processing a frame's events keeps the grid, moves the state as the events say, and moves the player by the frame's fresh arrow presses as successive `movePlayer` calls; it fails exactly when one of those calls reads outside the array |
| Session.PlayEvents | main.c:80-96 | on a grid with its outside walls, no press reads outside the array and the player stays on the board |
| Session.StartMove | main.c:115-132 | on the start screen, a press as written keeps the sprite at cell (0, 0) and the target within one column and row past the grid |
| Session.StartEvents | main.c:80-96 | on the start screen, any events keep that shape until a press reads outside the array |
| Session.Presses | main.c:84-94 | the events for a sequence of directions are fresh arrow presses of those directions |
| Session.PressesMove | main.c:80-96 | arrow presses as events move the player exactly as successive `movePlayer` calls do, and leave the state alone |
| Session.StartScreenOverrun | main.c:80-132 | on the start screen, eleven RIGHT presses in one frame take the target to column 11 and stay on the start screen; a DOWN then reads outside the array |
| Session.Frame | main.c:445-510 | a frame, run while not done, keeps the session invariant, and only the start screen can fail; a frame whose events leave it on the start or win screen draws that screen and marks the timer restarted; a game frame right after such a frame generates a new maze, drawn from this frame's random source (the centre opens towards the direction its first value picks), with `w*h - 1` random draws, and resets the player, and no other frame draws; a game frame before any screen was drawn reads the unset timer; otherwise the grid is kept, the player moves by the loop's motion step, and the win screen follows exactly when the current cell is the goal; an R pressed in the frame right after the win is swallowed and the session stays on the win screen |
| Session.PlayFollowsSource | main.c:115-132 | during the game and on the win screen, the arrow keys as written behave exactly like the corrected move |

## Left out

- Rendering, textures, fonts and window handling (`drawSquare`, `drawGrid`, `drawTexture`, `drawText`, `gameStart`): they only draw and load resources.
- `printGrid` and the `printf` calls: debugging output only.
- `SDL_PollEvent`: each frame's events are a parameter. The `SDL_WINDOWEVENT_CLOSE` case compares an event type with a window-event code. It is left out; `Quit` covers the move to `'D'`.
- The float timer and its `timer < 0.1` guard on regeneration (main.c:468-476). The model replaces the clock by one flag: whether the previous frame drew the start or win screen, the frames that restart the timer. It assumes frames less than a tenth of a second apart, so a game frame right after such a frame regenerates. It does not model the further frames within that tenth of a second, each of which regenerates again and resets the player, nor a game frame more than a tenth of a second after the screen, which would not regenerate.
- `srand(time(NULL))`: the random source is the oracle parameter.
- Session.Frame: the display of the elapsed time is not modelled.
- Session.Frame: after a read outside the grid array, or of `timer_start` before any screen has set it (the game entered on the very first frame), the result is `None`; C leaves what follows undefined, so the model says nothing more.
- Maze.MakeMaze: the result is tied to the random source only through the first carve from the centre; which passages the later values of `rand()` open is not stated.
- Session.Frame: a new maze is tied to the frame's random source only as `Maze.MakeMaze` states, through its first carve.
- Maze.MakeMaze: C `int` overflow cannot occur at 11 by 11 and is not modelled; the grid size is unbounded.

## Findings

| source | as written | input that shows it | evidently intended | confidence | as-written member | corrected member |
|---|---|---|---|---|---|---|
| main.c:120-126 | `movePlayer` allows a step right while `next_i < GRID_WIDTH` and down while `next_j < GRID_HEIGHT`, so it relies on the outside walls. The arrow keys reach it in every state. On the start screen the grid is the zero-initialised array with no walls. | On the start screen, press RIGHT eleven times: `next_i` becomes 11. A further DOWN reads `grid[0][11]`, outside the row. | Bounds `next_i < GRID_WIDTH - 1` and `next_j < GRID_HEIGHT - 1`, which keep the target in the grid whatever the walls | high (not executed) | Session.StartScreenOverrun | Motion.MovePlayer |
| main.c:480-482 | The main loop calls `playerMovement` only while `current != next`. | Press RIGHT, let one frame pass, and press LEFT. The target is back at (0, 0), and so is the current cell, but the sprite is 14 pixels right of the cell. It stays there until the next key press. | Move the sprite until it is at rest on its target | high (not executed) | Motion.TurnBackStrands | Motion.AdvanceConverges |
