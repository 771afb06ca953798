# Maze demo: collision rule and player movement

A Dafny model of the logic of a single-file grid maze demo. The player
moves over a fixed 6×15 grid of cells (1 = wall, 0 = path), each 180 pixels
square. An arrow key proposes a position one cell away. The move is taken
only when the collision check reports that position passable. A quit event
clears the `running` flag. The game loop drains every polled event of a frame,
and stops looping after the frame in which `running` became false.

Files and modules:

- `maze.dfy`, module `Maze`: the grid literal, C++ truncating division
  (`CellIndex`), the collision check `IsWall` and the fail-closed cell
  lookup `CellIsWall` it is proved against.
- `movement.dfy`, module `Movement`: events, positions and the state, and the
  specification of the event handling as functions. `Candidate` gives the
  proposed position, `Step` handles one event, `Run` a polled batch, and
  `PlayFrames` the outer loop over frames. It also holds the lemmas about them.
- `game.dfy`, module `GameLoop`: class `Game` with the mutable fields
  `pointX`, `pointY` and `running`. Its methods `HandleEvent`, `PollEvents`
  (the inner `while (SDL_PollEvent …)` loop) and `Play` (the outer
  `while (running)` loop) are each proved equal to the matching function of
  `Movement`. They also keep the invariant `Valid()`: the player stands on a path cell.

Modelling choices:

- C++ `/` truncates toward zero; `CellIndex` writes that out. A pixel
  between −179 and −1 therefore falls in cell 0, not cell −1
  (`NegativeSliverJoinsFirstCell`).
- SDL events become the datatype `Event`. Event kinds other than quit and
  key-down become `OtherEvent`, and key codes other than the four arrows
  become `OtherKey(code)`. Both are ignored, as in the source.
- Polled input is a parameter. A batch is a `seq<Event>`, and the batches of
  successive frames are a `seq<seq<Event>>`.
- Coordinates are unbounded integers. `CandidateFitsInt32` shows that from
  any position the game can reach, the candidate stays inside 32-bit `int`.
  So C++ overflow never arises.
- The key handler steps by the literal 180, as the source does.
  `Candidate`'s contract states the step in terms of the cell size.

## Model

| member | source | states |
|---|---|---|
| `Maze.GridShape` | main.cpp:12-19 | the maze has 6 rows, every row has 15 columns, and every cell holds 0 or 1 |
| `Maze.BorderIsWall` | main.cpp:12-19 | the first and last rows and the first and last columns are walls, so the maze is closed |
| `Maze.CellIndex` | main.cpp:23-24 | the cell index of a pixel is the C++ truncating quotient by 180: for non-negative pixels index·180 ≤ pixel < index·180 + 180, and for negative pixels index·180 − 180 < pixel ≤ index·180 ≤ 0 |
| `Maze.CellIndexOfMultiple` | main.cpp:23-24 | the pixel origin n·180 of any cell maps back to exactly n, negative n included |
| `Maze.CellIsWall` | main.cpp:27-30 | the fail-closed cell lookup (out of range is a wall, otherwise the stored value is 1); it has no contract of its own and is the reference that `IsWallAtCellOrigin` and `SameCellSameAnswer` prove `IsWall` against |
| `Maze.IsWall` | main.cpp:21-31 | the collision check; it has no contract of its own and is specified by `IsWallAtCellOrigin`, `SameCellSameAnswer`, `OutsideGridIsWall` and `NegativeSliverJoinsFirstCell` |
| `Maze.IsWallAtCellOrigin` | main.cpp:21-31 | at the origin of any cell, in the grid or not, `isWall` is true exactly when the cell is out of range or stores 1 |
| `Maze.SameCellSameAnswer` | main.cpp:23-30 | every non-negative pixel in the 180×180 square of a cell gets the same answer as that cell |
| `Maze.OutsideGridIsWall` | main.cpp:26-29 | a pixel whose row is outside [0, 6) or whose column is outside [0, 15) is reported as a wall |
| `Maze.NegativeSliverJoinsFirstCell` | main.cpp:23-24 | a coordinate strictly between −180 and 0 is judged like coordinate 0, on either axis, because the division truncates toward zero |
| `Movement.Opposite` | main.cpp:91-103 | the opposite of an arrow key is another arrow key, different from it |
| `Movement.Candidate` | main.cpp:89-104 | an arrow key's candidate lies exactly 180 pixels away along exactly one axis, in the key's direction; any other key's candidate is the current position |
| `Movement.Step` | main.cpp:86-110 | handling of one polled event; it has no contract of its own and is specified by `KeyDownCommitsOnlyPassable`, `QuitOnlyStops`, `OtherEventIgnored`, `OnlyPassableKeyDownMoves`, `StepPreservesOnPath` and `MoveThenOppositeRestores` |
| `Movement.Run` | main.cpp:85-111 | the drain of one polled batch in order; it has no contract of its own and is specified by `RunAppend`, `RunPosIgnoresRunning`, `RunningAfterBatch`, `QuitThenRest`, `RunPreservesOnPath` and `PressingIntoWallNeverMoves` |
| `Movement.PlayFrames` | main.cpp:82-111 | the outer `while (running)` loop over frames; it has no contract of its own and is specified by `PlayFramesPreservesOnPath`, `QuitEndsGameLoop`, `PlayFramesWithoutQuit`, `PlayFramesSnoc` and `ReachableIsOnPath` |
| `Movement.OppositeUndoes` | main.cpp:91-103 | the opposite arrow's candidate, taken from an arrow's candidate, is the original position |
| `Movement.PassableAlignedIsOnPath` | main.cpp:21-31 | a position on a multiple of 180 is passable exactly when it is a non-negative, in-bounds path cell |
| `Movement.CandidateFitsInt32` | main.cpp:89-103 | from a path cell, every candidate coordinate fits a 32-bit signed `int` |
| `Movement.KeyDownCommitsOnlyPassable` | main.cpp:106-109 | the commit rule in both directions: a key press keeps `running`; a passable candidate is always taken; the player moves only onto a passable position; a wall candidate changes nothing |
| `Movement.StepPreservesOnPath` | main.cpp:86-110 | any event handled from a path cell leaves the player on a path cell |
| `Movement.MoveThenOppositeRestores` | main.cpp:91-109 | when an arrow move from a passable position succeeds, the opposite arrow right after it restores the whole prior state |
| `Movement.QuitOnlyStops` | main.cpp:86-87 | a quit event clears `running` and leaves the position unchanged |
| `Movement.OtherEventIgnored` | main.cpp:86-110 | an event that is neither SDL_QUIT nor SDL_KEYDOWN leaves the whole state unchanged |
| `Movement.OnlyPassableKeyDownMoves` | main.cpp:86-110 | for every event, the position changes only for a key press, only to its candidate, and only when that candidate is passable |
| `Movement.RunAppend` | main.cpp:85-111 | draining two batches in turn is draining their concatenation |
| `Movement.RunPosIgnoresRunning` | main.cpp:85-111 | the `running` flag has no influence on where a batch takes the player |
| `Movement.RunningAfterBatch` | main.cpp:85-88 | after a batch the game still runs exactly when it ran before and the batch contained no quit event (both directions) |
| `Movement.QuitThenRest` | main.cpp:85-88 | events after a quit in the same batch are still processed, to the same position as without the quit, and `running` ends false |
| `Movement.RunPreservesOnPath` | main.cpp:85-111 | a batch drained from a path cell ends on a path cell |
| `Movement.PressingIntoWallNeverMoves` | main.cpp:106-109 | pressing a key whose candidate is a wall any number of times leaves the state unchanged |
| `Movement.PlayFramesPreservesOnPath` | main.cpp:82-111 | any number of frames played from a path cell end on a path cell |
| `Movement.QuitEndsGameLoop` | main.cpp:82-88 | once a frame's batch contains a quit event, the loop ends after that frame and later frames are never processed |
| `Movement.PlayFramesWithoutQuit` | main.cpp:82-111 | while no batch contains a quit event, the frames act like one concatenated batch |
| `Movement.StartOnPath` | main.cpp:79-81 | the start position (180, 180) is cell (1, 1), and that cell is a path cell |
| `Movement.ReachableIsOnPath` | main.cpp:79-111 | after any sequence of frames from the start, the player stands on a non-negative multiple of 180 that is an in-bounds path cell |
| `Movement.RightThenRightScenario` | main.cpp:95-109 | from the start, RIGHT reaches (360, 180); (540, 180) is a wall, so a second RIGHT leaves the player at (360, 180) |
| `GameLoop.Game.constructor` | main.cpp:79-81 | the loop starts running at the start position, on a path cell |
| `GameLoop.Game.HandleEvent` | main.cpp:86-110 | handling one event in place gives the state `Step` specifies and keeps the player on a path cell |
| `GameLoop.Game.PollEvents` | main.cpp:85-111 | draining a batch in place gives the state `Run` specifies, quit events included, and keeps the invariant |
| `GameLoop.Game.Play` | main.cpp:82-111 | the outer loop leaves the state `PlayFrames` specifies and keeps the invariant; the returned count is the number of frames drained: each frame before it left the game running, and fewer than all frames are drained only when `running` ended false |
| `GameLoop.RightThenRight` | main.cpp:95-109 | a client of `Game`: from a new game, RIGHT reaches (360, 180), and a second RIGHT leaves the player there; it has no contract and is proved from the class contracts and `RightThenRightScenario` |
| `GameLoop.PlayFramesSnoc` | main.cpp:82-111 | one more frame played after frames that leave the game running drains that frame's batch |

## Left out

- SDL and SDL_image initialisation, window and renderer creation and
  teardown, and the process exit codes (main.cpp:47-74, 143-149): calls
  into a foreign library and process plumbing.
- `loadTexture` (main.cpp:34-44): image decoding and texture creation are
  done by the library. A failed load does not affect movement.
- The render pass (main.cpp:113-138): clearing, choosing a colour per cell, filling
  rectangles, drawing the sprite and presenting. It only affects the screen.
- `SDL_PollEvent` and `SDL_Delay(16)` (main.cpp:85, 140): the event queue and the
  frame timing. Polled events are an input sequence, one batch per frame.
- `WINDOW_WIDTH`, `WINDOW_HEIGHT` and `POINT_SIZE` (main.cpp:6-8): they
  affect only the display.
- The outer loop can run forever without any quit event. The model plays a
  finite list of frames, so it describes every finite prefix of such a run.
