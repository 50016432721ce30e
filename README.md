# Snake engine in Dafny

A model of the game engine of `snake.js`, a browser snake game on a 20 x 20
board, with proofs about it.

The engine keeps seven module-level variables: `snake, dir, nextDir, food,
score, state, intervalId`. Here they are the fields of one class,
`Engine.Game`. The interval timer becomes the flag `loopActive`. The engine
functions `init`, `step`, `gameOver`, `startLoop`, `stopLoop` and `steer`
become methods that update those fields, and each method's postcondition
gives the whole new state in terms of the old one. `spawnFood` becomes a
module-level method that returns a cell, which `Init` and `Step` assign to
`food`. The input
layer is pure and becomes functions in `Controls`: the arrow-key table, the
keydown dispatch, the d-pad table, the swipe classifier and the tap test.

Modules:

- `Geometry` (`geometry.dfy`): cells, the four directions, the bounds test,
  and what "well formed" means for a body: at least three segments, no cell
  twice, all on the board, each segment one step from the next. It also has
  the two body updates of a tick (move and grow) with proofs that both keep
  the shape, and a count of the board's cells. That count shows a free cell
  exists exactly while the body is shorter than 400.
- `Engine` (`engine.dfy`): the `Game` class and the food placement loop.
  `Consistent` is the engine invariant, stated on values. It covers the
  body's shape, `score == |snake| - 3`, food on a free board cell,
  `nextDir` never the reverse of `dir`, the head one step along `dir` from
  the next segment (until the game is over), and the timer running exactly
  while the state is `Running`. `Game.Valid()` is that invariant on the
  fields. The constructor establishes it, and `Step`, `Steer` and `Restart`
  keep it. `Init` establishes it when the timer is stopped. `StartLoop`,
  `StopLoop` and `GameOver` are steps inside those methods and promise
  nothing about the invariant on their own.
- `Controls` (`controls.dfy`): the input decisions.
- `Scenarios` (`scenarios.dfy`): worked runs through the methods' contracts
  on fixed inputs. Examples are the wall hit after nine ticks, the restart
  that follows, eating, and the bite on the tail cell.

`Math.random` is replaced by a parameter. The food placement loop reads its
candidate cells from a sequence `draws`. `SpawnFood` returns the first draw
that is off the body. Its precondition is that the draws are board cells and
one of them is free. Without a free draw the loop in `snake.js` would never
end.

## Model

| member | source | states |
|---|---|---|
| Geometry.ReversesIsNegation | snake.js:121 | `Reverses(a, b)` holds exactly when each component of `b`'s vector is the negation of `a`'s (the test `steer` makes); it is symmetric and every direction has exactly one reverse |
| Geometry.InBounds | snake.js:55 | the bounds test of `step`: both coordinates lie in `0 .. GRID - 1`; `Geometry.BoardSize` shows these are exactly the board's `GRID * GRID` cells |
| Geometry.Moved | snake.js:58-64 | moving keeps the length of the body and puts the new head first |
| Geometry.MovedShifts | snake.js:58-64 | after a move every segment behind the head is the one that was in front of it; the cells are the new head and the old body without its tail |
| Geometry.Grown | snake.js:58-62 | growing adds exactly one segment, the new head, at the front |
| Geometry.GrownShifts | snake.js:58-62 | after growing every old segment is kept, in order, one place back; the cells are the new head and the old body |
| Geometry.StepBack | snake.js:53 | the old head is one step from the new head |
| Geometry.MoveKeepsShape | snake.js:52-64 | if the new head is a free board cell next to the old head, the moved body is still well formed: no repeated cell, all in bounds, consecutive segments one step apart, length at least 3 |
| Geometry.GrowKeepsShape | snake.js:52-62 | the same for the grown body |
| Geometry.MovedCells | snake.js:58-64 | a cell off the old body and not the new head is off the moved body, so uneaten food stays free |
| Geometry.BoardSize | snake.js:2 | the board has exactly `GRID * GRID` cells, and they are exactly the in-bounds cells |
| Geometry.DistinctCells | snake.js:56 | a body with no repeated cell occupies exactly as many cells as it has segments |
| Geometry.FreeCellIffShort | snake.js:45-47 | for a body of distinct on-board cells, a free board cell exists exactly when the body is shorter than `GRID * GRID` |
| Controls.KeyDirection | snake.js:145-146 | the arrow-key table gives a direction exactly for the four arrow keys |
| Controls.PadDirection | snake.js:152 | the d-pad table gives a direction exactly for the four button names |
| Controls.TablesAgreeWithSwipe | snake.js:145-179 | the arrow key, the d-pad button and a swipe of the threshold length in the same direction all give that direction: `ArrowUp`, `up` and a swipe of (0, -24) give `Up`, whose vector is (0, -1), and likewise for down, left and right |
| Controls.TablesCoverDirections | snake.js:145-152 | each direction comes from exactly one arrow key and exactly one d-pad button |
| Controls.KeyCommand | snake.js:137-149 | `OpenGame` exactly for `s`/`S` with the overlay closed, and with the overlay closed nothing else does anything; with the overlay open, `Escape` closes it; `r`/`R` restarts exactly when the game is over; an arrow key steers in the table's direction; every other key is ignored |
| Controls.Swipe | snake.js:172-180 | no direction exactly when both displacements are under 24; when `Abs(dx) > Abs(dy)` the direction is horizontal and right exactly when `dx > 0`; otherwise, ties included, it is vertical and down exactly when `dy > 0` |
| Controls.SwipeFollowsFinger | snake.js:176-180 | the chosen direction has the largest component along the finger's movement of the four, and that component is the larger of `Abs(dx)` and `Abs(dy)` |
| Controls.SwipeCoversDirections | snake.js:174-180 | every direction is produced by some swipe |
| Controls.TapRestarts | snake.js:186-190 | a release restarts exactly when a touch origin exists, the release is under the threshold from it on both axes, and the game is over |
| Engine.SpawnFood | snake.js:43-49 | the placement loop returns a board cell off the body, and it is the first draw off the body: every earlier draw was on it |
| Engine.Classify | snake.js:53-59 | the case split of one tick, in `step`'s order: `Wall` exactly when the new head is off the board; `Bite` exactly when it is on the board and equal to some segment of the body before it moves, the tail included; `Eat` exactly when it is the food and a free board cell; a `Move` or `Eat` head is always an on-board cell off the body |
| Engine.InitialShape | snake.js:31 | the starting body `[(10,10), (9,10), (8,10)]` is well formed |
| Engine.HitKeepsInvariant | snake.js:52-56 | a tick that hits the wall or the body keeps the invariant once the direction is committed, the state is `Over` and the timer is stopped |
| Engine.MoveKeepsInvariant | snake.js:52-64 | a tick onto a free cell without food keeps the invariant, food and score included |
| Engine.GrowKeepsInvariant | snake.js:52-62 | a tick onto the food keeps the invariant when the score goes up by one and the new food is a board cell off the grown body |
| Engine.RoomToEat | snake.js:58-62 | when the tick eats, a free cell for the new food exists exactly when the grown body is shorter than `GRID * GRID` |
| Engine.Game.constructor | snake.js:29-41 | opening the game gives the state `init` sets up, with no timer running; the invariant holds |
| Engine.Game.Init | snake.js:29-41 | the body is `[(10,10), (9,10), (8,10)]`, `dir` and `nextDir` are right, the score is 0, the state is `Idle`, the food is the first free draw; the timer is untouched, and the invariant holds when it is stopped |
| Engine.Game.StartLoop | snake.js:110-113 | the timer is running afterwards; nothing else changes |
| Engine.Game.StopLoop | snake.js:115-118 | the timer is stopped afterwards, whatever it was before (so stopping twice is the same as once); nothing else changes |
| Engine.Game.GameOver | snake.js:69-74 | the state is `Over` and the timer stopped; nothing else changes |
| Engine.Game.Step | snake.js:51-67 | keeps the invariant; `dir` becomes the old `nextDir`; a head off the board or on any current segment (the tail cell included) ends the game and stops the timer with body, food and score unchanged; a head on the food grows the body by one, adds 1 to the score and places new food at the first draw off the grown body; any other head moves the body, with food and score unchanged |
| Engine.Game.Steer | snake.js:120-134 | keeps the invariant; a direction reversing the committed `dir` changes nothing, not even a finished game; otherwise from `Idle` it sets `nextDir`, starts running and arms the timer; while `Running` it only sets `nextDir`; from `Over` it stops the timer and performs `init` |
| Engine.Game.Restart | snake.js:143 | the `r`/`R` and tap restart: the timer is stopped and the state is the one `init` sets up, with the invariant |
| Scenarios.RowMove | snake.js:52-64 | on row 10, moving right is a plain move and shifts the three-segment body one column right |
| Scenarios.StartRight | snake.js:120-129 | steering right in a fresh game starts it running with its timer armed and the body unchanged |
| Scenarios.TickRight | snake.js:51-67 | a tick to the right with the head before the last column shifts the body one cell right, score unchanged |
| Scenarios.WallHit | snake.js:55 | from the start, nine ticks bring the head to (19, 10); the tenth leaves the board, so the game is over with the body `[(19,10), (18,10), (17,10)]`, score 0 and the timer stopped |
| Scenarios.SteerRestarts | snake.js:130-133 | a non-reversing direction on a finished game gives the state `init` sets up, with the timer stopped |
| Scenarios.RestartAfterWall | snake.js:120-133 | after the wall hit, steering left (back against `dir`) leaves the game over; steering up then restarts it |
| Scenarios.EatAndGrow | snake.js:58-62 | with food at (11, 10) the first tick eats and grows the body to `[(11,10), (10,10), (9,10), (8,10)]`; of the draws (10,10) and (5,5) the new food is (5,5) and nothing else |
| Scenarios.TailCellBites | snake.js:56-64 | for a body curled into a square, moving onto the tail cell ends the game, though the tail would have moved away |
| Scenarios.ReverseIgnored | snake.js:121-123 | steering left as the first input of an idle game leaves it idle, with `nextDir` right and no timer |

## Left out

- Rendering is left out: `draw`, `initCanvas`, `CELL`, `COLORS` and the canvas calls. It is canvas output with floating-point geometry.
- On-screen text is left out: the `scoreEl` and `hintEl` updates, the `matchMedia` choice of hint and the overlay CSS class. These are DOM output.
- Opening and closing the overlay (`openGame`, `closeGame`) are not performed. `Controls.KeyCommand` returns `OpenGame` or `CloseGame` for them. The constructor models the `init` that opening runs, with no timer. `closeGame` stops the timer but leaves `state` as it is. Closing during play would therefore break the invariant's clause that the timer runs exactly while the state is `Running`. The model has no operation for it.
- Registering listeners and the click handlers of the overlay and buttons are left out. They are browser wiring.
- Controls: the handlers' glue is not modelled. That glue calls `Game.Steer` or `Game.Restart` on a decision, tracks `touchOrigin` and resets it mid-swipe and on release. Only the decisions are modelled.
- The 130 ms period of the interval and wall-clock time are left out. The timer is the boolean `loopActive`.
- `Math.random` is a sequence of candidate cells. Uniform placement, and the loop ending with probability 1, are not modelled.
- Engine.Game.Step: requires a free draw when the tick eats. `Engine.RoomToEat` shows such a cell exists only while the grown body is shorter than 400. Eating the last free cell makes the loop in `spawnFood` run forever, and the model does not include that run.
- Engine.Game.Init: leaves `loopActive` as it finds it, as `init` does. The invariant is promised only when the timer is stopped, which is true on every path that calls it.
- Directions are the datatype `Dir`, the four vectors the input tables produce. `steer` on any other value is not modelled. That includes the `undefined` that `dirMap` gives for an unknown button name: `Controls.PadDirection` returns `None` there, and the caller does nothing.
- Controls.KeyDirection: inherited object properties are not modelled. JavaScript's `map[e.key]` looks them up too, for names such as `constructor`, but no key produces those names.
- Raw events are left out: `preventDefault`, `closest('[data-dir]')`, and `clientX`/`clientY` as floating point. Swipe and tap take integer displacements.
