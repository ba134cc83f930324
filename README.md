# simple_snake: a Dafny model of the game-state simulation

This project models the game logic of `simple_snake`, a grid snake game written in Rust. The game draws with piston. The model has two modules, one for each source file of the simulation.

- `snake.dfy`, module `SnakeModel` (`src/snake.rs`). It holds `MovementDirection` and its opposite, and grid `Block`s. Class `Snake` has a `direction`, a `body: seq<Block>` held head first (index 0 is the head, as with the front of the `LinkedList`), and a `tail: Option<Block>` that keeps the block the last move dropped. `MoveForward` pushes the shifted head on the front and pops the back block into `tail`, in place. Pure functions on bodies (`Shifted`, `Advance`, `OverlapsBeforeTail`, `IsChain`) specify the methods, and lemmas state their properties.
- `game.dfy`, module `GameModel` (`src/game.rs`). Class `Game` owns a `Snake` object, the food flag and coordinates, the window bounds, `isGameOver` and the `waitingTime` accumulator. Each method is proved against a function on `GameState`, a value that snapshots every field: `View() == StepSnake(old(View()), dir)` for `update_snake`, `Updated` for `update`, `KeyPressedState` for `key_pressed`, `FoodAdded` for `add_food`, `Restarted` for `restart` and `NewGame` for `Game::new`.

The game's state invariant is `Invariant`. It says four things. The body has at least three blocks and is a connected path of grid neighbours. The block behind the head lies opposite the heading. Food that exists is not under the body, except possibly under the last block. On a board wide and tall enough for the starting snake (width > 4, height > 2), every block is strictly inside the walls. `Game::new`, `restart`, `add_food`, every step, every tick and every key press preserve it. The constructor and `Restart` establish `Valid()`, which includes it, and `KeyPressed`, `Update`, `UpdateSnake` and `AddFood` keep it. `CheckEating` is the exception: it runs inside a step, between the move and the meal, where the food clause may not hold, so it requires and keeps only a non-empty body. `CheckIfSnakeAlive` changes nothing and needs only a non-empty body. One consequence is `ReversalIsFatal`: stepping against the heading always runs into the block behind the head. That is exactly the move `key_pressed` refuses.

`src/game.rs` calls four `Snake` methods whose definitions are not part of `src/snake.rs`. The model defines them as follows:
- `head_direction` returns the `direction` field (`Snake.HeadDirection`).
- `next_head_position(dir)` is the step of `move_forward` without the mutation (`Snake.NextHeadPosition`). `MoveForward` proves that its new head is that block.
- `restore_tail` appends the saved `tail` block to the back, and needs a saved block (`Snake.RestoreTail`).
- `overlap_tail(x, y)` scans every block except the last and reports whether one of them is at `(x, y)` (`Snake.OverlapTail`).

Behaviour of the code that a reader may not expect, which the model keeps:
- The step check (`src/game.rs:115-116`) accepts a head with `0 < x < width` and `0 < y < height`. `Game::draw` paints the border on column `width - 1` and row `height - 1`, but the head may still enter them. Only `x = 0`, `x = width`, `y = 0` and `y = height` are fatal (`FarBorderIsEnterable`).
- A key that is not an arrow maps to the current heading. It therefore always takes a step at once, the same step a tick would take (`OtherKeyTakesStep`). The model keeps this behaviour.
- `add_food` resamples only while the draw is on a block other than the last. The food can therefore land on the snake's last block. The model's invariant allows exactly this. If the head then steps onto that block and eats, the block put back lands on the head's own cell, so the body holds the same block twice (`EatingOnLastBlockDoublesHead`).
- `check_eating` compares the head with the food coordinates whether or not the food flag is set. The model does the same.

## Model

| member | source | states |
|---|---|---|
| SnakeModel.OppositeDirection | src/snake.rs:19-26 | the opposite heading is never the heading itself and lies on the same axis |
| SnakeModel.OppositeIsInvolution | src/snake.rs:19-26 | the opposite of the opposite is the heading itself; no heading is its own opposite |
| SnakeModel.Shifted | src/snake.rs:73-78 | the new head block is a grid neighbour of the old head; x stays the same exactly for Up and Down |
| SnakeModel.ShiftedBackIsOpposite | src/snake.rs:73-78 | a step followed by a step the opposite way comes back; the four headings lead to four different blocks |
| SnakeModel.StartBodyIsChain | src/snake.rs:41-51 | the starting body is connected, and its second block lies opposite the starting heading Right |
| SnakeModel.Advance | src/snake.rs:80-82 | a step keeps the length; the stepped body with the dropped block put back is the new head followed by the whole old body |
| SnakeModel.AdvanceKeepsChain | src/snake.rs:71-82 | a step keeps the body connected, and the dropped block borders the new back block |
| SnakeModel.AppendKeepsChain | src/game.rs:104 | putting back a block that borders the back keeps the body connected |
| SnakeModel.OverlapIgnoresLastBlock | src/game.rs:111 | the overlap check never looks at the last block: with any block at the back, the answer is membership in the blocks before it |
| SnakeModel.Snake.constructor | src/snake.rs:41-51 | body is (x+2,y), (x+1,y), (x,y) front first, so the head is (x+2,y); heading Right; no saved block |
| SnakeModel.Snake.HeadPosition | src/snake.rs:60-63 | returns the coordinates of the front block, which exists because the body is never empty |
| SnakeModel.Snake.HeadDirection | src/game.rs:52 | returns the current heading, the one a move without an override keeps: the look-ahead without an override equals the look-ahead with this heading as override |
| SnakeModel.Snake.NextHeadPosition | src/game.rs:109 | the look-ahead head is a neighbour of the head on the axis of the heading in use (override or current) |
| SnakeModel.Snake.MoveForward | src/snake.rs:65-83 | no override keeps the heading and an override replaces it; the new head is the look-ahead block; the body is the new head plus the old body minus its last block, same length; tail holds the old last block |
| SnakeModel.Snake.RestoreTail | src/game.rs:104 | the saved block is appended to the back; heading and saved block unchanged |
| SnakeModel.Snake.OverlapTail | src/game.rs:111 | true exactly when (x, y) is one of the body's blocks other than the last |
| GameModel.FirstFree | src/game.rs:122-128 | the resampling loop ends on a draw that is off the body (last block aside), and every earlier draw was on it |
| GameModel.FirstFreeSkipsTakenDraw | src/game.rs:125-128 | a draw on the body is passed over and the search goes on with the next draw |
| GameModel.FoodAdded | src/game.rs:119-133 | after add_food the flag is set and the food lies in [1, width-1) x [1, height-1), off the body (last block aside); the snake is untouched |
| GameModel.FoodAddedKeepsInvariant | src/game.rs:119-133 | placing food preserves the game invariant |
| GameModel.NewGameInvariant | src/game.rs:29-40 | a new game satisfies the invariant and its head is at (4, 2) |
| GameModel.RestartedInvariant | src/game.rs:145-152 | a restarted game satisfies the invariant and keeps the window bounds |
| GameModel.ReversalIsFatal | src/game.rs:56-58 | in every reachable state, a step against the heading fails the step check |
| GameModel.FatalStepLeavesSnake | src/game.rs:135-143 | a fatal step sets game over and clears the timer, and leaves the body, heading, saved block and food as they were |
| GameModel.SafeStepMovesSnake | src/game.rs:135-143 | a safe step moves the head to the look-ahead block with the new heading; onto the food it clears the flag and the body grows by exactly one (new head plus whole old body); elsewhere food and length are unchanged; the timer is cleared |
| GameModel.StepKeepsShape | src/snake.rs:71-82 | a step, and a step followed by putting the dropped block back, keep the body connected with its second block opposite the heading |
| GameModel.StepStaysInside | src/game.rs:108-117 | a step onto a block inside the walls keeps every block inside, with or without growth |
| GameModel.StepKeepsFoodClear | src/game.rs:135-143 | food that is off the body and not under the new head stays off the body after the step |
| GameModel.StepKeepsInvariant | src/game.rs:135-143 | update_snake preserves the game invariant |
| GameModel.UpdateWhileGameOver | src/game.rs:81-89 | while game over a tick only accumulates time; once the time exceeds RestartTime the game restarts with the (2,2) snake heading Right and food present at (5,5), running, timer 0 |
| GameModel.UpdateWhileRunning | src/game.rs:91-97 | while running a tick steps exactly when the accumulated time exceeds MovingPeriod, after placing missing food; otherwise the snake stays put and food is present |
| GameModel.UpdateKeepsInvariant | src/game.rs:81-98 | update preserves the game invariant |
| GameModel.GameOverIgnoresKeys | src/game.rs:43-45 | a key pressed while game over changes nothing |
| GameModel.KeyDirection | src/game.rs:47-53 | an arrow asks for its own heading (Up and Down vertical, Left and Right horizontal); any other key asks for the current heading |
| GameModel.ArrowHeadingsAreFixed | src/game.rs:47-51 | an arrow's heading does not depend on the current heading, and different arrows ask for different headings |
| GameModel.ReversedKeyIgnored | src/game.rs:56-58 | the arrow opposite the heading changes nothing |
| GameModel.ArrowKeyTakesStep | src/game.rs:47-60 | while running, a key whose heading is not opposite the current one takes one step with that heading |
| GameModel.OtherKeyTakesStep | src/game.rs:52-60 | a non-arrow key while running is never refused and takes the same step as a tick |
| GameModel.KeyPressedKeepsInvariant | src/game.rs:42-62 | key_pressed preserves the game invariant |
| GameModel.FarBorderIsEnterable | src/game.rs:115-116 | on the 30 x 30 board a head at (28,5) heading Right survives the step onto (29,5), the painted border column |
| GameModel.EatingOnLastBlockDoublesHead | src/game.rs:100-106 | on the 30 x 30 board, food on the last block of a snake in a reachable state is eaten by a right turn, and the grown body starts and ends with the same block (5,4) |
| GameModel.Game.constructor | src/game.rs:29-40 | a new game: the (2,2) snake, food present at (6,4), running, timer 0, the given bounds; invariant holds |
| GameModel.Game.KeyPressed | src/game.rs:42-62 | the new state is KeyPressedState of the old one: ignored when over or reversing, otherwise one step with the key's heading; invariant kept |
| GameModel.Game.Update | src/game.rs:81-98 | the new state is Updated of the old one, which accumulates time, restarts, places food and steps as above; invariant kept |
| GameModel.Game.CheckEating | src/game.rs:100-106 | a head on the food coordinates clears the flag and appends the saved block; otherwise nothing changes |
| GameModel.Game.CheckIfSnakeAlive | src/game.rs:108-117 | true exactly when the next head is off the body (last block aside) and 0 < x < width and 0 < y < height |
| GameModel.Game.AddFood | src/game.rs:119-133 | takes the draws in order until one is off the body and puts present food there; invariant kept |
| GameModel.Game.UpdateSnake | src/game.rs:135-143 | the new state is StepSnake of the old one: game over on a fatal step, otherwise move and eat; timer reset; invariant kept |
| GameModel.Game.Restart | src/game.rs:145-152 | a fresh (2,2) snake, food present at (5,5), running, timer 0; invariant holds |

## Left out

- `Game::draw`, `Snake::draw` and all of `src/draw.rs`: rendering through piston, with floating-point pixel scaling and colour constants.
- `src/main.rs`: window creation and the event loop. The model exposes `KeyPressed` and `Update` as the two entry points that loop calls.
- The random generator in `add_food`. The caller passes the generator's successive draws as a sequence of blocks. The precondition `DrawsFit` requires every draw to be in the `gen_range` range and at least one draw to be off the body. That is what makes the resampling loop stop. On a packed board the source loops forever, and the model does not cover that case.
- Floating-point time. `waiting_time`, `MOVING_PERIOD` and `RESTART_TIME` are exact `real` values, so `f64` rounding in the accumulation is not modelled. Only the threshold comparisons remain.
- 32-bit coordinates. Coordinates are unbounded integers. `i32` overflow cannot happen on a board large enough for the starting snake, because the invariant keeps every block inside the walls.
- piston's `Key` enumeration. It is reduced to the four arrows and `OtherKey(code)`, which stands for every other key.
- The `LinkedList` body. It is a `seq<Block>` that the methods reassign. Node-level aliasing is not modelled.
- `Snake.HeadDirection` and `Snake.RestoreTail`: these follow the assumed definitions listed above, since the source file does not define them. `RestoreTail` requires a saved block, just as unwrapping an empty `Option` would panic.
