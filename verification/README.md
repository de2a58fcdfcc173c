# Snake game state core, in Dafny

This project models the game-state core of a browser snake game (`script.js`).
The state is an immutable record. It holds the snake as a sequence of cells
with the head first, the food cell, the direction `(dx, dy)`, the score, the
best score, the tick interval `speed` in milliseconds and the running flag.

The operations are pure functions over that record:

- `resetGame` and the starting snake;
- `moveSnake`: a tick with toroidal wrap, self-collision against the
  pre-move body, growth or tail drop, food re-placement and scoring;
- `bestScoreGame` and `increaseSpeed`;
- the pad and keyboard direction handlers;
- `startGame`, `pauseGame` and the `gameLoop` running guard.

The random food placement becomes a choice. `choice` picks one square from an
explicit row-major list of the free squares, and `SnakeGame.PlaceFoodCovers`
shows that every free square can be picked this way.

Modules:

- `Grid`: cells, board, JavaScript's truncating `%`, the coordinate wrap, the
  free-square enumeration and a pigeonhole lemma.
- `SnakeGame`: the state, reset, food, best score, speed and the tick.
- `Controls`: direction input and the run flag.
- `Session`: the invariant `Wf` and its preservation over any sequence of
  events.
- `Scenarios`: concrete ticks on a 20 by 20 board.

Behaviour of the code worth knowing, which the model keeps:

- The direction guard compares against the direction held at the moment of
  the input. It does not compare against the direction the last tick used, and
  there is no pending-direction slot. So two inputs between ticks can reverse
  the snake: moving right, Up then Left leaves it heading left
  (`Controls.TwoTurnsReverse`). The next tick then runs into the neck and ends
  the game (`Scenarios.NeckReversalScenario`). The model follows the code.
- The tail's square counts as occupied in the collision check, although the
  tail would leave it on that tick (`Scenarios.TailCollisionScenario`).
- The run state is a boolean plus the pause button's caption. The code has no
  three-valued Stopped/Running/Paused state, and no configuration error: the
  board size comes from the canvas. The model requires at least 4 columns and
  1 row, because the starting snake reaches two columns left of the middle.

## Model

| member | source | states |
|---|---|---|
| `Grid.JsRem` | script.js:109-110 | JavaScript's remainder: `a == abs(n)*q + r` for some integer `q`, with `r` smaller in magnitude than the divisor and signed like the dividend, which fixes `r` uniquely; it agrees with Euclidean `%` for non-negative dividends |
| `Grid.Wrap` | script.js:108-110 | the wrapped coordinate lies in `[0, n)` whenever the raw value is at least `-n`; it is unchanged inside the axis, `n` maps to 0 and `-1` maps to `n - 1` |
| `Grid.FreeCells` | script.js:63-72 | a cell is listed exactly when it is on the board and not on the snake |
| `Grid.FreeCellExists` | script.js:65-71 | a snake shorter than `cols*rows` leaves some square free, so the resampling loop can end |
| `SnakeGame.InitialSnake` | script.js:52-60 | three cells, head at `(cols/2, rows/2)`, each next cell one column to the left in the same row; all on the board and pairwise distinct |
| `SnakeGame.PlaceFood` | script.js:63-72 | the placed food is on the board and off the given snake |
| `SnakeGame.PlaceFoodCovers` | script.js:63-72 | every free square is the result of some choice, so no placement the random loop can make is lost |
| `SnakeGame.Reset` | script.js:87-101 | starting snake, direction (1,0), score 0, speed 200, stopped, best score kept, food off the snake; with a non-negative best the result satisfies the invariant |
| `SnakeGame.BestScoreGame` | script.js:140-146 | the best score becomes `max(best, score)`, so it never decreases and bounds the score; nothing else changes |
| `SnakeGame.IncreaseSpeed` | script.js:148-150 | the interval never rises; it drops exactly when the score is a positive multiple of 5 and the interval is above 50, and then becomes `max(50, speed-10)`; the floor 50 is kept; nothing else changes |
| `SnakeGame.NextHead` | script.js:104-112 | each head coordinate is `(v + d + n) % n` with JavaScript's `%`; from a head on the board with a unit direction it lands on the board |
| `SnakeGame.Step` | script.js:103-137 | a head entering any pre-move cell, tail included, yields the reset state with best `max(best, score)`; otherwise the new head is a fresh square and direction and run flag are kept; a plain move drops the tail and keeps length, score, best, food and speed; eating keeps the tail, grows length and score by one, raises best to at least the score, places food off the grown snake and applies the speed rule |
| `Controls.Turn` | script.js:163-186 | a pad button either leaves the state alone or sets its own direction, never onto the exact negation of the current one; from a unit direction it is accepted exactly when it is not a reversal; only `dx, dy` change |
| `Controls.TurnIdempotent` | script.js:163-186 | pressing the same button twice equals pressing it once |
| `Controls.KeyDown` | script.js:189-203 | each arrow key acts exactly as its pad button and every other key changes nothing |
| `Controls.TwoTurnsReverse` | script.js:163-186 | moving right, Up then Left are both accepted and leave the exact reverse of the previous direction |
| `Controls.Start` | script.js:218-222 | after start the game runs; start changes nothing else and is a no-op when already running |
| `Controls.PauseGame` | script.js:224-233 | with caption "Pause" the game stops and the caption becomes "Continue"; otherwise it acts as start and the caption becomes "Pause"; only the run flag changes |
| `Controls.GameLoop` | script.js:205-207 | a timer tick is a no-op when not running and a move when running |
| `Session.ScheduledSpeedBounds` | script.js:148-150 | the scheduled interval for a non-negative score lies in `[50, 200]` |
| `Session.IncreaseSpeedFollowsSchedule` | script.js:126-131 | eating to score `s` from the interval scheduled for `s-1` gives the interval scheduled for `s`: 200 less 10 per 5 points, floored at 50 |
| `Session.RoomToMove` | script.js:126-131 | under the invariant, a snake that can grow by one cell without filling the board always finds a square for new food |
| `Session.StepPreservesWf` | script.js:103-137 | a tick keeps cells on the board, no duplicate cells, food off the snake, a unit direction, length = 3 + score, interval = schedule(score) and 0 <= score <= best |
| `Session.Apply` | script.js:163-245 | every handler is accepted in every well-formed state, a running tick whenever its move returns; each keeps the invariant, grows the snake by at most one cell and never lowers the best score |
| `Session.Run` | script.js:205-245 | over any event sequence whose every event returns, the invariant holds, the best score never decreases and bounds the score, and the interval stays in `[50, 200]` |
| `Session.RoomReturns` | script.js:123-136 | each event grows the snake by at most one cell, so a session with fewer events than free squares beyond one returns on every event |
| `Session.GameOverKeepsBest` | script.js:115-118 | whenever the score is at most the best, as the invariant keeps it, the best-score update on game over leaves the best unchanged |
| `Session.Load` | script.js:29-30 | the page load starts from the stored best score with score 0, stopped, in a state satisfying the invariant |
| `Scenarios.PlainMoveScenario` | script.js:123-136 | on a 20x20 board `(9,9),(8,9),(7,9)` moving right becomes `(10,9),(9,9),(8,9)` with score and food unchanged |
| `Scenarios.WrapScenario` | script.js:105-112 | a head at `(19,5)` moving right on a 20-wide board moves to `(0,5)` |
| `Scenarios.EatScenario` | script.js:126-132 | with food straight ahead the snake grows to 4 cells, the score becomes 1 and the new food is off the snake, for every choice |
| `Scenarios.TailCollisionScenario` | script.js:114-120 | moving onto the current tail square ends the game: score 0, best kept at 1, stopped, 3 cells |
| `Scenarios.NeckReversalScenario` | script.js:114-120 | Up then Left while moving right sends the head into the neck; the game ends with the starting snake and score 0, and the best score is kept |

## Left out

- Drawing on the canvas (`canvasBoard`, `drawSnake`, `drawFood`, the score text in `gameLoop`): rendering only.
- DOM lookups, button and keydown listener wiring, and the `alert` on game over: interface plumbing. Only their effects on direction and run flag are modelled.
- `localStorage` reads and writes: external persistence. The best score is a plain field, and the stored value enters as a parameter of `Session.Load`.
- `setInterval`/`clearInterval` re-arming in `startGame`, `pauseGame`, `resetGame` and `increaseSpeed`: timer plumbing. The interval is an integer field.
- The `speedInfo` display counter (`"5"`, `+2`): text arithmetic on page content.
- `Math.random` in food placement: replaced by the `choice` argument over the enumerated free squares.
- SnakeGame.Step: requires `CanMove`. A tick that eats the food while filling the board would loop forever in the food search, so the model has no result for it.
- Session.Run: requires `Returns`, that no tick of the session is such a hanging tick, for the same reason.
- The pause button caption is passed with each click (`Session.Event.PauseClick`). The model does not track it across clicks, so any caption history is covered.
