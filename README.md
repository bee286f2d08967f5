# simple-snake: the tick state machine, in Dafny

This project models the game logic of `simple-snake`, a terminal snake game
written in Rust (`src/main.rs`). The model covers everything the game does
apart from the terminal:

- the snake's body, a non-empty chain of cells with the head at index 0,
  and its operations: `new`, `contains`, `head`, `move_to`, `move_in` and `dif`;
- the four headings and `is_updown`;
- `Game::new`, and `Game::compute_step`, the transition of the state machine.
  A tick steers under the no-reverse rule, or quits on `q`. It moves the
  snake, counts an eaten apple and replaces it. Then it classifies the outcome:
  self-intercept, then the column test, then the row test, and otherwise
  `Continuing` with a redraw delta.
- `Step::is_continuing`;
- the game logic of `Game::play`. Per tick the loop keeps only the last event
  drained from the input queue. It computes the step and picks the pause:
  150 ms after a vertical move, 50 ms after a horizontal one. It stops after
  the first step that is not `Continuing`.

Layout:

- `positions.dfy` (module `Positions`): `u16`, cells, headings, and the
  one-cell shift of `move_in`.
- `snakes.dfy` (module `Snakes`): the order-preserving difference behind
  `Snake::dif` and its laws. Also `Advance`, the body after one move, with the
  redraw-delta lemma, and the class `Snake`, whose methods update its
  `internal` sequence in place.
- `games.dfy` (module `Games`): events, `Step`, and the pure specification of
  a tick (`Tick`) and of a run of ticks (`Run`). Also the class `Game`, whose
  `ComputeStep` and `Play` update the fields and are proved equal to `Tick`
  and `Run`. It also holds the input-draining loop `Drain` and the pause choice
  `TickLength`.

Three behaviours of the code are kept as written:

- The snake eats when its head BEFORE the move is on the apple
  (`src/main.rs:221`). The new head is never compared. A snake next to an
  apple therefore eats one tick later than one might expect.
  `Games.EatingLagsOneTick` shows this on a concrete snake.
- The first wall test is on the column: `x < 2 || x > width`. Its message
  speaks of top and bottom. The second wall test is on the row:
  `y < 2 || y > height`. Its message speaks of the sides
  (`src/main.rs:134-145`). The model tags them `XOut` and `YOut`.
  `Games.WallTestsByAxis` shows both.
- The row bound is `y < 2`, so row 2 (the border row) still counts as
  inside. The model keeps that bound.

## Model

| member | source | states |
|---|---|---|
| Positions.IsUpdown | src/main.rs:297-302 | true exactly for Up and Down |
| Positions.OppositeInvolution | src/main.rs:100-119 | the reverse pairing used by the no-reverse rule (Left/Right, Up/Down) is an involution without fixed points and keeps the vertical/horizontal axis |
| Positions.ShiftReverse | src/main.rs:214-220 | the one-cell move of `move_in` always leaves the cell, changes one coordinate only, and is undone by a move in the reverse heading |
| Snakes.Difference | src/main.rs:225-232 | `dif` yields no more cells than `self` has, and each of them is in `self` and not in `other` |
| Snakes.DifferenceMembers | src/main.rs:225-232 | a cell is in `a.dif(b)` if and only if it is in `a` and not in `b` |
| Snakes.DifferenceIsSubsequence | src/main.rs:225-232 | `a.dif(b)` keeps the cells of `a` in `a`'s order (a subsequence of `a`) |
| Snakes.DifferenceAppend | src/main.rs:226-231 | the filter distributes over concatenation of `a` |
| Snakes.DifferenceSingle | src/main.rs:229 | a single cell is kept exactly when `other` lacks it |
| Snakes.DifferenceEmpty | src/main.rs:226-231 | `a.dif(b)` is empty if and only if every cell of `a` is in `b` |
| Snakes.DifferenceSelf | src/main.rs:315 | `s.dif(s)` is empty |
| Snakes.DifferenceDisjoint | src/main.rs:147-148 | the painted delta `new.dif(old)` and the erased delta `old.dif(new)` share no cell |
| Snakes.DifferenceOneCellSnakes | src/main.rs:311-316 | the unit test: `[(10,10)]`, `[]` and `[(11,27)]` for two one-cell snakes |
| Snakes.AdvanceDelta | src/main.rs:213-224 | when the new head is not on an old body without repeated cells, the new body minus the old is just the new head. The old body minus the new is the old tail, or nothing when the snake ate. The new body has no repeated cell |
| Snakes.Snake.constructor | src/main.rs:192-196 | `Snake::new` gives the one-cell snake at `(x, y)` |
| Snakes.Snake.Clone | src/main.rs:186 | the clone is a fresh snake with the same cells |
| Snakes.Snake.Contains | src/main.rs:198-200 | true exactly when some index of the body holds `p` |
| Snakes.Snake.Head | src/main.rs:202-204 | the head is the cell at index 0 and is a cell of the snake |
| Snakes.Snake.MoveTo | src/main.rs:206-211 | `p` is inserted at index 0; the old body follows, without its last cell when `del_tail` |
| Snakes.Snake.MoveIn | src/main.rs:213-224 | `ate` holds exactly when the head before the move equals `apple`. The new head is the old head moved one cell in `d`. The rest is the whole old body when it ate, else the old body without its last cell. The length grows by one exactly when it ate |
| Snakes.Snake.Dif | src/main.rs:225-232 | the result holds exactly the cells of this snake not in `other`, as a subsequence of this snake |
| Games.IsContinuing | src/main.rs:249-258 | true exactly for `Continuing`; `Done` and `Quite` end the loop |
| Games.NoReverse | src/main.rs:98-123 | the new heading is never the reverse of the old one. A steering key (`l`/Right, `h`/Left, `k`/Up, `j`/Down) that is not a reversal is obeyed. A reversal, any other event and no event keep the heading |
| Games.QuitChangesNothing | src/main.rs:120 | on `q` the tick yields `Quite` and leaves snake, heading, apple and counter unchanged |
| Games.TickEating | src/main.rs:124-129 | the counter rises by exactly one, the apple is replaced and the body grows by one exactly when the head before the move was on the apple; otherwise all three stay. `length - apples` is kept |
| Games.TickOutcome | src/main.rs:130-154 | outcome order: self-intercept if the old body holds the new head. Else `XOut` if the column is outside 2..width. Else `YOut` if the row is outside 2..height. Else `Continuing` |
| Games.ContinuingDelta | src/main.rs:146-153 | on a snake without repeated cells, a continuing tick paints only the new head. It erases only the old tail, or nothing when the snake ate. It redraws the current apple, and the body still has no repeated cell |
| Games.EatingLagsOneTick | src/main.rs:221 | a snake whose next cell is the apple eats on the following tick, not on this one |
| Games.WallTestsByAxis | src/main.rs:134-145 | leaving through the right edge is reported as `XOut`, leaving through the top as `YOut` |
| Games.Drain | src/main.rs:78-81 | the event handed to the tick is the last one drained, or none for an empty queue |
| Games.TickLength | src/main.rs:85-89 | the pause is 150 ms exactly for Up and Down, and 50 ms exactly for Left and Right |
| Games.ContinuingIsReady | src/main.rs:134-145 | after a continuing tick on a terminal smaller than 65535 cells each way, the head is inside the terminal, so the next move cannot overflow `u16` |
| Games.RunShape | src/main.rs:74-93 | the loop stops exactly after its first non-continuing step and sleeps once per step. The counter rises by at most one per step. `length - apples` is constant over a run |
| Games.Game.constructor | src/main.rs:43-50 | `Game::new` gives a one-cell snake at `(x/2, y/2)`, heading Right, 0 apples, and the given apple |
| Games.Game.Steer | src/main.rs:98-123 | `quit` exactly on `q`, with the heading unchanged; otherwise the heading becomes what the no-reverse rule gives |
| Games.Game.ComputeStep | src/main.rs:97-155 | the new fields and the returned step are those of the pure `Tick` on the old fields, the event and the next apple |
| Games.Game.Play | src/main.rs:69-95 | the final fields, every step and every pause are those of the pure `Run`; the returned count is the final counter |

## Left out

- `main`, `Game::setup` and the terminal half of `Game::play` are not modelled. That covers raw mode, `terminal_size`, `async_stdin`, `write!`, `flush` and `thread::sleep`. Each tick's terminal size and drained events are inputs of `Play`, and the pause is returned rather than slept.
- `Step::display` and the `Debug`/`Display` impls of `Pos` only emit cursor moves and text, so they are not modelled.
- `Pos::rand` is replaced by a caller-given position (`nextApple`, and the `apple` argument of `Game.constructor`). Its `% x` and `y - HEADER_SPACE` arithmetic is not modelled, including the panics for a zero-width or too-short terminal.
- The `Done` messages are not formatted: `Reason` tags carry their arguments instead.
- The `unwrap` of input errors and the `io::Result` of `compute_step` are not modelled: that function never fails.
- Snakes.Snake.MoveIn: requires that the move stays inside `u16`. The source would panic (debug build) or wrap (release build) when moving Up or Left from 0, or Down or Right from 65535.
- Games.Game.ComputeStep: requires `TickSafe`: the move stays inside `u16`, and the `u32` counter is below its maximum when the snake eats. The source's overflow behaviour is left out for the same reason.
- Games.Game.Play: the source loops until a step is not `Continuing`. The model runs over a finite list of ticks and also stops when the list ends. It requires terminal sizes below 65535, a counter that cannot overflow within the given ticks, and a starting head at least one cell away from every `u16` limit.
- Games.Drain: drains a snapshot of the queue. Events arriving while the source's loop drains are counted as the next tick's.
- Games.Game.Steer: the event handling at the top of `compute_step` is its own method, which `ComputeStep` calls first.
