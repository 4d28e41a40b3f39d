# Snake game state machine in Dafny

This project models the core of a browser Snake game (`src/components/game/SnakeGame.tsx`)
and proves properties of it. The board is a 20 × 20 torus. The snake is a list of cells, head
first. Each tick moves the head one cell in the requested direction, wrapping at the edges.
A head landing on the body ends the game. A head landing on the food grows the snake, adds
10 points and, every 50 points, shortens the tick interval by 5 ms, down to a minimum of 70 ms.
Arrow keys and on-screen buttons request the next direction, but a request that points back
along the last move is dropped. The space bar and the pause button flip the pause flag.
Restart builds a new game.

The modules:

- `Grid` (`grid.dfy`): cells, directions, JavaScript's truncating `%`, and one head step `Move`
  written with the wrap formulas of `SnakeGame.tsx`. It also holds a pigeonhole argument: a free cell
  exists exactly when the occupied cells number fewer than 400.
- `Placement` (`placement.dfy`): food placement. `Math.random` is abstracted as the finite
  stream of cells it produced. `FirstFreeDraw` specifies the rejection loop: the first draw off
  the snake. `ResampleFood` is that loop as a `while` loop, proved equal to it.
- `Rules` (`rules.dfy`): the `GameState` record and the rules as pure functions.
  - `InitialState` is `getInitialState`.
  - `Advance` is the `setGameState` updater inside `moveSnake`.
  - `Step` adds the pause/game-over guard of `moveSnake`.
  - `KeyPress`, `ClickDirection` and `TogglePause` are the input handlers.
- `TickFacts`, `InputFacts` (`tick_facts.dfy`, `input_facts.dfy`): what one tick and one input
  do, outcome by outcome.
- `Invariants` (`invariants.dfy`): `Valid`, the invariant of every reachable state, with proofs
  that the initial state has it and that every tick and every input keeps it. It states:
  - the body is a chain of distinct, neighbouring board cells;
  - the food is on the board and off the snake;
  - a pending request never reverses the last move;
  - the score is a multiple of 10 and equals 10 × (length − 1);
  - the tick interval is the one that belongs to the score, so it stays within [70, 150].
- `Session` (`session.dfy`): a play session as a sequence of events, with the invariant proved over
  any sequence, and the monotonicity of speed and score over any sequence without a restart.
- `Game` (`game.dfy`): the component's single mutable state cell, as class `SnakeGame`. Its
  methods overwrite `state` as the tick callback, the handlers and the restart button do. Each
  method is proved to keep `Valid()` and to give the state the corresponding pure function
  yields.

Two behaviours of the component differ from classic Snake, and the model keeps them:

- **Moving onto the tail cell ends the game.** The collision test (line 100) checks the new head
  against `snake.slice(1)` of the body before the move. That includes the tail segment about to
  be vacated. `TickFacts.TailCellIsDeadly` and `Invariants.TailChaseEndsGame` (a four-segment example
  that satisfies the invariant) show this.
- **The pause button works after game over.** `togglePause` (lines 207-209) has no game-over
  check, so it still flips `isPaused` on a finished game. The space bar is ignored then, because
  the key handler returns early on game over (line 164).

## Model

| member | source | states |
|---|---|---|
| `Grid.Opposite` | src/components/game/SnakeGame.tsx:171-189 | The reverse of a direction is a different direction on the same axis (UP↔DOWN, LEFT↔RIGHT). |
| `Grid.OppositeIsInvolution` | src/components/game/SnakeGame.tsx:216-220 | Reversing twice gives back the original direction. |
| `Grid.JsRem` | src/components/game/SnakeGame.tsx:86-95 | JavaScript's `%`: equals the mathematical modulus for a non-negative dividend, and is in (−n, 0] for a negative one. |
| `Grid.Move` | src/components/game/SnakeGame.tsx:84-97 | A step from a board cell stays on the board. UP/DOWN change only y, and LEFT/RIGHT change only x. |
| `Grid.WrapFormulas` | src/components/game/SnakeGame.tsx:86-95 | On the board, `(v+1)%20` adds one except at 19 → 0, and `(v-1+20)%20` subtracts one except at 0 → 19. |
| `Grid.MoveIsTorusStep` | src/components/game/SnakeGame.tsx:84-97 | On the board, a step equals adding the direction's ±1 offset to one coordinate modulo 20, an independent reference definition. |
| `Grid.MoveWrapsAtEdges` | src/components/game/SnakeGame.tsx:84-97 | LEFT from x=0 gives x=19, RIGHT from x=19 gives x=0, UP from y=0 gives y=19, and DOWN from y=19 gives y=0. |
| `Grid.MoveThenBack` | src/components/game/SnakeGame.tsx:84-97 | A step never stays in place, and the opposite step undoes it. |
| `Grid.NoReturnWithoutReversal` | src/components/game/SnakeGame.tsx:84-97 | Two steps whose second is not the reverse of the first never return to the start cell. |
| `Grid.FreeCellExistsIff` | src/components/game/SnakeGame.tsx:46-48 | For distinct board cells, a free board cell exists if and only if there are fewer than 400 of them, so the resampling loop can end only then. |
| `Placement.FirstFreeDraw` | src/components/game/SnakeGame.tsx:115-120 | The food the rejection loop settles on is off the body, and it is the first draw off it: every earlier draw lands on the body. |
| `Placement.FirstFreeDrawIsUnique` | src/components/game/SnakeGame.tsx:118-120 | Any draw that is off the body and preceded only by draws on the body is the loop's result. |
| `Placement.ResampleFood` | src/components/game/SnakeGame.tsx:43-48 | The `while` loop that redraws until the sample is off the body returns a cell off the body, namely `FirstFreeDraw`. |
| `Placement.FreeDrawPossibleIff` | src/components/game/SnakeGame.tsx:118-120 | For a body of distinct board cells, some stream of draws ends the loop if and only if the body has fewer than 400 cells. |
| `Rules.HitsBody` | src/components/game/SnakeGame.tsx:100 | The collision test: the new head lands in `snake[1..]` of the body before the move. A collision needs at least two segments. |
| `Rules.Advance` | src/components/game/SnakeGame.tsx:76-141 | The updater, written with the helpers `Rules.NextHead` (the new head, lines 78-97), `Rules.WillEat` (the meal test, line 113) and `Rules.Grown` (`newSnake`, line 105). The game is over afterwards exactly when it was already over or the head hits the body, and the pause flag is untouched. The length grows by at most one, and it grows exactly when the score gains 10. The food changes only to the new draw, on a score change. Without a score change, food and speed stay. |
| `Rules.Step` | src/components/game/SnakeGame.tsx:73-141 | The guarded tick. While over or paused it returns the state unchanged. It never clears `isGameOver` and never touches `isPaused`. Food that changes lands off the new snake. |
| `Rules.KeyPress` | src/components/game/SnakeGame.tsx:163-191 | The keyboard handler changes only `nextDirection` and `isPaused`. A changed `nextDirection` never reverses the last move, and never changes after game over. The pause flag flips exactly for Space while the game is not over. |
| `Rules.ClickDirection` | src/components/game/SnakeGame.tsx:211-224 | A direction button changes at most `nextDirection`, to the clicked direction. The pending direction equals the clicked one afterwards exactly when it did already, or the game is not over and the click does not reverse the last move. |
| `Rules.TogglePause` | src/components/game/SnakeGame.tsx:207-209 | The pause button flips `isPaused` and changes nothing else. It has no game-over check. |
| `Rules.InitialState` | src/components/game/SnakeGame.tsx:40-60 | The food of a new game is a board cell off the snake. |
| `Rules.SpeedAfterMeal` | src/components/game/SnakeGame.tsx:124-127 | After a meal the interval never grows and never drops below 70. It changes exactly when the new score is a multiple of 50 and the interval exceeds 70, and then by min(5, speed − 70). |
| `TickFacts.HaltedTickIsNoOp` | src/components/game/SnakeGame.tsx:73-74 | While the game is over or paused, a tick returns the state unchanged. |
| `TickFacts.CollisionEndsGame` | src/components/game/SnakeGame.tsx:99-102 | If the new head is in `snake[1..]` of the body before the move, the result is the input with only `isGameOver` set. Snake, food, directions, score and speed are unchanged. |
| `TickFacts.TailCellIsDeadly` | src/components/game/SnakeGame.tsx:100-102 | A head moving onto the current tail cell ends the game and leaves the body unchanged. |
| `TickFacts.SingleSegmentNeverCollides` | src/components/game/SnakeGame.tsx:100 | A one-segment snake can never collide. |
| `TickFacts.MealOutcome` | src/components/game/SnakeGame.tsx:105-127 | On eating, the new snake is `[head] + snake` (length + 1) and the food is the new draw. The score gains 10 and the interval follows `SpeedAfterMeal`. The direction becomes the old `nextDirection`. |
| `TickFacts.SlideOutcome` | src/components/game/SnakeGame.tsx:128-140 | On a plain move, the new snake is `[head] + snake[..len-1]` (same length). Food, score and speed are unchanged, and the direction becomes the old `nextDirection`. |
| `TickFacts.FoodStaysOffSnake` | src/components/game/SnakeGame.tsx:108-131 | Food off the snake before a tick is off it after the tick, given a meal is replaced by a cell off the grown snake. |
| `TickFacts.StepScoreLengthSpeed` | src/components/game/SnakeGame.tsx:109-127 | In one tick, either score and length both stay, or the score gains exactly 10 and the length exactly 1. The interval never grows, never drops below 70, and changes only on a meal that brings the score to a multiple of 50. |
| `InputFacts.DirectionRequestRule` | src/components/game/SnakeGame.tsx:211-224 | A direction request is dropped when the game is over or when it reverses the active direction. Otherwise only `nextDirection` changes. The arrow key for a direction has the same effect as its button. |
| `InputFacts.ReversalCheckIgnoresPendingRequest` | src/components/game/SnakeGame.tsx:171-189 | The check is against the active direction, not a pending request. Moving RIGHT with UP pending, DOWN is accepted and LEFT is dropped. |
| `InputFacts.PauseToggles` | src/components/game/SnakeGame.tsx:164-169 | Space and the pause button flip only `isPaused`, and flipping twice restores the state. After game over, space is ignored but the pause button still flips. |
| `InputFacts.OtherKeysIgnored` | src/components/game/SnakeGame.tsx:166-191 | Keys other than the arrows and space leave the state unchanged. |
| `InputFacts.GameOverIsInert` | src/components/game/SnakeGame.tsx:164 | Once the game is over, every key, every direction button and every tick leaves the state unchanged. |
| `Invariants.Valid` | src/components/game/SnakeGame.tsx:40-141 | The invariant of every reachable state. The body is a chain of distinct neighbouring board cells, and the food is a board cell off it. A pending direction never reverses the last move. Its contract derives that the score is exactly 10 × (length − 1) and that the interval lies in [70, 150]. |
| `Invariants.SpeedForScore` | src/components/game/SnakeGame.tsx:29-31 | The interval for a score lies in [70, 150], and it reaches 70 exactly after 16 speed-ups. |
| `Invariants.ValidBounds` | src/components/game/SnakeGame.tsx:122-127 | In a reachable state, the score is a non-negative multiple of 10, the interval is in [70, 150], and the snake has fewer than 400 cells. |
| `Invariants.InitialStateValid` | src/components/game/SnakeGame.tsx:40-60 | A new game is `[(10,10)]`, RIGHT/RIGHT, score 0, speed 150, both flags false, and satisfies the invariant (food off the snake). |
| `Invariants.FiveMealsScenario` | src/components/game/SnakeGame.tsx:122-127 | A reachable state with score 50 has 6 segments and interval 145: exactly one speed-up. |
| `Invariants.MealSpeedMatchesScore` | src/components/game/SnakeGame.tsx:122-127 | A meal takes the interval belonging to the old score to the interval belonging to the new score. |
| `Invariants.PrependKeepsChain` | src/components/game/SnakeGame.tsx:105 | Prepending a head one step in front of a chain, and off it, gives a chain of distinct neighbouring board cells. |
| `Invariants.PrefixKeepsChain` | src/components/game/SnakeGame.tsx:130 | Dropping tail segments keeps a chain a chain. |
| `Invariants.AdvancePreservesValid` | src/components/game/SnakeGame.tsx:76-141 | The updater keeps the invariant, given a meal's new food is a board cell off the grown snake. |
| `Invariants.StepPreservesValid` | src/components/game/SnakeGame.tsx:73-141 | A full tick, food resampling included, keeps the invariant. |
| `Invariants.InputsPreserveValid` | src/components/game/SnakeGame.tsx:163-224 | Keys, direction buttons and the pause button keep the invariant. |
| `Invariants.NeckIsNeverHit` | src/components/game/SnakeGame.tsx:171-189 | In a reachable state, the next head is never the second segment, so the reversal rule prevents instant self-collision. |
| `Invariants.FullBoardHasNoRespawn` | src/components/game/SnakeGame.tsx:115-120 | If the snake eats the last free cell, no draw is off the grown snake, so the resampling loop cannot end. |
| `Invariants.TailChaseEndsGame` | src/components/game/SnakeGame.tsx:99-102 | A four-segment snake coiled in a square, in a state that satisfies the invariant `Valid`, turns onto its tail cell, and the game ends. |
| `Session.ApplyPreservesValid` | src/components/game/SnakeGame.tsx:163-224 | Every event (tick, key, button, pause, restart) keeps the invariant. |
| `Session.ReplayPreservesValid` | src/components/game/SnakeGame.tsx:145-159 | Every state reached by any sequence of events from a valid state is valid. |
| `Session.SpeedNeverIncreases` | src/components/game/SnakeGame.tsx:125-127 | Over any event sequence without a restart, the interval never grows and the score never shrinks. |
| `Session.RestartResets` | src/components/game/SnakeGame.tsx:201-205 | Restart ignores the state it is pressed in: from any state it yields the fresh initial state, which is valid. Only the food depends on the draws. |
| `Game.NewGame` | src/components/game/SnakeGame.tsx:40-60 | Building a new game with the resampling loop yields `InitialState` and a valid state. |
| `Game.SnakeGame.constructor` | src/components/game/SnakeGame.tsx:62-69 | The component starts with a valid fresh initial state. |
| `Game.SnakeGame.Tick` | src/components/game/SnakeGame.tsx:73-141 | The loop callback keeps the invariant and leaves the state equal to `Step` of the old state. |
| `Game.SnakeGame.PressKey` | src/components/game/SnakeGame.tsx:163-191 | The keyboard handler keeps the invariant and applies `KeyPress`. |
| `Game.SnakeGame.PressDirectionButton` | src/components/game/SnakeGame.tsx:211-224 | A direction button keeps the invariant and applies `ClickDirection`. |
| `Game.SnakeGame.PressPauseButton` | src/components/game/SnakeGame.tsx:207-209 | The pause button flips only `isPaused` and keeps the invariant. |
| `Game.SnakeGame.Restart` | src/components/game/SnakeGame.tsx:201-205 | Restart replaces the state with a fresh, valid initial state. |

## Left out

- React plumbing is not modelled: `useState`, `useRef`, `useCallback`, the `initialStateRef` bookkeeping (lines 63-69, 203) and the `showControls` flag. The state is one record that each handler replaces.
- Closure capture is not modelled. The tick guard at line 74, the game-over guards of the key handler (line 164) and of the direction buttons (line 212), and the reversal checks at lines 172-187 and 214 read the `gameState` captured at render time, while the updaters read the latest state. Here both read the same state, which holds when every update is rendered before the next event.
- The `setTimeout` game loop (lines 145-159) is not modelled. The tick interval `speed` is modelled as a number, but timer scheduling and cancellation are not. The loop's only logic, "tick only when neither paused nor over", is the guard in `Step`.
- Keyboard listener registration (lines 194-197) and all rendering (JSX, animations, icons, `CELL_SIZE`, `getSegmentColor`) are not modelled. `src/app/page.tsx` and `src/app/layout.tsx` only host the component.
- `Math.random` sampling (lines 33-37) is replaced by a finite stream of board cells, one per call. Every draw is a board cell, like `Math.floor(Math.random() * 20)` for each coordinate.
- Rules.Step: requires that the stream contains a draw off the grown snake when the tick eats; `Rules.InitialState`, `Game.SnakeGame.Restart` and `Placement.ResampleFood` require one off the new snake. The loop in `SnakeGame.tsx` (lines 118-120) keeps drawing forever instead. The model therefore does not capture the case where the snake eats the last free cell and that loop never returns (`Invariants.FullBoardHasNoRespawn` shows no stream can satisfy the requirement there).
- Game.SnakeGame methods: require the invariant `Valid()`, which the constructor establishes and every method keeps. States that no sequence of calls can produce are not considered.
- Scores, speeds and coordinates are JavaScript numbers (doubles). They stay small integers here, so they are modelled as unbounded `int`.
