/** The game component: one mutable game state that the game loop's tick,
    the keyboard handler, the on-screen buttons and the restart button
    overwrite in turn. */
module Game {
  import opened Grid
  import opened Placement
  import opened Rules
  import opened Invariants

  /** Builds a new game: the food is drawn until it is off the one-segment
      snake at the centre. */
  method NewGame(draws: seq<GridCell>) returns (s: GameState)
    requires HasFreeDraw([Center], draws)
    ensures s == InitialState(draws)
    ensures Valid(s)
  {
    var snake := [Center];
    var food := ResampleFood(snake, draws);
    s := GameState(snake, food, Right, Right, 0, false, false, InitialSpeed);
    InitialStateValid(draws);
  }

  class SnakeGame {
    /** The current game state, replaced wholesale by every update. */
    var state: GameState

    ghost predicate Valid()
      reads this
    {
      Invariants.Valid(state)
    }

    constructor (draws: seq<GridCell>)
      requires HasFreeDraw([Center], draws)
      ensures Valid() && state == InitialState(draws)
    {
      var s := NewGame(draws);
      state := s;
    }

    /** One run of the game loop's callback: nothing while the game is over
        or paused; otherwise the snake moves, and food it eats is replaced
        by the resampling loop run over the grown snake. */
    method Tick(draws: seq<GridCell>)
      requires Valid() && CanStep(state, draws)
      modifies this
      ensures Valid()
      ensures state == Step(old(state), draws)
    {
      if state.isGameOver || state.isPaused {
        return;
      }
      var newFood := state.food;
      if WillEat(state) {
        newFood := ResampleFood(Grown(state), draws);
      }
      StepPreservesValid(state, draws);
      state := Advance(state, newFood);
    }

    /** The keyboard handler. */
    method PressKey(k: Key)
      requires Valid()
      modifies this
      ensures Valid()
      ensures state == KeyPress(old(state), k)
    {
      InputsPreserveValid(state, k, Up);
      state := KeyPress(state, k);
    }

    /** An on-screen direction button. */
    method PressDirectionButton(d: Direction)
      requires Valid()
      modifies this
      ensures Valid()
      ensures state == ClickDirection(old(state), d)
    {
      InputsPreserveValid(state, OtherKey, d);
      state := ClickDirection(state, d);
    }

    /** The pause button. */
    method PressPauseButton()
      requires Valid()
      modifies this
      ensures Valid()
      ensures state == TogglePause(old(state))
    {
      InputsPreserveValid(state, OtherKey, Up);
      state := TogglePause(state);
    }

    /** The restart button: the state is replaced by a new game. */
    method Restart(draws: seq<GridCell>)
      requires HasFreeDraw([Center], draws)
      modifies this
      ensures Valid() && state == InitialState(draws)
    {
      state := NewGame(draws);
    }
  }
}
