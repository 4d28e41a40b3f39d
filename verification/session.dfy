/** A play session as a sequence of events (ticks, key presses, button
    clicks, restarts) applied to the one game state, and what holds along
    any such sequence. */
module Session {
  import opened Grid
  import opened Placement
  import opened Rules
  import opened TickFacts
  import opened Invariants

  /** Each event that can change the state. A tick and a restart carry the
      random draws their resampling loop consumes. */
  datatype Event =
    | TickEvent(tickDraws: seq<GridCell>)
    | KeyEvent(key: Key)
    | ButtonEvent(dir: Direction)
    | PauseButton
    | RestartButton(restartDraws: seq<GridCell>)

  /** The event can be carried out in this state: the draws end the
      resampling loop it starts, if it starts one. */
  predicate Enabled(s: GameState, e: Event) {
    match e
    case TickEvent(draws) => CanStep(s, draws)
    case RestartButton(draws) => HasFreeDraw([Center], draws)
    case _ => true
  }

  function Apply(s: GameState, e: Event): GameState
    requires Enabled(s, e)
  {
    match e
    case TickEvent(draws) => Step(s, draws)
    case KeyEvent(k) => KeyPress(s, k)
    case ButtonEvent(d) => ClickDirection(s, d)
    case PauseButton => TogglePause(s)
    case RestartButton(draws) => InitialState(draws)
  }

  /** Every event of the sequence is enabled when its turn comes. */
  predicate Runs(s: GameState, events: seq<Event>)
    decreases |events|
  {
    events == [] || (Enabled(s, events[0]) && Runs(Apply(s, events[0]), events[1..]))
  }

  function Replay(s: GameState, events: seq<Event>): GameState
    requires Runs(s, events)
    decreases |events|
  {
    if events == [] then s else Replay(Apply(s, events[0]), events[1..])
  }

  predicate NoRestart(events: seq<Event>) {
    forall i :: 0 <= i < |events| ==> !events[i].RestartButton?
  }

  /** Every event keeps the invariant. */
  lemma ApplyPreservesValid(s: GameState, e: Event)
    requires Valid(s) && Enabled(s, e)
    ensures Valid(Apply(s, e))
  {
    match e
    case TickEvent(draws) => StepPreservesValid(s, draws);
    case RestartButton(draws) => InitialStateValid(draws);
    case KeyEvent(k) => InputsPreserveValid(s, k, Up);
    case ButtonEvent(d) => InputsPreserveValid(s, OtherKey, d);
    case PauseButton => InputsPreserveValid(s, OtherKey, Up);
  }

  /** Every state reached from a valid one is valid: in particular the
      food is never on the snake, the score is a non-negative multiple of
      ten and the tick interval stays within [70, 150]. */
  lemma {:induction false} ReplayPreservesValid(s: GameState, events: seq<Event>)
    requires Valid(s) && Runs(s, events)
    ensures Valid(Replay(s, events))
    decreases |events|
  {
    if events != [] {
      ApplyPreservesValid(s, events[0]);
      ReplayPreservesValid(Apply(s, events[0]), events[1..]);
    }
  }

  /** Without a restart, the tick interval never grows and the score never
      shrinks, whatever the events. */
  lemma {:induction false} SpeedNeverIncreases(s: GameState, events: seq<Event>)
    requires Runs(s, events) && NoRestart(events)
    ensures Replay(s, events).speed <= s.speed
    ensures Replay(s, events).score >= s.score
    decreases |events|
  {
    if events != [] {
      var e := events[0];
      var t := Apply(s, e);
      if e.TickEvent? {
        StepScoreLengthSpeed(s, e.tickDraws);
      }
      assert NoRestart(events[1..]) by {
        forall i | 0 <= i < |events[1..]| ensures !events[1..][i].RestartButton? {
          assert events[1..][i] == events[i + 1];
        }
      }
      SpeedNeverIncreases(t, events[1..]);
    }
  }

  /** Restart ignores the state it is pressed in: from any state it gives
      the state `getInitialState` builds, and only the food depends on the
      draws. */
  lemma RestartResets(s: GameState, draws: seq<GridCell>)
    requires HasFreeDraw([Center], draws)
    ensures var r := Apply(s, RestartButton(draws));
      && r == InitialState(draws)
      && r.snake == [Center] && r.direction == Right && r.nextDirection == Right
      && r.score == 0 && r.speed == InitialSpeed && !r.isGameOver && !r.isPaused
      && Valid(r)
  {
    InitialStateValid(draws);
  }
}
