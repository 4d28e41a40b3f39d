/** What the inputs do: the reversal rule shared by the arrow keys and the
    on-screen buttons, the pause toggles, and the inertness of a finished
    game. */
module InputFacts {
  import opened Grid
  import opened Placement
  import opened Rules

  /** The arrow key that requests a direction. */
  function ArrowKey(d: Direction): Key {
    match d
    case Up => ArrowUp
    case Down => ArrowDown
    case Left => ArrowLeft
    case Right => ArrowRight
  }

  /** A direction request is dropped when the game is over or when it
      points back along the last move; otherwise it replaces the requested
      direction and nothing else. Buttons and arrow keys agree. */
  lemma DirectionRequestRule(s: GameState, d: Direction)
    ensures ClickDirection(s, d) ==
              if s.isGameOver || d == Opposite(s.direction) then s
              else s.(nextDirection := d)
    ensures KeyPress(s, ArrowKey(d)) == ClickDirection(s, d)
  {
  }

  /** The check is against the direction of the last move, not against a
      request still waiting for the next tick: moving RIGHT with UP
      requested, DOWN is accepted and LEFT is still dropped. */
  lemma ReversalCheckIgnoresPendingRequest(s: GameState)
    requires !s.isGameOver && s.direction == Right
    ensures KeyPress(KeyPress(s, ArrowUp), ArrowDown).nextDirection == Down
    ensures KeyPress(KeyPress(s, ArrowUp), ArrowLeft).nextDirection == Up
    ensures KeyPress(s, ArrowLeft) == s
  {
  }

  /** Space and the pause button flip the pause flag and nothing else;
      flipping twice restores the state. Once the game is over, the space
      bar (like every key) is ignored, while the pause button still flips. */
  lemma PauseToggles(s: GameState)
    ensures TogglePause(s) == s.(isPaused := !s.isPaused)
    ensures TogglePause(TogglePause(s)) == s
    ensures !s.isGameOver ==> KeyPress(s, Space) == TogglePause(s)
    ensures s.isGameOver ==> KeyPress(s, Space) == s && TogglePause(s) != s
  {
  }

  /** Keys other than the four arrows and the space bar are ignored. */
  lemma OtherKeysIgnored(s: GameState)
    ensures KeyPress(s, OtherKey) == s
  {
  }

  /** A finished game is inert: no key, no direction button and no tick
      changes it. */
  lemma GameOverIsInert(s: GameState, k: Key, d: Direction, draws: seq<GridCell>)
    requires s.isGameOver && |s.snake| > 0
    ensures KeyPress(s, k) == s && ClickDirection(s, d) == s
    ensures CanStep(s, draws) && Step(s, draws) == s
  {
  }
}
