/** What one tick does, stated outcome by outcome: the guard, the collision
    that ends the game, the meal that grows the snake, the plain move that
    slides it, and the effect on food, score and speed. */
module TickFacts {
  import opened Grid
  import opened Placement
  import opened Rules

  /** While the game is over or paused a tick changes nothing. */
  lemma HaltedTickIsNoOp(s: GameState, draws: seq<GridCell>)
    requires |s.snake| > 0
    requires s.isGameOver || s.isPaused
    ensures CanStep(s, draws) && Step(s, draws) == s
  {
  }

  /** A head landing on any segment after the current head ends the game;
      nothing else about the state changes. */
  lemma CollisionEndsGame(s: GameState, newFood: Cell)
    requires |s.snake| > 0 && HitsBody(s)
    ensures Advance(s, newFood) == s.(isGameOver := true)
    ensures Advance(s, newFood).snake == s.snake && Advance(s, newFood).direction == s.direction
  {
  }

  /** The cell the tail is about to leave counts as body: moving onto it
      ends the game. */
  lemma TailCellIsDeadly(s: GameState, newFood: Cell)
    requires |s.snake| >= 2
    requires NextHead(s) == s.snake[|s.snake| - 1]
    ensures Advance(s, newFood).isGameOver
    ensures Advance(s, newFood).snake == s.snake
  {
    assert s.snake[1..][|s.snake| - 2] == s.snake[|s.snake| - 1];
  }

  /** A one-segment snake has no body to collide with. */
  lemma SingleSegmentNeverCollides(s: GameState)
    requires |s.snake| == 1
    ensures !HitsBody(s)
  {
  }

  /** Eating: the new head is put in front of the whole old body, the food
      moves to the freshly drawn cell, the score grows by ten and the
      requested direction becomes the direction of the last move. */
  lemma MealOutcome(s: GameState, newFood: Cell)
    requires |s.snake| > 0 && WillEat(s)
    ensures var r := Advance(s, newFood);
      && r.snake == [NextHead(s)] + s.snake
      && |r.snake| == |s.snake| + 1
      && r.food == newFood
      && r.direction == s.nextDirection && r.nextDirection == s.nextDirection
      && r.score == s.score + FoodScore
      && r.speed == SpeedAfterMeal(s.score + FoodScore, s.speed)
      && r.isGameOver == s.isGameOver && r.isPaused == s.isPaused
  {
  }

  /** Moving without eating: the new head is put in front and the last
      segment dropped, so the length stays; food, score and speed stay. */
  lemma SlideOutcome(s: GameState, newFood: Cell)
    requires |s.snake| > 0 && !HitsBody(s) && !WillEat(s)
    ensures var r := Advance(s, newFood);
      && r.snake == [NextHead(s)] + s.snake[..|s.snake| - 1]
      && |r.snake| == |s.snake|
      && r.food == s.food && r.score == s.score && r.speed == s.speed
      && r.direction == s.nextDirection && r.nextDirection == s.nextDirection
      && r.isGameOver == s.isGameOver && r.isPaused == s.isPaused
  {
    var head := NextHead(s);
    assert ([head] + s.snake)[..|s.snake|] == [head] + s.snake[..|s.snake| - 1];
  }

  /** Food that is off the snake before a tick is off it afterwards, as
      long as a meal is replaced by a cell off the grown snake. */
  lemma {:induction false} FoodStaysOffSnake(s: GameState, newFood: Cell)
    requires |s.snake| > 0 && s.food !in s.snake
    requires WillEat(s) ==> newFood !in Grown(s)
    ensures Advance(s, newFood).food !in Advance(s, newFood).snake
  {
    var r := Advance(s, newFood);
    if !HitsBody(s) && !WillEat(s) {
      SlideOutcome(s, newFood);
      var n := |s.snake|;
      assert r.snake == [NextHead(s)] + s.snake[..n - 1];
      forall i | 0 <= i < |r.snake| ensures r.snake[i] != r.food {
        if i > 0 { assert r.snake[i] == s.snake[i - 1]; }
      }
    }
  }

  /** Over a whole tick, score and length move together: either both stay,
      or the score gains ten and the body one segment. The tick interval
      never grows and never drops below the minimum. */
  lemma StepScoreLengthSpeed(s: GameState, draws: seq<GridCell>)
    requires CanStep(s, draws)
    ensures var r := Step(s, draws);
      && ((r.score == s.score && |r.snake| == |s.snake|) ||
          (r.score == s.score + FoodScore && |r.snake| == |s.snake| + 1))
      && r.speed <= s.speed
      && (s.speed >= MaxSpeed ==> r.speed >= MaxSpeed)
      && (r.speed != s.speed ==> r.score % SpeedUpEvery == 0 && r.score == s.score + FoodScore)
  {
  }
}
