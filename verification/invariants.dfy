/** The invariant of every state the game can reach, and the proof that the
    initial state has it and every tick and every input keeps it. */
module Invariants {
  import opened Grid
  import opened Placement
  import opened Rules
  import opened TickFacts

  /** `a` is one step away from `b`. */
  predicate Adjacent(a: Cell, b: Cell) {
    a == Move(b, Up) || a == Move(b, Down) || a == Move(b, Left) || a == Move(b, Right)
  }

  /** Each segment is one step away from the one behind it. */
  predicate Connected(body: seq<Cell>) {
    forall i :: 0 <= i < |body| - 1 ==> Adjacent(body[i], body[i + 1])
  }

  /** The tick interval that belongs to a score: one increment shorter per
      fifty points, but never below the minimum. */
  function SpeedForScore(score: int): (speed: int)
    requires score >= 0
    ensures MaxSpeed <= speed <= InitialSpeed
    ensures speed == MaxSpeed <==> score / SpeedUpEvery >= (InitialSpeed - MaxSpeed) / SpeedIncrement
  {
    var v := InitialSpeed - SpeedIncrement * (score / SpeedUpEvery);
    if v > MaxSpeed then v else MaxSpeed
  }

  /** What holds of every reachable state: the body is a non-empty chain of
      distinct neighbouring board cells whose head came from the second
      segment by the last move; the food is a board cell off the body; a
      pending request never reverses the last move; the score is a
      multiple of ten that counts the segments grown, and the tick
      interval is the one that belongs to the score. */
  predicate Valid(s: GameState)
    ensures Valid(s) ==> s.score == FoodScore * (|s.snake| - 1)
    ensures Valid(s) ==> MaxSpeed <= s.speed <= InitialSpeed
  {
    && |s.snake| > 0
    && AllInGrid(s.snake) && Distinct(s.snake) && Connected(s.snake)
    && InGrid(s.food) && s.food !in s.snake
    && (|s.snake| >= 2 ==> s.snake[0] == Move(s.snake[1], s.direction))
    && s.nextDirection != Opposite(s.direction)
    && s.score >= 0 && s.score % FoodScore == 0
    && |s.snake| == 1 + s.score / FoodScore
    && s.speed == SpeedForScore(s.score)
  }

  /** A reachable state keeps score and tick interval within their bounds,
      and the snake leaves room on the board for the food. */
  lemma ValidBounds(s: GameState)
    requires Valid(s)
    ensures s.score >= 0 && s.score % FoodScore == 0
    ensures MaxSpeed <= s.speed <= InitialSpeed
    ensures |s.snake| < CellCount
  {
    FreeCellExistsIff(s.snake);
  }

  /** A new game is in the invariant and is the state `getInitialState` builds. */
  lemma InitialStateValid(draws: seq<GridCell>)
    requires HasFreeDraw([Center], draws)
    ensures var s := InitialState(draws);
      && Valid(s)
      && s.snake == [Cell(10, 10)] && s.direction == Right && s.nextDirection == Right
      && s.score == 0 && s.speed == InitialSpeed && !s.isGameOver && !s.isPaused
  {
  }

  /** Five meals from the start: score 50, six segments, and exactly one
      speed-up, from 150 to 145. */
  lemma FiveMealsScenario(s: GameState)
    requires Valid(s) && s.score == 50
    ensures |s.snake| == 6 && s.speed == 145
  {
  }

  /** A meal moves the tick interval to the one belonging to the new score. */
  lemma MealSpeedMatchesScore(score: int)
    requires score >= 0 && score % FoodScore == 0
    ensures SpeedAfterMeal(score + FoodScore, SpeedForScore(score)) == SpeedForScore(score + FoodScore)
  {
    var q := score / SpeedUpEvery;
    var n := score + FoodScore;
    if n % SpeedUpEvery == 0 {
      assert n / SpeedUpEvery == q + 1;
    } else {
      assert n / SpeedUpEvery == q;
    }
  }

  /** A new head one step in front of a chain, and off it, extends the chain. */
  lemma PrependKeepsChain(h: Cell, body: seq<Cell>, d: Direction)
    requires |body| > 0 && AllInGrid(body) && Distinct(body) && Connected(body)
    requires h == Move(body[0], d) && h !in body
    ensures AllInGrid([h] + body) && Distinct([h] + body) && Connected([h] + body)
  {
    var r := [h] + body;
    assert Adjacent(r[0], r[1]);
    forall i | 0 < i < |r| - 1 ensures Adjacent(r[i], r[i + 1]) {
      assert r[i] == body[i - 1] && r[i + 1] == body[i];
    }
    forall i, j | 0 <= i < j < |r| ensures r[i] != r[j] {
      if i == 0 { assert r[j] == body[j - 1]; }
      else { assert r[i] == body[i - 1] && r[j] == body[j - 1]; }
    }
  }

  /** Dropping segments from the tail keeps a chain a chain. */
  lemma PrefixKeepsChain(body: seq<Cell>, k: nat)
    requires k <= |body| && AllInGrid(body) && Distinct(body) && Connected(body)
    ensures AllInGrid(body[..k]) && Distinct(body[..k]) && Connected(body[..k])
  {
  }

  /** One tick of the updater keeps the invariant, provided a meal is
      replaced by a board cell off the grown snake. */
  lemma AdvancePreservesValid(s: GameState, newFood: Cell)
    requires Valid(s)
    requires WillEat(s) ==> InGrid(newFood) && newFood !in Grown(s)
    ensures Valid(Advance(s, newFood))
  {
    var r := Advance(s, newFood);
    if !HitsBody(s) {
      var h := NextHead(s);
      MoveThenBack(s.snake[0], s.nextDirection);
      assert h !in s.snake by {
        assert s.snake == [s.snake[0]] + s.snake[1..];
      }
      PrependKeepsChain(h, s.snake, s.nextDirection);
      FoodStaysOffSnake(s, newFood);
      if WillEat(s) {
        MealOutcome(s, newFood);
        MealSpeedMatchesScore(s.score);
      } else {
        SlideOutcome(s, newFood);
        var n := |s.snake|;
        PrefixKeepsChain([h] + s.snake, n);
        assert r.snake == ([h] + s.snake)[..n];
      }
    }
  }

  /** Every tick keeps the invariant: the guard leaves the state alone, and
      food is replaced by a draw, which is a board cell off the grown snake. */
  lemma StepPreservesValid(s: GameState, draws: seq<GridCell>)
    requires Valid(s) && CanStep(s, draws)
    ensures Valid(Step(s, draws))
  {
    if !s.isGameOver && !s.isPaused {
      if WillEat(s) {
        AdvancePreservesValid(s, FirstFreeDraw(Grown(s), draws));
      } else {
        AdvancePreservesValid(s, s.food);
      }
    }
  }

  /** Keys, direction buttons and the pause button keep the invariant. */
  lemma InputsPreserveValid(s: GameState, k: Key, d: Direction)
    requires Valid(s)
    ensures Valid(KeyPress(s, k)) && Valid(ClickDirection(s, d)) && Valid(TogglePause(s))
  {
  }

  /** The reversal rule keeps the head off the neck: in a reachable state
      the next head is never the second segment. */
  lemma NeckIsNeverHit(s: GameState)
    requires Valid(s) && |s.snake| >= 2
    ensures NextHead(s) != s.snake[1]
  {
    NoReturnWithoutReversal(s.snake[1], s.direction, s.nextDirection);
  }

  /** When the last free cell is eaten, the grown snake covers the board
      and no draw can ever land off it: the resampling loop cannot end. */
  lemma FullBoardHasNoRespawn(s: GameState, draws: seq<GridCell>)
    requires Valid(s) && WillEat(s) && |s.snake| == CellCount - 1
    ensures !HasFreeDraw(Grown(s), draws)
  {
    var g := Grown(s);
    MoveThenBack(s.snake[0], s.nextDirection);
    assert NextHead(s) !in s.snake by {
      assert s.snake == [s.snake[0]] + s.snake[1..];
    }
    PrependKeepsChain(NextHead(s), s.snake, s.nextDirection);
    FreeCellExistsIff(g);
    forall k | 0 <= k < |draws| ensures draws[k] in g {
      assert InGrid(draws[k]);
    }
  }

  /** Tail-chasing is fatal in a valid state: a four-segment snake
      coiled in a square, heading up, turns left onto the cell its tail is
      about to leave, and the game ends with the body unchanged. */
  lemma TailChaseEndsGame()
    ensures var s := GameState([Cell(1, 0), Cell(1, 1), Cell(0, 1), Cell(0, 0)],
                               Cell(5, 5), Up, Left, 30, false, false, InitialSpeed);
      && Valid(s)
      && NextHead(s) == s.snake[3]
      && CanStep(s, [])
      && Step(s, []) == s.(isGameOver := true)
  {
    var s := GameState([Cell(1, 0), Cell(1, 1), Cell(0, 1), Cell(0, 0)],
                       Cell(5, 5), Up, Left, 30, false, false, InitialSpeed);
    assert Adjacent(s.snake[0], s.snake[1]) && Adjacent(s.snake[1], s.snake[2]) && Adjacent(s.snake[2], s.snake[3]);
    assert NextHead(s) == s.snake[1..][2];
  }
}
