/** The rules of the game as pure functions on a game-state value: the
    initial state, one tick of the game loop, and the effect of each input
    (arrow keys, the space bar, the on-screen buttons). */
module Rules {
  import opened Grid
  import opened Placement

  /** Tick interval at the start, in milliseconds. */
  const InitialSpeed: int := 150
  /** The shortest tick interval the game reaches (the fastest play). */
  const MaxSpeed: int := 70
  /** How much the tick interval shrinks at each speed-up. */
  const SpeedIncrement: int := 5
  /** Points for one piece of food. */
  const FoodScore: int := 10
  /** The game speeds up whenever the score reaches a multiple of this. */
  const SpeedUpEvery: int := 50
  /** Where the one-segment snake of a new game sits. */
  const Center: Cell := Cell(10, 10)

  /** The whole game: body (head first), food, the direction of the last
      move, the direction requested for the next move, score, the two flags
      and the tick interval. */
  datatype GameState = GameState(
    snake: seq<Cell>,
    food: Cell,
    direction: Direction,
    nextDirection: Direction,
    score: int,
    isGameOver: bool,
    isPaused: bool,
    speed: int)

  /** A new game: one segment at the centre heading right, score 0, the
      initial speed, and food where the first draw off the snake landed. */
  function InitialState(draws: seq<GridCell>): (s: GameState)
    requires HasFreeDraw([Center], draws)
    ensures InGrid(s.food) && s.food !in s.snake
  {
    GameState([Center], FirstFreeDraw([Center], draws), Right, Right, 0, false, false, InitialSpeed)
  }

  /** Where the head goes on this tick: one step in the requested direction. */
  function NextHead(s: GameState): Cell
    requires |s.snake| > 0
  {
    Move(s.snake[0], s.nextDirection)
  }

  /** The new head lands on a segment other than the current head; the
      segment about to be vacated by the tail is included. */
  predicate HitsBody(s: GameState)
    requires |s.snake| > 0
    ensures HitsBody(s) ==> |s.snake| >= 2
  {
    NextHead(s) in s.snake[1..]
  }

  /** This tick eats the food: no collision, and the head lands on it. */
  predicate WillEat(s: GameState)
    requires |s.snake| > 0
  {
    !HitsBody(s) && NextHead(s) == s.food
  }

  /** The body with the new head in front and the tail still in place. */
  function Grown(s: GameState): seq<Cell>
    requires |s.snake| > 0
  {
    [NextHead(s)] + s.snake
  }

  /** The tick interval after a meal that brought the score to `score`:
      shortened by the increment, but not below the minimum, each time the
      score reaches a multiple of fifty. */
  function SpeedAfterMeal(score: int, speed: int): (r: int)
    ensures r <= speed
    ensures speed > MaxSpeed ==> r >= MaxSpeed
    ensures r != speed <==> score % SpeedUpEvery == 0 && speed > MaxSpeed
    ensures r != speed ==> speed - r == if speed - MaxSpeed < SpeedIncrement then speed - MaxSpeed else SpeedIncrement
  {
    if score % SpeedUpEvery == 0 && speed > MaxSpeed then
      (if speed - SpeedIncrement > MaxSpeed then speed - SpeedIncrement else MaxSpeed)
    else speed
  }

  /** One tick of the game loop once the pause and game-over guard has let
      it through. `newFood` is what the resampling loop returned; it is used
      only when the food is eaten. */
  function Advance(s: GameState, newFood: Cell): (r: GameState)
    requires |s.snake| > 0
    ensures |r.snake| > 0
    ensures r.isGameOver == (s.isGameOver || HitsBody(s)) && r.isPaused == s.isPaused
    ensures |s.snake| <= |r.snake| <= |s.snake| + 1
    ensures |r.snake| == |s.snake| + 1 <==> r.score == s.score + FoodScore
    ensures r.score != s.score ==> r.food == newFood
    ensures r.score == s.score ==> r.food == s.food && r.speed == s.speed
  {
    var head := NextHead(s);
    if head in s.snake[1..] then
      s.(isGameOver := true)
    else if head == s.food then
      var score := s.score + FoodScore;
      s.(snake := [head] + s.snake, food := newFood, direction := s.nextDirection,
         score := score, speed := SpeedAfterMeal(score, s.speed))
    else
      var grown := [head] + s.snake;
      s.(snake := grown[..|grown| - 1], direction := s.nextDirection)
  }

  /** The draws contain food for the tick, if the tick eats. */
  predicate CanRespawn(s: GameState, draws: seq<GridCell>)
    requires |s.snake| > 0
  {
    WillEat(s) ==> HasFreeDraw(Grown(s), draws)
  }

  /** What the tick needs in order to complete: a body to move, and food
      for the resampling loop to find when the tick eats. */
  predicate CanStep(s: GameState, draws: seq<GridCell>) {
    |s.snake| > 0 && (!s.isGameOver && !s.isPaused ==> CanRespawn(s, draws))
  }

  /** The full tick: nothing happens while the game is over or paused;
      otherwise the snake advances, and food eaten is replaced by the first
      draw off the grown snake. */
  function Step(s: GameState, draws: seq<GridCell>): (r: GameState)
    requires CanStep(s, draws)
    ensures |r.snake| > 0
    ensures s.isGameOver || s.isPaused ==> r == s
    ensures r.isPaused == s.isPaused && (s.isGameOver ==> r.isGameOver)
    ensures r.food != s.food ==> r.food !in r.snake
  {
    if s.isGameOver || s.isPaused then s
    else if WillEat(s) then Advance(s, FirstFreeDraw(Grown(s), draws))
    else Advance(s, s.food)
  }

  /** The keys the keyboard handler reacts to; every other key is ignored. */
  datatype Key = Space | ArrowUp | ArrowDown | ArrowLeft | ArrowRight | OtherKey

  /** The keyboard handler: inert once the game is over; the space bar
      flips the pause flag; an arrow key requests its direction unless it
      points back along the direction of the last move. */
  function KeyPress(s: GameState, k: Key): (r: GameState)
    ensures r.snake == s.snake && r.food == s.food && r.direction == s.direction
    ensures r.score == s.score && r.speed == s.speed && r.isGameOver == s.isGameOver
    ensures r.nextDirection != s.nextDirection ==> !s.isGameOver && r.nextDirection != Opposite(s.direction)
    ensures r.isPaused != s.isPaused <==> !s.isGameOver && k == Space
  {
    if s.isGameOver then s
    else
      match k
      case Space => s.(isPaused := !s.isPaused)
      case ArrowUp => if s.direction != Down then s.(nextDirection := Up) else s
      case ArrowDown => if s.direction != Up then s.(nextDirection := Down) else s
      case ArrowLeft => if s.direction != Right then s.(nextDirection := Left) else s
      case ArrowRight => if s.direction != Left then s.(nextDirection := Right) else s
      case OtherKey => s
  }

  /** The on-screen direction buttons: the same reversal rule, written as
      one condition per direction. */
  function ClickDirection(s: GameState, d: Direction): (r: GameState)
    ensures r == s || r == s.(nextDirection := d)
    ensures r.nextDirection == d <==> s.nextDirection == d || (!s.isGameOver && d != Opposite(s.direction))
  {
    if s.isGameOver then s
    else if (d == Up && s.direction != Down) ||
            (d == Down && s.direction != Up) ||
            (d == Left && s.direction != Right) ||
            (d == Right && s.direction != Left)
    then s.(nextDirection := d)
    else s
  }

  /** The pause button: flips the flag, with no game-over check. */
  function TogglePause(s: GameState): (r: GameState)
    ensures r.isPaused != s.isPaused
    ensures r.(isPaused := s.isPaused) == s
  {
    s.(isPaused := !s.isPaused)
  }
}
