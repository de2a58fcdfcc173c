/**
 The game state of the snake game and its per-tick transition: the snake
 (head first), the food square, the direction `(dx, dy)`, the score, the best
 score, the tick interval `speed` in milliseconds and the running flag.
 Random food placement is replaced by an explicit choice among the free
 squares; drawing, timers and storage are not part of this model.
 */
module SnakeGame {
  import opened Grid

  datatype Game = Game(
    snake: seq<Cell>,
    food: Cell,
    dx: int,
    dy: int,
    score: int,
    best: int,
    speed: int,
    running: bool)

  /** Tick interval at the start of a game, and its floor. */
  const StartSpeed := 200
  const MinSpeed := 50
  /** The interval shrinks by SpeedStep every SpeedEvery points. */
  const SpeedStep := 10
  const SpeedEvery := 5
  /** The starting snake has this many cells. */
  const StartLength := 3

  /** The four directions the handlers can set. */
  predicate IsUnit(dx: int, dy: int) {
    (dx == 0 && (dy == 1 || dy == -1)) || (dy == 0 && (dx == 1 || dx == -1))
  }

  predicate Distinct(s: seq<Cell>) {
    forall i, j :: 0 <= i < j < |s| ==> s[i] != s[j]
  }

  predicate AllInBounds(b: Board, s: seq<Cell>) {
    forall i :: 0 <= i < |s| ==> InBounds(b, s[i])
  }

  /** The tick interval a game has after reaching `score`, counting one step
      down of SpeedStep per SpeedEvery points and never going below MinSpeed. */
  function ScheduledSpeed(score: int): int {
    Max(MinSpeed, StartSpeed - SpeedStep * (score / SpeedEvery))
  }

  /** The invariant of every state the game reaches from a reset. */
  predicate Wf(b: Board, g: Game) {
    && ValidBoard(b)
    && |g.snake| == StartLength + g.score
    && AllInBounds(b, g.snake)
    && Distinct(g.snake)
    && InBounds(b, g.food)
    && g.food !in g.snake
    && IsUnit(g.dx, g.dy)
    && 0 <= g.score <= g.best
    && g.speed == ScheduledSpeed(g.score)
  }

  /** The starting snake: three cells in the middle row, head at the centre
      square, the body trailing to the left. */
  function InitialSnake(b: Board): (s: seq<Cell>)
    requires ValidBoard(b)
    ensures |s| == StartLength
    ensures s[0] == Cell(b.cols / 2, b.rows / 2)
    ensures forall i :: 0 < i < |s| ==> s[i] == Cell(s[i - 1].x - 1, s[0].y)
    ensures AllInBounds(b, s) && Distinct(s)
  {
    var cx := b.cols / 2;
    var cy := b.rows / 2;
    [Cell(cx, cy), Cell(cx - 1, cy), Cell(cx - 2, cy)]
  }

  /** Food placement: the game's food search redraws random squares until one is off the
      snake; here `choice` selects which free square that search ends on. It
      terminates only when some square is free, hence the requires. */
  function PlaceFood(b: Board, snake: seq<Cell>, choice: nat): (f: Cell)
    requires b.cols >= 0
    requires FreeCells(b, snake) != []
    ensures InBounds(b, f)
    ensures f !in snake
  {
    var free := FreeCells(b, snake);
    free[choice % |free|]
  }

  function IndexOf(s: seq<Cell>, c: Cell): (i: nat)
    requires c in s
    ensures i < |s| && s[i] == c
  {
    if s[0] == c then 0 else 1 + IndexOf(s[1..], c)
  }

  lemma ModOfSmall(i: nat, n: nat)
    requires i < n
    ensures i % n == i
  {
    var q := i / n;
    assert i == n * q + i % n;
    assert q <= 0 || n * q >= n;
  }

  /** Every free square is the outcome of some choice, so the choice loses none
      of the placements the random food search can make. */
  lemma PlaceFoodCovers(b: Board, snake: seq<Cell>, c: Cell)
    requires b.cols >= 0
    requires InBounds(b, c) && c !in snake
    ensures FreeCells(b, snake) != []
    ensures exists choice: nat :: PlaceFood(b, snake, choice) == c
  {
    var free := FreeCells(b, snake);
    assert c in free;
    var i := IndexOf(free, c);
    ModOfSmall(i, |free|);
    assert PlaceFood(b, snake, i) == c;
  }

  /** resetGame: a stopped game with the starting snake heading right, score 0,
      the starting interval and food off the snake; the best score is kept. */
  function Reset(b: Board, best: int, choice: nat): (g: Game)
    requires ValidBoard(b)
    ensures g.snake == InitialSnake(b)
    ensures g.dx == 1 && g.dy == 0
    ensures g.score == 0 && g.speed == StartSpeed && !g.running
    ensures g.best == best
    ensures InBounds(b, g.food) && g.food !in g.snake
    ensures best >= 0 ==> Wf(b, g)
  {
    var snake := InitialSnake(b);
    FreeCellExists(b, snake);
    Game(snake, PlaceFood(b, snake, choice), 1, 0, 0, best, StartSpeed, false)
  }

  /** bestScoreGame: the best score becomes the larger of itself and the score;
      nothing else changes. */
  function BestScoreGame(g: Game): (r: Game)
    ensures r.best == Max(g.best, g.score)
    ensures r.best >= g.best && r.best >= g.score
    ensures r.(best := g.best) == g
  {
    if g.score > g.best then g.(best := g.score) else g
  }

  /** increaseSpeed: on reaching a positive multiple of SpeedEvery the interval
      drops by SpeedStep, but not below MinSpeed and only while above it. */
  function IncreaseSpeed(g: Game): (r: Game)
    ensures r.(speed := g.speed) == g
    ensures r.speed <= g.speed
    ensures r.speed < g.speed <==>
      g.score > 0 && JsRem(g.score, SpeedEvery) == 0 && g.speed > MinSpeed
    ensures r.speed < g.speed ==> r.speed == Max(MinSpeed, g.speed - SpeedStep)
    ensures MinSpeed <= g.speed ==> MinSpeed <= r.speed
  {
    if g.score > 0 && JsRem(g.score, SpeedEvery) == 0 && g.speed > MinSpeed then
      g.(speed := Max(MinSpeed, g.speed - SpeedStep))
    else g
  }

  /** The square the head moves to: one step along (dx, dy), each coordinate
      wrapped onto its axis. */
  function NextHead(b: Board, g: Game): (h: Cell)
    requires ValidBoard(b) && |g.snake| > 0
    ensures h.x == Wrap(g.snake[0].x + g.dx, b.cols)
    ensures h.y == Wrap(g.snake[0].y + g.dy, b.rows)
    ensures InBounds(b, g.snake[0]) && IsUnit(g.dx, g.dy) ==> InBounds(b, h)
  {
    Cell(Wrap(g.snake[0].x + g.dx, b.cols), Wrap(g.snake[0].y + g.dy, b.rows))
  }

  /** The move ends the game: the next head square is occupied by the snake as
      it stands before the move, its tail included. */
  predicate Collides(b: Board, g: Game)
    requires ValidBoard(b) && |g.snake| > 0
  {
    NextHead(b, g) in g.snake
  }

  /** The move eats the food. */
  predicate Eats(b: Board, g: Game)
    requires ValidBoard(b) && |g.snake| > 0
  {
    !Collides(b, g) && NextHead(b, g) == g.food
  }

  /** The condition under which `moveSnake` returns at all: when the
      food is eaten, the grown snake leaves a square free for the new food. */
  predicate CanMove(b: Board, g: Game) {
    && ValidBoard(b)
    && |g.snake| > 0
    && (Eats(b, g) ==> FreeCells(b, [NextHead(b, g)] + g.snake) != [])
  }

  /** moveSnake: one tick of movement. `choice` selects the food square that
      is placed on this tick, if any (after eating, or by the reset that
      follows a collision). */
  function Step(b: Board, g: Game, choice: nat): (r: Game)
    requires CanMove(b, g)
    // a collision records the score and restarts
    ensures Collides(b, g) ==> r == Reset(b, Max(g.best, g.score), choice)
    // otherwise the head enters a square off the old snake and the body follows
    ensures !Collides(b, g) ==>
      && |r.snake| > 0
      && r.snake[0] == NextHead(b, g)
      && r.snake[0] !in g.snake
      && r.dx == g.dx && r.dy == g.dy && r.running == g.running
      && r.score >= g.score && r.best >= g.best && r.speed <= g.speed
    // a plain move keeps the length: the tail square is vacated
    ensures !Collides(b, g) && !Eats(b, g) ==>
      && r.snake[1..] == g.snake[..|g.snake| - 1]
      && |r.snake| == |g.snake|
      && r.score == g.score && r.best == g.best
      && r.food == g.food && r.speed == g.speed
    // eating grows the snake by one and the score by one and places new food
    ensures Eats(b, g) ==>
      && r.snake[1..] == g.snake
      && |r.snake| == |g.snake| + 1
      && r.score == g.score + 1
      && r.best == Max(g.best, g.score + 1)
      && InBounds(b, r.food) && r.food !in r.snake
      && r.speed == IncreaseSpeed(g.(score := g.score + 1)).speed
  {
    var head := NextHead(b, g);
    if head in g.snake then
      Reset(b, BestScoreGame(g).best, choice)
    else
      var grown := [head] + g.snake;
      if head == g.food then
        var fed := BestScoreGame(g.(snake := grown, score := g.score + 1));
        IncreaseSpeed(fed.(food := PlaceFood(b, grown, choice)))
      else
        g.(snake := grown[..|grown| - 1])
  }
}
