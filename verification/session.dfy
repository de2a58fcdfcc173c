/**
 Invariants of a play session: every transition the game offers keeps the
 state well formed (cells on the board, no cell twice, food off the snake, a
 unit direction, length tied to score, interval tied to score, score bounded
 by the best score), and the best score never goes down.
 */
module Session {
  import opened Grid
  import opened SnakeGame
  import opened Controls

  /** The scheduled interval stays between the floor and the starting value. */
  lemma {:induction false} ScheduledSpeedBounds(score: int)
    requires score >= 0
    ensures MinSpeed <= ScheduledSpeed(score) <= StartSpeed
  {
    assert score / SpeedEvery >= 0;
  }

  /** Eating to a new score applies increaseSpeed to the interval scheduled for
      the old score and lands on the interval scheduled for the new one: the
      rule steps down once per SpeedEvery points until it hits MinSpeed. */
  lemma {:induction false} IncreaseSpeedFollowsSchedule(g: Game)
    requires g.score >= 1
    requires g.speed == ScheduledSpeed(g.score - 1)
    ensures IncreaseSpeed(g).speed == ScheduledSpeed(g.score)
  {
    var s := g.score;
    assert JsRem(s, SpeedEvery) == s % SpeedEvery;
    if s % SpeedEvery == 0 {
      assert (s - 1) / SpeedEvery + 1 == s / SpeedEvery;
    } else {
      assert (s - 1) / SpeedEvery == s / SpeedEvery;
    }
  }

  /** Under the invariant a move returns whenever the snake can still grow by a
      cell without filling the board. */
  lemma RoomToMove(b: Board, g: Game)
    requires Wf(b, g)
    requires |g.snake| + 1 < b.cols * b.rows
    ensures CanMove(b, g)
  {
    FreeCellExists(b, [NextHead(b, g)] + g.snake);
  }

  /** A head square off the snake extends a duplicate-free body, whole or
      without its tail, to a duplicate-free snake on the board. */
  lemma PrependFresh(b: Board, head: Cell, body: seq<Cell>)
    requires InBounds(b, head) && head !in body
    requires AllInBounds(b, body) && Distinct(body)
    ensures AllInBounds(b, [head] + body) && Distinct([head] + body)
  {
    var s := [head] + body;
    forall i, j | 0 <= i < j < |s|
      ensures s[i] != s[j]
    {
      assert s[j] == body[j - 1];
      if i > 0 {
        assert s[i] == body[i - 1];
      }
    }
  }

  lemma {:induction false} StepPreservesWf(b: Board, g: Game, choice: nat)
    requires Wf(b, g) && CanMove(b, g)
    ensures Wf(b, Step(b, g, choice))
  {
    var r := Step(b, g, choice);
    var head := NextHead(b, g);
    if Collides(b, g) {
      assert r == Reset(b, Max(g.best, g.score), choice);
    } else if Eats(b, g) {
      PrependFresh(b, head, g.snake);
      assert r.snake == [head] + g.snake;
      IncreaseSpeedFollowsSchedule(BestScoreGame(g.(snake := r.snake, score := g.score + 1)));
    } else {
      var body := g.snake[..|g.snake| - 1];
      assert forall c :: c in body ==> c in g.snake;
      assert forall i :: 0 <= i < |body| ==> body[i] == g.snake[i];
      PrependFresh(b, head, body);
      assert r.snake == [head] + body;
    }
  }

  /** Everything the player and the timer can do to a running page. */
  datatype Event =
    | Tick(choice: nat)
    | Pad(d: Dir)
    | Key(name: string)
    | StartClick
    | PauseClick(caption: PauseLabel)
    | RestartClick(choice: nat)

  /** One event. The pause button's caption travels with the click, so any
      caption history is covered. */
  function Apply(b: Board, g: Game, e: Event): (r: Game)
    requires Wf(b, g)
    requires e.Tick? && g.running ==> CanMove(b, g)
    ensures Wf(b, r)
    ensures |r.snake| <= |g.snake| + 1
    ensures r.best >= g.best
  {
    match e
    case Tick(choice) =>
      if g.running then StepPreservesWf(b, g, choice); GameLoop(b, g, choice)
      else GameLoop(b, g, choice)
    case Pad(d) => Turn(g, d)
    case Key(name) => KeyDown(g, name)
    case StartClick => Start(g)
    case PauseClick(caption) => PauseGame(g, caption).0
    case RestartClick(choice) => Reset(b, g.best, choice)
  }

  /** Every event of the session returns: each tick that moves the snake
      leaves a square for any food it has to place. */
  predicate Returns(b: Board, g: Game, events: seq<Event>)
    decreases |events|
  {
    && Wf(b, g)
    && (events != [] ==>
          && (events[0].Tick? && g.running ==> CanMove(b, g))
          && Returns(b, Apply(b, g, events[0]), events[1..]))
  }

  /** A session: the events in order, from a well-formed state. */
  function Run(b: Board, g: Game, events: seq<Event>): (r: Game)
    requires Returns(b, g, events)
    ensures Wf(b, r)
    ensures r.best >= g.best
    ensures 0 <= r.score <= r.best
    ensures MinSpeed <= r.speed <= StartSpeed
    decreases |events|
  {
    if events == [] then
      ScheduledSpeedBounds(g.score);
      g
    else
      Run(b, Apply(b, g, events[0]), events[1..])
  }

  /** Each event grows the snake by at most a cell, so a session on a board
      with room for one more cell per event returns on every event. */
  lemma {:induction false} RoomReturns(b: Board, g: Game, events: seq<Event>)
    requires Wf(b, g)
    requires |g.snake| + |events| < b.cols * b.rows
    ensures Returns(b, g, events)
    decreases |events|
  {
    if events != [] {
      RoomToMove(b, g);
      RoomReturns(b, Apply(b, g, events[0]), events[1..]);
    }
  }

  /** The invariant keeps the score at most the best score, and then the
      best-score update on a collision changes nothing. */
  lemma GameOverKeepsBest(b: Board, g: Game, choice: nat)
    requires ValidBoard(b) && |g.snake| > 0
    requires g.score <= g.best && Collides(b, g)
    ensures CanMove(b, g)
    ensures Step(b, g, choice).best == g.best
  {
  }

  /** The page load: resetGame with the stored best score. */
  function Load(b: Board, stored: nat, choice: nat): (g: Game)
    requires ValidBoard(b)
    ensures Wf(b, g)
    ensures g.best == stored && g.score == 0 && !g.running
  {
    Reset(b, stored, choice)
  }
}
