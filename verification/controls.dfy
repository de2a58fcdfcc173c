/**
 The inputs of the snake game: the on-screen pad and the arrow keys, which set
 the direction, and the start and pause buttons and the timer callback, which
 gate the running flag. The direction guard compares against the direction
 held at the moment of the input, as the handlers do: there is no separate
 pending direction.
 */
module Controls {
  import opened Grid
  import opened SnakeGame

  datatype Dir = Up | Down | Left | Right

  function DX(d: Dir): int {
    match d
    case Left => -1
    case Right => 1
    case _ => 0
  }

  /** Rows grow downwards on the canvas, so Up is dy = -1. */
  function DY(d: Dir): int {
    match d
    case Up => -1
    case Down => 1
    case _ => 0
  }

  /** The current direction is exactly the opposite of `d`. */
  predicate Reverses(g: Game, d: Dir) {
    g.dx == -DX(d) && g.dy == -DY(d)
  }

  /** A pad button: each one switches to its direction unless the one
      coordinate that would make it a reversal holds the opposite value. */
  function Turn(g: Game, d: Dir): (r: Game)
    ensures r.(dx := g.dx, dy := g.dy) == g
    ensures r == g || (r.dx == DX(d) && r.dy == DY(d) && !Reverses(g, d))
    ensures IsUnit(g.dx, g.dy) ==> IsUnit(r.dx, r.dy)
    ensures IsUnit(g.dx, g.dy) ==> (r.dx == DX(d) && r.dy == DY(d) <==> !Reverses(g, d))
    ensures IsUnit(g.dx, g.dy) && Reverses(g, d) ==> r == g
  {
    match d
    case Up => if g.dy != 1 then g.(dx := 0, dy := -1) else g
    case Down => if g.dy != -1 then g.(dx := 0, dy := 1) else g
    case Left => if g.dx != 1 then g.(dx := -1, dy := 0) else g
    case Right => if g.dx != -1 then g.(dx := 1, dy := 0) else g
  }

  /** Pressing the same button twice does what pressing it once does. */
  lemma TurnIdempotent(g: Game, d: Dir)
    ensures Turn(Turn(g, d), d) == Turn(g, d)
  {
  }

  /** The `event.key` names of the arrow keys. */
  function KeyName(d: Dir): string {
    match d
    case Up => "ArrowUp"
    case Down => "ArrowDown"
    case Left => "ArrowLeft"
    case Right => "ArrowRight"
  }

  predicate IsArrow(key: string) {
    key == "ArrowUp" || key == "ArrowDown" || key == "ArrowLeft" || key == "ArrowRight"
  }

  function ArrowDir(key: string): (d: Dir)
    requires IsArrow(key)
    ensures KeyName(d) == key
  {
    if key == "ArrowUp" then Up
    else if key == "ArrowDown" then Down
    else if key == "ArrowLeft" then Left
    else Right
  }

  /** The keydown handler: a chain of tests of the key name and the guard. An
      arrow key acts exactly as the matching pad button; other keys do nothing. */
  function KeyDown(g: Game, key: string): (r: Game)
    ensures IsArrow(key) ==> r == Turn(g, ArrowDir(key))
    ensures !IsArrow(key) ==> r == g
  {
    if key == "ArrowUp" && g.dy != 1 then g.(dx := 0, dy := -1)
    else if key == "ArrowDown" && g.dy != -1 then g.(dx := 0, dy := 1)
    else if key == "ArrowLeft" && g.dx != 1 then g.(dx := -1, dy := 0)
    else if key == "ArrowRight" && g.dx != -1 then g.(dx := 1, dy := 0)
    else g
  }

  /** Two inputs between ticks can reverse the direction used by the last tick:
      moving right, Up and then Left are both accepted and leave the snake
      heading left, because each guard only sees the direction just set. */
  lemma TwoTurnsReverse(g: Game)
    requires g.dx == 1 && g.dy == 0
    ensures Turn(g, Up).dx == 0 && Turn(g, Up).dy == -1
    ensures Turn(Turn(g, Up), Left).dx == -1 && Turn(Turn(g, Up), Left).dy == 0
    ensures Reverses(g, Left)
  {
  }

  /** startGame: sets the running flag; a no-op when already running. */
  function Start(g: Game): (r: Game)
    ensures r.running
    ensures r.(running := g.running) == g
  {
    if g.running then g else g.(running := true)
  }

  /** The caption of the pause button, which decides what a click does. */
  datatype PauseLabel = ShowsPause | ShowsContinue

  /** pauseGame: when the button reads "Pause" the game stops and the button
      reads "Continue"; otherwise the game starts again and it reads "Pause". */
  function PauseGame(g: Game, caption: PauseLabel): (r: (Game, PauseLabel))
    ensures r.0.(running := g.running) == g
    ensures caption == ShowsPause ==> !r.0.running && r.1 == ShowsContinue
    ensures caption == ShowsContinue ==> r.0 == Start(g) && r.1 == ShowsPause
  {
    match caption
    case ShowsPause => (g.(running := false), ShowsContinue)
    case ShowsContinue => (Start(g), ShowsPause)
  }

  /** gameLoop: a timer tick moves the snake only while the game runs. */
  function GameLoop(b: Board, g: Game, choice: nat): (r: Game)
    requires g.running ==> CanMove(b, g)
    ensures !g.running ==> r == g
    ensures g.running ==> r == Step(b, g, choice)
  {
    if !g.running then g else Step(b, g, choice)
  }
}
