/**
 Concrete ticks on a 20 by 20 board: a plain move, a move off the right edge,
 eating, running into the square the tail is about to leave, and a reversal
 into the neck made of two accepted inputs between ticks.
 */
module Scenarios {
  import opened Grid
  import opened SnakeGame
  import opened Controls

  const Board20 := Board(20, 20)

  function Moving(snake: seq<Cell>, food: Cell, dx: int, dy: int, score: int): Game {
    Game(snake, food, dx, dy, score, score, ScheduledSpeed(score), true)
  }

  /** A plain move right keeps the length and the score. */
  lemma PlainMoveScenario()
    ensures
      var g := Moving([Cell(9, 9), Cell(8, 9), Cell(7, 9)], Cell(0, 0), 1, 0, 0);
      var r := Step(Board20, g, 0);
      r.snake == [Cell(10, 9), Cell(9, 9), Cell(8, 9)] && r.score == 0 && r.food == g.food
  {
    var g := Moving([Cell(9, 9), Cell(8, 9), Cell(7, 9)], Cell(0, 0), 1, 0, 0);
    assert NextHead(Board20, g) == Cell(10, 9);
    assert [Cell(10, 9)] + g.snake[..2] == [Cell(10, 9), Cell(9, 9), Cell(8, 9)];
  }

  /** Leaving the right edge re-enters at column 0 of the same row. */
  lemma WrapScenario()
    ensures
      var g := Moving([Cell(19, 5), Cell(18, 5), Cell(17, 5)], Cell(0, 0), 1, 0, 0);
      Step(Board20, g, 0).snake[0] == Cell(0, 5)
  {
    var g := Moving([Cell(19, 5), Cell(18, 5), Cell(17, 5)], Cell(0, 0), 1, 0, 0);
    assert NextHead(Board20, g) == Cell(0, 5);
  }

  /** With food straight ahead the snake grows to four cells, the score to 1,
      and the new food lies off the grown snake, whichever square is chosen. */
  lemma EatScenario(choice: nat)
    ensures CanMove(Board20, Moving([Cell(9, 9), Cell(8, 9), Cell(7, 9)], Cell(10, 9), 1, 0, 0))
    ensures
      var g := Moving([Cell(9, 9), Cell(8, 9), Cell(7, 9)], Cell(10, 9), 1, 0, 0);
      var r := Step(Board20, g, choice);
      |r.snake| == 4 && r.score == 1 && r.food !in r.snake
  {
    var g := Moving([Cell(9, 9), Cell(8, 9), Cell(7, 9)], Cell(10, 9), 1, 0, 0);
    assert NextHead(Board20, g) == Cell(10, 9);
    FreeCellExists(Board20, [NextHead(Board20, g)] + g.snake);
  }

  /** The tail's square counts as occupied: a snake curled into a 2 by 2 square
      that moves onto its own tail ends the game, although that square would
      have been vacated on this tick. */
  lemma TailCollisionScenario(choice: nat)
    ensures
      var g := Moving([Cell(5, 5), Cell(5, 6), Cell(6, 6), Cell(6, 5)], Cell(0, 0), 1, 0, 1);
      var r := Step(Board20, g, choice);
      r.score == 0 && r.best == 1 && !r.running && |r.snake| == 3
  {
    var g := Moving([Cell(5, 5), Cell(5, 6), Cell(6, 6), Cell(6, 5)], Cell(0, 0), 1, 0, 1);
    assert NextHead(Board20, g) == Cell(6, 5);
  }

  /** Heading right, Up and then Left before the next tick send the head into
      the neck: the game ends, the score goes back to 0 and the best is kept. */
  lemma NeckReversalScenario(choice: nat)
    ensures
      var g := Game([Cell(9, 9), Cell(8, 9), Cell(7, 9)], Cell(0, 0), 1, 0, 0, 4, ScheduledSpeed(0), true);
      var r := Step(Board20, Turn(Turn(g, Up), Left), choice);
      r.score == 0 && r.best == 4 && r.snake == InitialSnake(Board20)
  {
    var g := Game([Cell(9, 9), Cell(8, 9), Cell(7, 9)], Cell(0, 0), 1, 0, 0, 4, ScheduledSpeed(0), true);
    var t := Turn(Turn(g, Up), Left);
    assert NextHead(Board20, t) == Cell(8, 9);
  }
}
