/**
 The board of the snake game: a toroidal grid of `cols` by `rows` squares.
 This module holds the cell type, the coordinate wrap the game applies when
 the head leaves an edge, and an enumeration of the squares the snake does
 not occupy, from which food is placed.
 */
module Grid {

  /** One board square: column `x`, row `y`. */
  datatype Cell = Cell(x: int, y: int)

  /** Board dimensions, in squares (the canvas size divided by the square size). */
  datatype Board = Board(cols: int, rows: int)

  /** The boards the game supports: the centred starting snake reaches back two
      columns from the middle, so it fits only when there are at least four. */
  predicate ValidBoard(b: Board) {
    b.cols >= 4 && b.rows >= 1
  }

  predicate InBounds(b: Board, c: Cell) {
    0 <= c.x < b.cols && 0 <= c.y < b.rows
  }

  function Abs(n: int): nat {
    if n < 0 then -n else n
  }

  function Max(a: int, b: int): (m: int)
    ensures m >= a && m >= b
    ensures m == a || m == b
  {
    if a >= b then a else b
  }

  /** JavaScript's `%`: the remainder of division truncated toward zero, so it
      takes the sign of the dividend (Dafny's own `%` never goes negative). */
  function JsRem(a: int, n: int): (r: int)
    requires n != 0
    ensures Abs(r) < Abs(n)
    ensures a >= 0 ==> r >= 0
    ensures a <= 0 ==> r <= 0
    ensures a >= 0 ==> r == a % Abs(n)
    ensures exists q :: a == Abs(n) * q + r
  {
    var m := Abs(n);
    if a >= 0 then
      assert a == m * (a / m) + a % m;
      a % m
    else
      var q := (-a) / m;
      assert -a == m * q + (-a) % m;
      assert a == m * (-q) + -((-a) % m);
      -((-a) % m)
  }

  /** The game's wrap of one coordinate onto a board axis of length `n`:
      `(v + n) % n` with JavaScript's remainder. Leaving the far edge lands on
      0 and leaving the near edge lands on `n - 1`. */
  function Wrap(v: int, n: int): (r: int)
    requires n > 0
    ensures v >= -n ==> 0 <= r < n
    ensures v >= -n ==> r == (v + n) % n
    ensures 0 <= v < n ==> r == v
    ensures v == n ==> r == 0
    ensures v == -1 ==> r == n - 1
  {
    JsRem(v + n, n)
  }

  /** The set of board squares, built row by row. */
  function RowSet(n: nat, y: int): (r: set<Cell>)
    ensures forall c :: c in r <==> c.y == y && 0 <= c.x < n
    ensures |r| == n
  {
    if n == 0 then {}
    else
      var rest := RowSet(n - 1, y);
      assert Cell(n - 1, y) !in rest;
      rest + {Cell(n - 1, y)}
  }

  function GridSet(cols: nat, rows: nat): (r: set<Cell>)
    ensures forall c :: c in r <==> 0 <= c.x < cols && 0 <= c.y < rows
    ensures |r| == cols * rows
  {
    if rows == 0 then {}
    else
      var above := GridSet(cols, rows - 1);
      var row := RowSet(cols, rows - 1);
      assert above * row == {};
      assert cols * rows == cols * (rows - 1) + cols;
      above + row
  }

  /** The cells a sequence visits, as a set; never more of them than positions. */
  function CellSet(s: seq<Cell>): (r: set<Cell>)
    ensures forall c :: c in r <==> c in s
    ensures |r| <= |s|
  {
    if |s| == 0 then {}
    else
      var rest := CellSet(s[1..]);
      assert forall c :: c in s <==> c == s[0] || c in s[1..];
      {s[0]} + rest
  }

  lemma SubsetCard(a: set<Cell>, b: set<Cell>)
    requires a <= b
    ensures |a| <= |b|
  {
    assert b == a + (b - a);
    assert a * (b - a) == {};
  }

  /** The cells scanned in row-major order starting at (x, y). */
  predicate FromCursor(c: Cell, x: int, y: int) {
    c.y > y || (c.y == y && c.x >= x)
  }

  /** The free squares from (x, y) onwards in row-major order: the squares on
      the board, at or after the cursor, that `snake` does not occupy. */
  function FreeFrom(b: Board, snake: seq<Cell>, x: int, y: int): (r: seq<Cell>)
    requires 0 <= x <= b.cols && 0 <= y
    ensures forall c :: c in r <==> InBounds(b, c) && c !in snake && FromCursor(c, x, y)
    decreases b.rows - y, b.cols - x
  {
    if y >= b.rows then []
    else if x == b.cols then FreeFrom(b, snake, 0, y + 1)
    else
      var here := if Cell(x, y) in snake then [] else [Cell(x, y)];
      var rest := FreeFrom(b, snake, x + 1, y);
      assert forall c :: FromCursor(c, x, y) <==> c == Cell(x, y) || FromCursor(c, x + 1, y);
      assert forall c :: c in here + rest <==> c in here || c in rest;
      here + rest
  }

  /** Every free square of the board, in row-major order: the cells a food
      placement may land on. */
  function FreeCells(b: Board, snake: seq<Cell>): (r: seq<Cell>)
    requires b.cols >= 0
    ensures forall c :: c in r <==> InBounds(b, c) && c !in snake
  {
    FreeFrom(b, snake, 0, 0)
  }

  /** Pigeonhole: a snake shorter than the board's area leaves some square free,
      so the food-placement loop can stop. */
  lemma FreeCellExists(b: Board, snake: seq<Cell>)
    requires b.cols >= 0 && b.rows >= 0
    requires |snake| < b.cols * b.rows
    ensures FreeCells(b, snake) != []
  {
    if FreeCells(b, snake) == [] {
      var g := GridSet(b.cols, b.rows);
      var occupied := CellSet(snake);
      forall c | c in g
        ensures c in occupied
      {
        assert InBounds(b, c);
        assert c !in FreeCells(b, snake);
      }
      SubsetCard(g, occupied);
      assert false;
    }
  }
}
