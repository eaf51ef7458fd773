/**
 * The playing field: integer cells, the four headings and the one-unit
 * step a heading produces. The y axis grows downwards, as on the canvas.
 */
module Grid {

  /** One square of the board; a value without identity. */
  datatype Cell = Cell(x: int, y: int)

  datatype Direction = Up | Down | Left | Right

  /** The board is gridSize by gridSize cells, indexed from 0. */
  predicate InGrid(c: Cell, gridSize: int) {
    0 <= c.x < gridSize && 0 <= c.y < gridSize
  }

  /** The heading a snake may not turn to directly. */
  function Opposite(d: Direction): (r: Direction)
    ensures r != d
    ensures (d == Up || d == Down) <==> (r == Up || r == Down)
  {
    match d
    case Up => Down
    case Down => Up
    case Left => Right
    case Right => Left
  }

  /** The cell one unit away from c in heading d. */
  function Step(c: Cell, d: Direction): (r: Cell)
    ensures (r.x - c.x) * (r.x - c.x) + (r.y - c.y) * (r.y - c.y) == 1
    ensures (d == Up || d == Down) <==> r.x == c.x
    ensures r.y < c.y <==> d == Up
    ensures r.y > c.y <==> d == Down
    ensures r.x < c.x <==> d == Left
    ensures r.x > c.x <==> d == Right
  {
    match d
    case Up => c.(y := c.y - 1)
    case Down => c.(y := c.y + 1)
    case Left => c.(x := c.x - 1)
    case Right => c.(x := c.x + 1)
  }

  lemma OppositeInvolutive(d: Direction)
    ensures Opposite(Opposite(d)) == d
  {
  }
}
