/**
 * Food placement: a cell of the board that no segment of the snake covers.
 * The random draw of game.js is a nondeterministic choice here, and a
 * counting argument shows when a free cell exists at all.
 */
module Food {
  import opened Grid

  /** The cells (x, y) with 0 <= x < width on row y. */
  function RowCells(y: int, width: nat): (r: set<Cell>)
    ensures forall c :: c in r <==> c.y == y && 0 <= c.x < width
    ensures |r| == width
  {
    if width == 0 then {} else RowCells(y, width - 1) + {Cell(width - 1, y)}
  }

  /** The cells (x, y) with 0 <= x < width and 0 <= y < height. */
  function BoardCells(width: nat, height: nat): (r: set<Cell>)
    ensures forall c :: c in r <==> 0 <= c.x < width && 0 <= c.y < height
    ensures |r| == width * height
  {
    if height == 0 then {}
    else
      var above := BoardCells(width, height - 1);
      var row := RowCells(height - 1, width);
      assert above * row == {};
      assert width * height == width * (height - 1) + width;
      above + row
  }

  /** The distinct cells of a body; there are no more of them than segments. */
  function Covered(body: seq<Cell>): (r: set<Cell>)
    ensures forall c :: c in r <==> c in body
    ensures |r| <= |body|
  {
    if body == [] then {}
    else
      var rest := Covered(body[1..]);
      assert forall c :: c in body <==> c == body[0] || c in body[1..];
      {body[0]} + rest
  }

  /** A body with fewer segments than the board has cells leaves a cell free. */
  lemma {:induction false} FreeCellExists(body: seq<Cell>, gridSize: nat)
    requires |body| < gridSize * gridSize
    ensures exists c :: InGrid(c, gridSize) && c !in body
  {
    var board := BoardCells(gridSize, gridSize);
    var covered := Covered(body);
    assert covered * board <= covered;
    assert |board - covered| == |board| - |board * covered|;
    assert board * covered == covered * board;
    assert |covered * board| <= |covered| by {
      assert |covered - board| + |covered * board| == |covered|;
    }
    assert |board - covered| > 0;
    var c :| c in board - covered;
    assert InGrid(c, gridSize) && c !in body;
  }

  /**
   * A cell on the gridSize board that is not covered by the body. The
   * game draws cells at random until it hits a free one; any free cell
   * is a possible outcome, and it exists exactly when the draw can stop.
   */
  method GenerateFood(gridSize: int, body: seq<Cell>) returns (food: Cell)
    requires exists c :: InGrid(c, gridSize) && c !in body
    ensures InGrid(food, gridSize)
    ensures food !in body
  {
    food :| InGrid(food, gridSize) && food !in body;
  }
}
