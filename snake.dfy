/**
 * The snake: an ordered body whose first cell is the head, the heading
 * applied on the last tick and the heading buffered for the next one.
 */
module SnakeBody {
  import opened Grid

  /** The body every new snake starts with: head at (10,10), facing right. */
  const InitialBody: seq<Cell> := [Cell(10, 10), Cell(9, 10), Cell(8, 10)]

  /**
   * The body after one unit of travel in heading d: a new head in front,
   * every segment taking its predecessor's place, the tail cell vacated.
   */
  function Moved(body: seq<Cell>, d: Direction): (r: seq<Cell>)
    requires |body| >= 1
    ensures |r| == |body|
    ensures r[0] == Step(body[0], d)
    ensures forall i :: 1 <= i < |r| ==> r[i] == body[i - 1]
  {
    [Step(body[0], d)] + body[..|body| - 1]
  }

  /** The body after growing: the tail cell appears twice at the end. */
  function Grown(body: seq<Cell>): (r: seq<Cell>)
    requires |body| >= 1
    ensures |r| == |body| + 1
    ensures r[..|body|] == body
    ensures r[|body|] == body[|body| - 1]
  {
    body + [body[|body| - 1]]
  }

  /** The head is off the board or on another segment of the body. */
  predicate Collides(body: seq<Cell>, gridSize: int)
    requires |body| >= 1
  {
    !InGrid(body[0], gridSize) || exists i :: 1 <= i < |body| && body[i] == body[0]
  }

  /** Growing repeats a cell that is already there, so it covers no new cell. */
  lemma GrownCells(body: seq<Cell>, c: Cell)
    requires |body| >= 1
    ensures c in Grown(body) <==> c in body
  {
  }

  /**
   * A snake whose neck lies behind its head (body[1] is one step back
   * against the heading) never moves its head onto the neck unless it
   * turns to the opposite heading: the head cannot land on body[2] of
   * the moved snake.
   */
  lemma NoUTurn(body: seq<Cell>, direction: Direction, next: Direction)
    requires |body| >= 3
    requires body[0] == Step(body[1], direction)
    requires next != Opposite(direction)
    ensures Moved(body, next)[0] != Moved(body, next)[2]
  {
  }

  /** A food cell not on the body stays off it when the head does not reach it. */
  lemma FoodStaysFree(body: seq<Cell>, d: Direction, food: Cell)
    requires |body| >= 1
    requires food !in body
    requires Moved(body, d)[0] != food
    ensures food !in Moved(body, d)
  {
  }

  class Snake {
    var body: seq<Cell>
    var direction: Direction
    var nextDirection: Direction

    /**
     * The body has at least two segments, the second lies one step behind
     * the head along the committed heading, and the buffered heading is
     * never the reverse of the committed one.
     */
    ghost predicate Valid()
      reads this
    {
      |body| >= 2 &&
      body[0] == Step(body[1], direction) &&
      nextDirection != Opposite(direction)
    }

    constructor ()
      ensures Valid()
      ensures body == InitialBody
      ensures direction == Right && nextDirection == Right
    {
      body := InitialBody;
      direction := Right;
      nextDirection := Right;
    }

    /** Commits the buffered heading and advances the body by one cell. */
    method Move()
      requires Valid()
      modifies this
      ensures Valid()
      ensures direction == old(nextDirection)
      ensures nextDirection == old(nextDirection)
      ensures body == Moved(old(body), old(nextDirection))
    {
      direction := nextDirection;
      var head := body[0];
      match direction {
        case Up => head := head.(y := head.y - 1);
        case Down => head := head.(y := head.y + 1);
        case Left => head := head.(x := head.x - 1);
        case Right => head := head.(x := head.x + 1);
      }
      body := [head] + body;
      body := body[..|body| - 1];
    }

    /** Appends a copy of the tail cell. */
    method Grow()
      requires Valid()
      modifies this
      ensures Valid()
      ensures direction == old(direction) && nextDirection == old(nextDirection)
      ensures body == Grown(old(body))
    {
      var tail := body[|body| - 1];
      body := body + [tail];
    }

    /** Whether the head is off a gridSize board or on another segment. */
    method CheckCollision(gridSize: int) returns (hit: bool)
      requires Valid()
      ensures hit <==> Collides(body, gridSize)
    {
      var head := body[0];
      if head.x < 0 || head.x >= gridSize || head.y < 0 || head.y >= gridSize {
        return true;
      }
      var i := 1;
      while i < |body|
        invariant 1 <= i <= |body|
        invariant forall j :: 1 <= j < i ==> body[j] != head
      {
        if head.x == body[i].x && head.y == body[i].y {
          return true;
        }
        i := i + 1;
      }
      return false;
    }
  }
}
