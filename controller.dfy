/**
 * The game controller: owns the snake, the food cell, the score and the
 * high score, and the two flags that make up its state machine
 * (running, paused, over). Input handlers, the tick and the restart are
 * its methods.
 */
module Controller {
  import opened Grid
  import opened SnakeBody
  import opened Food

  datatype Option<T> = None | Some(value: T)

  /** The board is GridSize by GridSize cells. */
  const GridSize: int := 20

  /** Points scored for each food eaten. */
  const FoodPoints: int := 10

  /** The keys the keyboard handler tells apart; every other key is OtherKey. */
  datatype Key = Space | ArrowUp | ArrowDown | ArrowLeft | ArrowRight | OtherKey

  /** The heading an arrow key asks for, None for keys that steer nothing. */
  function KeyDirection(k: Key): (r: Option<Direction>)
    ensures r.None? <==> k == Space || k == OtherKey
    ensures r == Some(Up) <==> k == ArrowUp
    ensures r == Some(Down) <==> k == ArrowDown
    ensures r == Some(Left) <==> k == ArrowLeft
    ensures r == Some(Right) <==> k == ArrowRight
  {
    match k
    case ArrowUp => Some(Up)
    case ArrowDown => Some(Down)
    case ArrowLeft => Some(Left)
    case ArrowRight => Some(Right)
    case _ => None
  }

  /** The high score read at start-up: a missing or unreadable value is 0. */
  function LoadedHighScore(stored: Option<int>): (r: int)
    ensures r < 0 ==> stored == Some(r)
    ensures stored.None? ==> r == 0
  {
    if stored.Some? then stored.value else 0
  }

  /** The reversal guard: a heading is accepted unless the committed one is its opposite. */
  predicate Accepts(current: Direction, requested: Direction)
    ensures Accepts(current, requested) <==> requested != Opposite(current)
  {
    OppositeInvolutive(requested);
    current != Opposite(requested)
  }

  /** The buffered heading after one request, judged against the committed heading. */
  function Steered(current: Direction, pending: Direction, requested: Direction): (r: Direction)
    ensures r == requested || r == pending
    ensures Accepts(current, requested) ==> r == requested
    ensures r != pending ==> r == requested && current != Opposite(requested)
    ensures pending != Opposite(current) ==> r != Opposite(current)
  {
    if Accepts(current, requested) then requested else pending
  }

  /** The buffered heading after a run of requests between two ticks. */
  function SteeredAll(current: Direction, pending: Direction, requests: seq<Direction>): Direction
    decreases |requests|
  {
    if requests == [] then pending
    else SteeredAll(current, Steered(current, pending, requests[0]), requests[1..])
  }

  /**
   * However many requests arrive between two ticks, the buffered heading
   * never becomes the reverse of the committed one: every request is
   * judged against the same committed heading.
   */
  lemma {:induction false} SteeringNeverReverses(current: Direction, pending: Direction, requests: seq<Direction>)
    requires pending != Opposite(current)
    ensures SteeredAll(current, pending, requests) != Opposite(current)
    decreases |requests|
  {
    if requests != [] {
      var d := requests[0];
      if Accepts(current, d) {
        OppositeInvolutive(d);
      }
      SteeringNeverReverses(current, Steered(current, pending, d), requests[1..]);
    }
  }

  /** Requests arriving in two runs act as the first run followed by the second. */
  lemma {:induction false} SteeredAppend(current: Direction, pending: Direction, first: seq<Direction>, second: seq<Direction>)
    ensures SteeredAll(current, pending, first + second) ==
            SteeredAll(current, SteeredAll(current, pending, first), second)
    decreases |first|
  {
    if first == [] {
      assert first + second == second;
    } else {
      assert (first + second)[1..] == first[1..] + second;
      SteeredAppend(current, Steered(current, pending, first[0]), first[1..], second);
    }
  }

  /** A run of requests of which the guard accepts none leaves the buffered heading alone. */
  lemma {:induction false} NoneAccepted(current: Direction, pending: Direction, requests: seq<Direction>)
    requires forall i :: 0 <= i < |requests| ==> !Accepts(current, requests[i])
    ensures SteeredAll(current, pending, requests) == pending
    decreases |requests|
  {
    if requests != [] {
      NoneAccepted(current, pending, requests[1..]);
    }
  }

  /** Of a run of requests between two ticks, the last one the guard accepts wins. */
  lemma {:induction false} LastAcceptedWins(current: Direction, pending: Direction, requests: seq<Direction>, i: nat)
    requires i < |requests| && Accepts(current, requests[i])
    requires forall j :: i < j < |requests| ==> !Accepts(current, requests[j])
    ensures SteeredAll(current, pending, requests) == requests[i]
  {
    var upTo, after := requests[..i + 1], requests[i + 1..];
    assert requests == upTo + after;
    SteeredAppend(current, pending, upTo, after);
    assert upTo == requests[..i] + [requests[i]];
    SteeredAppend(current, pending, requests[..i], [requests[i]]);
    NoneAccepted(current, requests[i], after);
  }

  /** One tick from the start position with no input moves the body one cell right. */
  lemma FirstTick()
    ensures Moved(InitialBody, Right) == [Cell(11, 10), Cell(10, 10), Cell(9, 10)]
    ensures !Collides(Moved(InitialBody, Right), GridSize)
  {
  }

  /** A head on the left edge that moves left leaves the board. */
  lemma LeftEdgeCollision(body: seq<Cell>)
    requires |body| >= 1 && body[0] == Cell(0, 10)
    ensures Collides(Moved(body, Left), GridSize)
  {
  }

  class Game {
    const gridSize: int := GridSize
    var snake: Snake
    var food: Cell
    var score: int
    var highScore: int
    var isGameOver: bool
    var isPaused: bool

    /**
     * The snake's own invariant, the food on the board and off the body,
     * and a score made of whole food portions.
     */
    ghost predicate Valid()
      reads this, snake
    {
      snake.Valid() &&
      InGrid(food, gridSize) && food !in snake.body &&
      score >= 0 && score % FoodPoints == 0
    }

    /** A game before its first start; stored is the persisted high score, if any. */
    constructor (stored: Option<int>)
      ensures Valid()
      ensures fresh(snake)
      ensures snake.body == InitialBody && snake.direction == Right && snake.nextDirection == Right
      ensures score == 0 && !isGameOver && !isPaused
      ensures highScore == LoadedHighScore(stored)
    {
      var s := new Snake();
      FreeCellExists(s.body, GridSize);
      var f := GenerateFood(GridSize, s.body);
      snake := s;
      food := f;
      score := 0;
      isGameOver := false;
      isPaused := false;
      highScore := LoadedHighScore(stored);
    }

    /** Buffers heading d for the next tick if the reversal guard accepts it. */
    method Steer(d: Direction)
      requires Valid()
      modifies snake
      ensures Valid()
      ensures snake.body == old(snake.body) && snake.direction == old(snake.direction)
      ensures snake.nextDirection == Steered(snake.direction, old(snake.nextDirection), d)
    {
      if snake.direction != Opposite(d) {
        OppositeInvolutive(d);
        snake.nextDirection := d;
      }
    }

    /** The on-screen direction buttons: ignored while paused or over. */
    method HandleDirection(d: Direction)
      requires Valid()
      modifies snake
      ensures Valid()
      ensures snake.body == old(snake.body) && snake.direction == old(snake.direction)
      ensures snake.nextDirection ==
                if isPaused || isGameOver then old(snake.nextDirection)
                else Steered(snake.direction, old(snake.nextDirection), d)
    {
      if isPaused || isGameOver {
        return;
      }
      Steer(d);
    }

    /**
     * The keyboard: Space toggles pause unless the game is over; arrow keys
     * steer unless the game is paused (a finished game still accepts them).
     */
    method OnKeyDown(k: Key)
      requires Valid()
      modifies this, snake
      ensures Valid()
      ensures snake == old(snake)
      ensures snake.body == old(snake.body) && snake.direction == old(snake.direction)
      ensures food == old(food) && score == old(score) && highScore == old(highScore)
      ensures isGameOver == old(isGameOver)
      ensures isPaused == if k == Space && !isGameOver then !old(isPaused) else old(isPaused)
      ensures old(!(isPaused && isGameOver)) ==> !(isPaused && isGameOver)
      ensures snake.nextDirection ==
                if k == Space || isPaused || KeyDirection(k).None? then old(snake.nextDirection)
                else Steered(snake.direction, old(snake.nextDirection), KeyDirection(k).value)
    {
      if k == Space {
        if !isGameOver {
          TogglePause();
        }
        return;
      }
      if isPaused {
        return;
      }
      match k {
        case ArrowUp => Steer(Up);
        case ArrowDown => Steer(Down);
        case ArrowLeft => Steer(Left);
        case ArrowRight => Steer(Right);
        case OtherKey =>
      }
    }

    /** Flips the pause flag, unless the game is over. */
    method TogglePause()
      modifies this`isPaused
      ensures isPaused == if isGameOver then old(isPaused) else !old(isPaused)
      ensures old(!(isPaused && isGameOver)) ==> !(isPaused && isGameOver)
    {
      if !isGameOver {
        isPaused := !isPaused;
      }
    }

    /** Raises the high score to the score when the score is higher. */
    method UpdateScore()
      modifies this`highScore
      ensures highScore == if score > old(highScore) then score else old(highScore)
      ensures highScore >= old(highScore) && highScore >= score
    {
      if score > highScore {
        highScore := score;
      }
    }

    /** Ends the game. */
    method GameOver()
      modifies this`isGameOver
      ensures isGameOver
    {
      isGameOver := true;
    }

    /**
     * One tick. Nothing happens while the game is over or paused.
     * Otherwise the snake moves; if its head reaches the food it grows,
     * new food is placed on a free cell and the score rises by FoodPoints;
     * finally a collision ends the game. A tick whose head eats the food
     * must leave a free cell for the new food: when the head takes the last
     * free cell, food placement in game.js searches forever.
     */
    method Update()
      requires Valid()
      requires isGameOver || isPaused || |snake.body| < gridSize * gridSize ||
               Moved(snake.body, snake.nextDirection)[0] != food
      modifies this, snake
      ensures Valid()
      ensures snake == old(snake) && isPaused == old(isPaused)
      ensures old(isGameOver) || old(isPaused) ==> unchanged(this) && unchanged(snake)
      ensures !old(isGameOver) && !old(isPaused) ==>
                var moved := Moved(old(snake.body), old(snake.nextDirection));
                snake.direction == old(snake.nextDirection) &&
                snake.nextDirection == old(snake.nextDirection) &&
                (if moved[0] == old(food) then
                   snake.body == Grown(moved) &&
                   score == old(score) + FoodPoints &&
                   highScore == (if score > old(highScore) then score else old(highScore))
                 else
                   snake.body == moved && food == old(food) &&
                   score == old(score) && highScore == old(highScore)) &&
                isGameOver == Collides(snake.body, gridSize)
      ensures highScore >= old(highScore)
      ensures old(score <= highScore) ==> score <= highScore
      ensures old(!(isPaused && isGameOver)) ==> !(isPaused && isGameOver)
    {
      if isGameOver || isPaused {
        return;
      }
      ghost var before := snake.body;
      snake.Move();
      if snake.body[0] == food {
        ghost var moved := snake.body;
        FreeCellExists(moved, gridSize);
        ghost var c :| InGrid(c, gridSize) && c !in moved;
        GrownCells(moved, c);
        snake.Grow();
        food := GenerateFood(gridSize, snake.body);
        score := score + FoodPoints;
        UpdateScore();
      } else {
        FoodStaysFree(before, snake.direction, food);
      }
      var hit := snake.CheckCollision(gridSize);
      if hit {
        GameOver();
      }
    }

    /** Starts a fresh game: new snake, new food, score 0, running. */
    method StartGame()
      modifies this
      ensures Valid()
      ensures fresh(snake)
      ensures snake.body == InitialBody && snake.direction == Right && snake.nextDirection == Right
      ensures score == 0 && !isGameOver && !isPaused
      ensures highScore == if old(highScore) < 0 then 0 else old(highScore)
      ensures score <= highScore
    {
      snake := new Snake();
      FreeCellExists(snake.body, gridSize);
      food := GenerateFood(gridSize, snake.body);
      score := 0;
      isGameOver := false;
      isPaused := false;
      UpdateScore();
    }
  }
}
