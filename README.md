# Snake game state engine in Dafny

A model of the state-update engine of a browser snake game (`game.js`): the
snake's body and headings, its move, growth and collision rules, the reversal
guard on direction input, food placement on a free cell, and the game
controller's tick, pause, restart, game-over and score bookkeeping.

Modules, one per component of the program:

- `Grid` (`grid.dfy`): cells, the four headings, `Opposite` and the one-unit `Step`.
- `SnakeBody` (`snake.dfy`): the class `Snake` with its `seq<Cell>` body and the
  two heading fields, plus the specification functions `Moved`, `Grown` and
  `Collides` that its methods are proved against.
- `Food` (`food.dfy`): `GenerateFood` and a counting proof that a body shorter
  than the board's cell count always leaves a free cell.
- `Controller` (`controller.dfy`): the class `Game` (snake, food, score,
  high score, `isGameOver`, `isPaused`) and the reversal guard as functions
  (`Steered`, `SteeredAll`) with lemmas about runs of inputs between ticks.

Class invariants. `Snake.Valid()` says the body has at least two segments, the
second segment lies one step behind the head along the committed heading, and
the buffered heading is never the reverse of the committed one. `Game.Valid()`
adds that the food is on the board and off the body and that the score is a
non-negative multiple of 10. Every method of both classes keeps them.

Behaviour of the code worth noting:

- The reversal guard compares a request with the committed `direction`, never
  with the pending `nextDirection`. So two quick inputs before one tick cannot
  reverse the snake: `SteeringNeverReverses` proves the pending heading never
  becomes the opposite of the committed one, however many requests arrive, and
  `NoUTurn` proves the head then never lands on the neck.
- The keyboard handler ignores arrow keys only while paused; after game over
  they still change `nextDirection` (the touch buttons ignore both states).
  `OnKeyDown` models this as written.
- A stored high score is taken as parsed, so a negative stored value stays
  negative until `startGame` runs `updateScore`. `score <= highScore` is
  therefore established by `StartGame` and kept by `Update`, not by the
  constructor.
- The first tick after a start moves the body to `[(11,10),(10,10),(9,10)]` only
  if the randomly placed food is not on (11,10); otherwise the snake eats on
  its first tick. `FirstTick` states the move itself.

## Model

| member | source | states |
|---|---|---|
| `Grid.Opposite` | game.js:81-90 | the forbidden turn for each heading is a different heading on the same axis |
| `Grid.Step` | game.js:16-21 | the new head is exactly one unit from the old one: y-1 for up, y+1 for down, x-1 for left, x+1 for right, the other coordinate unchanged |
| `SnakeBody.Moved` | game.js:12-25 | the moved body has the same length, its head is the old head stepped once in the heading, and segment i is the old segment i-1 for every i >= 1 |
| `SnakeBody.Grown` | game.js:27-30 | growing adds exactly one segment, keeps every existing segment in place and the new last segment equals the old tail |
| `SnakeBody.Collides` | game.js:34-41 | the collision rule: the head is outside [0,gridSize) in x or y, or equals body[i] for some i >= 1 |
| `SnakeBody.GrownCells` | game.js:27-30 | growing covers exactly the cells the body already covered |
| `SnakeBody.NoUTurn` | game.js:12-25 | when the pending heading is not the reverse of the committed one, the moved head never lands on the old head's predecessor |
| `SnakeBody.FoodStaysFree` | game.js:149-157 | a food cell off the body stays off it after a move whose new head is elsewhere |
| `SnakeBody.Snake.constructor` | game.js:2-10 | a new snake has body (10,10),(9,10),(8,10) and both headings right |
| `SnakeBody.Snake.Move` | game.js:12-25 | commits nextDirection into direction, leaves nextDirection as it was and replaces the body by its one-cell shift (`Moved`) in that heading |
| `SnakeBody.Snake.Grow` | game.js:27-30 | the body becomes `Grown` of the old body; the headings do not change |
| `SnakeBody.Snake.CheckCollision` | game.js:32-43 | returns true iff the head is outside [0,gridSize) in x or y or equals body[i] for some i >= 1; changes nothing |
| `Food.FreeCellExists` | game.js:134-144 | a body with fewer segments than gridSize squared leaves some board cell uncovered, so the rejection draw can stop |
| `Food.GenerateFood` | game.js:134-144 | the food cell is on the board (0 <= x,y < gridSize) and equals no segment of the body |
| `Controller.KeyDirection` | game.js:79-92 | each arrow key asks for its own heading; Space and every other key ask for none |
| `Controller.LoadedHighScore` | game.js:65 | a missing or unparsable stored high score gives 0, and a negative high score can only come from storage |
| `Controller.Accepts` | game.js:81-90 | the guard accepts a requested heading exactly when it is not the reverse of the committed heading |
| `Controller.Steered` | game.js:106-115 | one request replaces the pending heading exactly when the committed heading is not its opposite, and otherwise leaves it; a pending heading that was not reversed stays not reversed |
| `Controller.SteeringNeverReverses` | game.js:81-90 | after any run of direction requests between two ticks, the pending heading is not the reverse of the committed one |
| `Controller.LastAcceptedWins` | game.js:106-115 | of a run of direction requests, the last one the guard accepts is the pending heading |
| `Controller.NoneAccepted` | game.js:106-115 | a run of requests that the guard all rejects leaves the pending heading unchanged |
| `Controller.SteeredAppend` | game.js:106-115 | two successive runs of requests act as their concatenation |
| `Controller.FirstTick` | game.js:2-25 | one move from the start position with heading right gives body (11,10),(10,10),(9,10), which does not collide |
| `Controller.LeftEdgeCollision` | game.js:32-36 | a head at (0,10) that moves left collides with the board edge |
| `Controller.Game.constructor` | game.js:47-67 | a fresh snake, food on a free board cell, score 0, not over, not paused, and the high score loaded from storage or 0 |
| `Controller.Game.Steer` | game.js:80-91 | sets nextDirection to d exactly when the committed direction is not the opposite of d; body and direction unchanged |
| `Controller.Game.HandleDirection` | game.js:102-118 | a touch request is ignored while paused or over, otherwise passed through the reversal guard |
| `Controller.Game.OnKeyDown` | game.js:70-93 | Space toggles pause unless over and steers nothing; arrows steer through the guard unless paused; nothing else changes, and a game that is not both paused and over never becomes so |
| `Controller.Game.TogglePause` | game.js:126-132 | flips isPaused iff not over, otherwise leaves it, so it never makes a finished game paused |
| `Controller.Game.UpdateScore` | game.js:165-172 | highScore becomes score if score is higher and is otherwise unchanged, so it never decreases and ends at least score |
| `Controller.Game.GameOver` | game.js:254-258 | sets isGameOver |
| `Controller.Game.Update` | game.js:146-163 | callable in every state except a tick whose head eats the food on the last free cell; no change at all while over or paused; otherwise the snake moves, and if the new head is on the food it grows, the score rises by exactly 10, the high score is raised to it and new food is placed off the body, while otherwise body length, food, score and high score are kept; isGameOver becomes the collision test of the new body; paused and over never hold together afterwards unless they did before |
| `Controller.Game.StartGame` | game.js:240-252 | a fresh snake at the start position, food on a free cell, score 0, running and unpaused, high score raised to at least 0 |

## Left out

- Rendering (`draw`, canvas calls, fonts, overlay text) and DOM wiring (element lookups, event listeners, button labels, the score text written by `updateScore` and `updateHighScore`): display only. The keyboard event becomes a `Key` value and each touch button a `Direction` argument.
- Storage of the high score: the loaded value is the constructor's `Option<int>` argument (None for a missing or unparsable entry); saving it is an effect the model does not observe.
- The interval timer (`setInterval`, `clearInterval`, the 150 ms cadence, the `gameLoop` handle and `loop`): one call of `Update` is one tick.
- `Math.random` and `Math.floor` in food placement: `GenerateFood` chooses any free cell nondeterministically instead of repeating random draws, so the distribution of the food cell and the number of draws are not modelled.
- Food.GenerateFood: requires a free cell to exist; on a full board game.js's draw loop never ends, which the model does not represent.
- Controller.Game.Update: excludes only the tick whose new head eats the food while the body already has gridSize² segments, so that the head takes the last free cell; there game.js loops forever inside food placement. Ticks on such a full body whose head misses the food are modelled and end the game by collision.
- SnakeBody.Snake.Move, SnakeBody.Snake.Grow, SnakeBody.Snake.CheckCollision: require the snake invariant (at least two segments, neck behind the head, pending heading not reversed), which every snake the program builds satisfies; bodies it never builds, such as an empty one, are not modelled.
- Scores are unbounded integers; the precision limit of JavaScript numbers is not modelled.
