/**
  One tick of the snake game: turning on a key, moving the head, eating or
  dropping the tail, re-timing after a meal, and detecting collisions. The
  whole game state is an immutable value; a tick maps it to the next one.
  Cells are (row, column) with row 0 at the top of the terminal.
 */
module Snake {
  import opened Wrappers

  /** The curses key codes of the four arrow keys. */
  const KeyDown: int := 258
  const KeyUp: int := 259
  const KeyLeft: int := 260
  const KeyRight: int := 261

  /** What `getch` returns when no key arrived before the tick's timeout. */
  const NoKey: int := -1

  /** The terminal must be at least this large before the game loop runs. */
  const MinHeight: int := 20
  const MinWidth: int := 60

  /** Tick timeout in milliseconds at the start and its floor. */
  const BaseTimeout: int := 100
  const MinTimeout: int := 50

  datatype Direction = Up | Down | Left | Right

  datatype Cell = Cell(row: int, col: int)

  datatype Game = Game(
    snake: seq<Cell>,    // head first
    food: Cell,
    dir: Direction,
    score: int,
    timeout: int,        // milliseconds the next `getch` waits
    over: bool)

  /** The direction an arrow key names; other keys name none. */
  function ArrowKey(key: int): Option<Direction>
  {
    if key == KeyUp then Some(Up)
    else if key == KeyDown then Some(Down)
    else if key == KeyLeft then Some(Left)
    else if key == KeyRight then Some(Right)
    else None
  }

  function Opposite(d: Direction): Direction
  {
    match d
    case Up => Down
    case Down => Up
    case Left => Right
    case Right => Left
  }

  /**
    The heading after `key`: an arrow key turns the snake unless it points
    straight back; every other key keeps the heading.
   */
  function Turn(d: Direction, key: int): (d': Direction)
    ensures ArrowKey(key).None? ==> d' == d
    ensures ArrowKey(key) == Some(Opposite(d)) ==> d' == d
    ensures ArrowKey(key).Some? && ArrowKey(key).value != Opposite(d) ==> d' == ArrowKey(key).value
  {
    if (key == KeyUp && d != Down) || (key == KeyDown && d != Up)
       || (key == KeyLeft && d != Right) || (key == KeyRight && d != Left)
    then ArrowKey(key).value
    else d
  }

  /** Two cells share a side. */
  predicate Adjacent(a: Cell, b: Cell)
  {
    (a.row == b.row && (a.col - b.col == 1 || b.col - a.col == 1))
    || (a.col == b.col && (a.row - b.row == 1 || b.row - a.row == 1))
  }

  /** The neighbour of `c` one step towards `d`. */
  function Move(c: Cell, d: Direction): (n: Cell)
    ensures Adjacent(c, n)
    ensures d == Up ==> n.row < c.row
    ensures d == Down ==> n.row > c.row
    ensures d == Left ==> n.col < c.col
    ensures d == Right ==> n.col > c.col
  {
    match d
    case Up => Cell(c.row - 1, c.col)
    case Down => Cell(c.row + 1, c.col)
    case Left => Cell(c.row, c.col - 1)
    case Right => Cell(c.row, c.col + 1)
  }

  /** The head touches or passes the border (row 0 is the border and score line). */
  predicate HitsWall(c: Cell, height: int, width: int)
  {
    c.row <= 0 || c.row >= height - 2 || c.col <= 0 || c.col >= width - 2
  }

  /** The rectangle food is drawn from: two cells clear of every border. */
  predicate InFoodArea(c: Cell, height: int, width: int)
  {
    2 <= c.row <= height - 3 && 2 <= c.col <= width - 3
  }

  /** Every draw lies where the random row and column draws can fall. */
  predicate DrawsInFoodArea(draws: seq<Cell>, height: int, width: int)
  {
    forall i :: 0 <= i < |draws| ==> InFoodArea(draws[i], height, width)
  }

  /**
    Food placement: the first random draw that is not on the snake. The
    source redraws forever; `None` means the supplied draws ran out before
    one missed the snake.
   */
  function CreateFood(height: int, width: int, snake: seq<Cell>, draws: seq<Cell>): (r: Option<Cell>)
    requires DrawsInFoodArea(draws, height, width)
    ensures r.Some? ==> InFoodArea(r.value, height, width) && r.value !in snake
    ensures r.None? <==> forall i :: 0 <= i < |draws| ==> draws[i] in snake
    ensures r.Some? ==> exists k :: 0 <= k < |draws| && draws[k] == r.value
                                    && forall i :: 0 <= i < k ==> draws[i] in snake
  {
    if |draws| == 0 then None
    else if draws[0] !in snake then Some(draws[0])
    else
      var r := CreateFood(height, width, snake, draws[1..]);
      assert forall i :: 1 <= i < |draws| ==> draws[i] == draws[1..][i - 1];
      if r.Some? then
        var k :| 0 <= k < |draws[1..]| && draws[1..][k] == r.value
                 && forall i :: 0 <= i < k ==> draws[1..][i] in snake;
        assert draws[k + 1] == r.value;
        r
      else r
  }

  /** The tick timeout after a meal: 5 ms faster per 50 points, never below 50 ms. */
  function Timeout(score: int): (t: int)
    ensures t >= MinTimeout
    ensures score >= 0 ==> t <= BaseTimeout
    ensures 0 <= score < 50 ==> t == BaseTimeout
    ensures score >= 500 ==> t == MinTimeout
  {
    // Python's `score // 50` floors; Dafny's `/` agrees for a positive divisor.
    var t := BaseTimeout - (score / 50) * 5;
    if t < MinTimeout then MinTimeout else t
  }

  /** The game ends when the new head hits a wall or lands on the rest of the body. */
  predicate Collides(snake: seq<Cell>, height: int, width: int)
    requires |snake| > 0
  {
    HitsWall(snake[0], height, width) || snake[0] in snake[1..]
  }

  /**
    One tick of the game loop with the key `getch` returned. When the head
    reaches the food the score grows by `foodValue`, the body keeps its tail,
    new food is drawn from `draws` and the timeout is recomputed; otherwise
    the tail cell is dropped. Collisions are judged on the resulting body.
   */
  function Step(g: Game, key: int, foodValue: int, height: int, width: int, draws: seq<Cell>): (r: Option<Game>)
    requires |g.snake| > 0
    requires DrawsInFoodArea(draws, height, width)
    // `None` only when the head meets the food and every supplied draw lands on the grown body
    ensures r.None? <==> && Move(g.snake[0], Turn(g.dir, key)) == g.food
                         && forall i :: 0 <= i < |draws| ==> draws[i] in [Move(g.snake[0], Turn(g.dir, key))] + g.snake
    ensures r.Some? ==> |r.value.snake| > 0
    ensures r.Some? ==> r.value.dir == Turn(g.dir, key)
    ensures r.Some? ==> r.value.snake[0] == Move(g.snake[0], r.value.dir)
    ensures r.Some? ==> (r.value.over <==> Collides(r.value.snake, height, width))
    // eating: the body grows by the new head, score and speed go up, food moves off the body
    ensures r.Some? && r.value.snake[0] == g.food ==>
              && r.value.snake == [r.value.snake[0]] + g.snake
              && r.value.score == g.score + foodValue
              && r.value.timeout == Timeout(r.value.score)
              && InFoodArea(r.value.food, height, width)
              && r.value.food !in r.value.snake
    // not eating: the body shifts by one, nothing else changes
    ensures r.Some? && r.value.snake[0] != g.food ==>
              && r.value.snake == [r.value.snake[0]] + g.snake[..|g.snake| - 1]
              && |r.value.snake| == |g.snake|
              && r.value.score == g.score
              && r.value.timeout == g.timeout
              && r.value.food == g.food
  {
    var dir := Turn(g.dir, key);
    var head := Move(g.snake[0], dir);
    var grown := [head] + g.snake;
    if head == g.food then
      match CreateFood(height, width, grown, draws)
      case None => None
      case Some(food) =>
        var score := g.score + foodValue;
        Some(Game(grown, food, dir, score, Timeout(score), Collides(grown, height, width)))
    else
      var body := grown[..|grown| - 1];
      Some(Game(body, g.food, dir, g.score, g.timeout, Collides(body, height, width)))
  }

  /** The terminal passes the size check that guards the game loop. */
  predicate BoardFits(height: int, width: int)
  {
    height >= MinHeight && width >= MinWidth
  }

  /**
    The game as the loop starts it: three cells heading right from the
    middle row, a quarter of the way across, with food drawn off the body.
   */
  function Start(height: int, width: int, draws: seq<Cell>): (r: Option<Game>)
    requires BoardFits(height, width)
    requires DrawsInFoodArea(draws, height, width)
    ensures r.None? <==> forall i :: 0 <= i < |draws| ==>
                           draws[i] in [Cell(height / 2, width / 4), Cell(height / 2, width / 4 - 1), Cell(height / 2, width / 4 - 2)]
    ensures r.Some? ==> |r.value.snake| == 3 && r.value.score == 0 && !r.value.over
    ensures r.Some? ==> r.value.dir == Right && r.value.timeout == BaseTimeout
    ensures r.Some? ==> r.value.snake[0] == Cell(height / 2, width / 4)
    ensures r.Some? ==> r.value.snake[1] == Move(r.value.snake[0], Left) && r.value.snake[2] == Move(r.value.snake[1], Left)
    ensures r.Some? ==> forall i :: 0 <= i < 3 ==> !HitsWall(r.value.snake[i], height, width)
    ensures r.Some? ==> InFoodArea(r.value.food, height, width) && r.value.food !in r.value.snake
  {
    var y := height / 2;
    var x := width / 4;
    var snake := [Cell(y, x), Cell(y, x - 1), Cell(y, x - 2)];
    match CreateFood(height, width, snake, draws)
    case None => None
    case Some(food) => Some(Game(snake, food, Right, 0, BaseTimeout, false))
  }
}
