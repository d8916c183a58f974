/**
 The state of the SnakeGame component in src/components/SnakeGame.jsx and
 its transitions: the timer tick (moveSnake), keyboard and touch input, and
 restart. The random food cells are supplied by the caller.
 */
module SnakeGame {
  import opened SnakeRules

  /** The reason shown after the snake runs into itself. */
  const CollisionReason: string := "You ran into yourself!"

  /** The `.some` scan of moveSnake: is c one of the cells of s? */
  method Contains(s: seq<Cell>, c: Cell) returns (found: bool)
    ensures found <==> c in s
  {
    var i := 0;
    while i < |s|
      invariant 0 <= i <= |s|
      invariant forall j :: 0 <= j < i ==> s[j] != c
    {
      if s[i] == c {
        return true;
      }
      i := i + 1;
    }
    return false;
  }

  /** The do..while loop that re-places the food: it takes the random draws
      in order and keeps the first one that is not on the snake. Returns
      that cell and its index in draws. */
  method PickFood(occupied: seq<Cell>, draws: seq<Cell>) returns (food: Cell, k: nat)
    requires FreeDrawExists(occupied, draws)
    ensures k < |draws| && food == draws[k]
    ensures food !in occupied
    ensures forall j :: 0 <= j < k ==> draws[j] in occupied
  {
    k := 0;
    food := draws[0];
    var taken := Contains(occupied, food);
    while taken
      invariant k < |draws| && food == draws[k]
      invariant taken <==> food in occupied
      invariant forall j :: 0 <= j < k ==> draws[j] in occupied
      invariant exists i :: k <= i < |draws| && draws[i] !in occupied
      decreases |draws| - k
    {
      k := k + 1;
      food := draws[k];
      taken := Contains(occupied, food);
    }
  }

  class Game {
    var snake: seq<Cell>          // head first
    var direction: Direction      // the heading applied by the last tick
    var nextDirection: Direction  // the heading queued for the next tick
    var food: Cell
    var isGameOver: bool
    var gameOverReason: string
    var score: nat

    /** The invariant every transition keeps: the snake has at least two
        cells, all on the board and pairwise distinct, and one more cell
        than the starting two for each point scored; the food is on the
        board; the queued heading never reverses the applied one; the
        reason is set exactly when the game is over. */
    ghost predicate Valid()
      reads this
    {
      && |snake| == score + 2
      && AllOnBoard(snake)
      && Distinct(snake)
      && OnBoard(food)
      && nextDirection != Opposite(direction)
      && gameOverReason == (if isGameOver then CollisionReason else "")
    }

    /** The state the component starts in; `initialFood` stands for the
        random first food cell. */
    constructor (initialFood: Cell)
      requires OnBoard(initialFood)
      ensures Valid()
      ensures snake == [Cell(8, 10), Cell(7, 10)]
      ensures direction == Right && nextDirection == Right
      ensures food == initialFood
      ensures !isGameOver && gameOverReason == "" && score == 0
    {
      snake := [Cell(8, 10), Cell(7, 10)];
      direction := Right;
      nextDirection := Right;
      food := initialFood;
      isGameOver := false;
      gameOverReason := "";
      score := 0;
    }

    /** restart: back to the starting snake and headings, with a new random
        food cell `newFood`; harmless while the game is running. */
    method Restart(newFood: Cell)
      requires OnBoard(newFood)
      modifies this
      ensures Valid()
      ensures snake == [Cell(8, 10), Cell(7, 10)]
      ensures direction == Right && nextDirection == Right
      ensures food == newFood
      ensures !isGameOver && gameOverReason == "" && score == 0
    {
      snake := [Cell(8, 10), Cell(7, 10)];
      direction := Right;
      nextDirection := Right;
      food := newFood;
      isGameOver := false;
      gameOverReason := "";
      score := 0;
    }

    /** handleKey: an arrow key queues its heading unless it reverses the
        applied heading; every other key is ignored. */
    method KeyInput(key: string)
      requires Valid()
      modifies this`nextDirection
      ensures Valid()
      ensures nextDirection == Steer(direction, old(nextDirection), ParseKey(key))
    {
      var intent := ParseKey(key);
      if intent.Some? {
        nextDirection := if intent.value == Opposite(direction) then nextDirection else intent.value;
      }
    }

    /** handleTouchControl: the on-screen button `dir` ("Up", "Down", "Left"
        or "Right") acts as the key `Arrow${dir}`. */
    method TouchInput(dir: string)
      requires Valid()
      modifies this`nextDirection
      ensures Valid()
      ensures nextDirection == Steer(direction, old(nextDirection), ParseKey(TouchKey(dir)))
    {
      var intent := ParseKey(TouchKey(dir));
      if intent.Some? && intent.value != Opposite(direction) {
        nextDirection := intent.value;
      }
    }

    /** moveSnake, run once per timer tick while the game is not over.
        `draws` stands for the successive results of getRandomPosition;
        when the snake eats, one of them must be free, since the source
        keeps drawing until it finds a free cell. */
    method Tick(draws: seq<Cell>)
      requires Valid() && !isGameOver
      requires forall i :: 0 <= i < |draws| ==> OnBoard(draws[i])
      requires var h := NextHead(snake[0], nextDirection);
        h !in snake && h == food ==> FreeDrawExists([h] + snake, draws)
      modifies this
      ensures Valid()
      ensures direction == old(nextDirection) && nextDirection == old(nextDirection)
      ensures var h := NextHead(old(snake)[0], old(nextDirection));
        if h in old(snake) then
          // self-collision, the tail's cell included: the game stops
          && isGameOver && gameOverReason == CollisionReason
          && snake == old(snake) && food == old(food) && score == old(score)
        else if h == old(food) then
          // eating: grow by the new head, score one, re-place the food
          && !isGameOver
          && snake == [h] + old(snake)
          && score == old(score) + 1
          && food !in snake
          // the food is the first draw off the new snake
          && exists k :: 0 <= k < |draws| && food == draws[k]
               && forall j :: 0 <= j < k ==> draws[j] in snake
        else
          // an ordinary move: the new head in, the tail out
          && !isGameOver
          && snake == [h] + old(snake)[..|old(snake)| - 1]
          && food == old(food) && score == old(score)
    {
      direction := nextDirection;
      var newHead := NextHead(snake[0], nextDirection);
      var collided := Contains(snake, newHead);
      if collided {
        isGameOver := true;
        gameOverReason := CollisionReason;
        return;
      }
      var hasEaten := newHead == food;
      var newSnake := [newHead] + snake;
      if !hasEaten {
        SlideKeepsShape(snake, newHead);
        newSnake := newSnake[..|newSnake| - 1];
        assert newSnake == [newHead] + snake[..|snake| - 1];
      } else {
        GrowKeepsShape(snake, newHead);
        var newFood, _ := PickFood(newSnake, draws);
        food := newFood;
        score := score + 1;
      }
      snake := newSnake;
    }
  }

  /** Eating straight ahead from the starting position: the snake grows by
      its new head, the score becomes 1 and the food moves to the first
      free draw. */
  method EatScenario()
  {
    var g := new Game(Cell(9, 10));
    assert NextHead(Cell(8, 10), Right) == Cell(9, 10);
    var draws := [Cell(8, 10), Cell(0, 0), Cell(1, 1)];
    assert draws[1] !in [Cell(9, 10)] + g.snake;
    g.Tick(draws);
    assert g.snake == [Cell(9, 10), Cell(8, 10), Cell(7, 10)];
    assert g.score == 1 && g.food == Cell(0, 0);
  }

  /** A reversal is judged against the applied heading, not the queued one:
      Left is refused until a tick has applied Up. */
  method SteerScenario()
  {
    var g := new Game(Cell(0, 0));
    g.KeyInput("ArrowLeft");   // reverses Right: dropped
    assert g.nextDirection == Right;
    g.KeyInput("a");           // not an arrow: ignored
    assert g.nextDirection == Right;
    g.TouchInput("Up");
    assert g.nextDirection == Up;
    g.KeyInput("ArrowLeft");   // still reverses the applied Right: dropped
    assert g.nextDirection == Up;
    assert NextHead(Cell(8, 10), Up) == Cell(8, 9);
    g.Tick([]);
    assert g.direction == Up && g.snake == [Cell(8, 9), Cell(8, 10)];
    g.KeyInput("ArrowLeft");   // Left is accepted once Up is applied
    assert g.nextDirection == Left;
  }

  /** Stepping onto the cell the tail is about to leave still counts as
      running into the snake. The four-cell snake below, heading Up with
      Left queued, is reached in play by eating twice going Right from the
      start and then turning Up, Left and Down; here it is set up directly. */
  method TailScenario()
  {
    var g := new Game(Cell(5, 5));
    g.snake := [Cell(1, 0), Cell(1, 1), Cell(0, 1), Cell(0, 0)];
    g.score := 2;
    g.direction := Up;
    g.nextDirection := Left;
    assert NextHead(Cell(1, 0), Left) == Cell(0, 0);
    g.Tick([]);   // (0, 0) is the tail's cell
    assert g.isGameOver && g.gameOverReason == CollisionReason;
    assert g.snake == [Cell(1, 0), Cell(1, 1), Cell(0, 1), Cell(0, 0)] && g.score == 2;
  }
}
