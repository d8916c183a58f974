/**
 The pure rules of the Snake game in src/components/SnakeGame.jsx: the board,
 the DIRECTIONS table and its opposites, the decoding of arrow keys, the
 wrap-around step of the head, the rule that rejects a reversing intent, and
 the head/body/food/empty classification of a board cell.
 */
module SnakeRules {

  datatype Option<T> = None | Some(value: T)

  /** Side length of the square board (BOARD_SIZE). */
  const BoardSize: int := 20

  /** A board position; x grows to the right, y grows downwards. */
  datatype Cell = Cell(x: int, y: int)

  /** The four headings, written "ArrowUp" ... "ArrowRight" by the source. */
  datatype Direction = Up | Down | Left | Right

  /** What a board cell shows when it is drawn. */
  datatype CellKind = HeadCell | BodyCell | FoodCell | EmptyCell

  predicate OnBoard(c: Cell) {
    0 <= c.x < BoardSize && 0 <= c.y < BoardSize
  }

  predicate AllOnBoard(s: seq<Cell>) {
    forall i :: 0 <= i < |s| ==> OnBoard(s[i])
  }

  /** No cell occurs twice in s. */
  predicate Distinct(s: seq<Cell>) {
    forall i, j :: 0 <= i < j < |s| ==> s[i] != s[j]
  }

  /** Some draw in draws is a cell that occupied does not hold. */
  predicate FreeDrawExists(occupied: seq<Cell>, draws: seq<Cell>) {
    exists i :: 0 <= i < |draws| && draws[i] !in occupied
  }

  // ---------------------------------------------------------------------
  // Directions and keys

  /** The DIRECTIONS table: the unit step of each heading. */
  function Vector(d: Direction): (v: (int, int))
    ensures (v.0 == 0) != (v.1 == 0)
    ensures -1 <= v.0 <= 1 && -1 <= v.1 <= 1
  {
    match d
    case Up => (0, -1)
    case Down => (0, 1)
    case Left => (-1, 0)
    case Right => (1, 0)
  }

  /** The `opposite` table of the key and touch handlers: the heading whose
      step undoes the step of d. */
  function Opposite(d: Direction): (r: Direction)
    ensures r != d
    ensures Vector(r) == (-Vector(d).0, -Vector(d).1)
  {
    match d
    case Up => Down
    case Down => Up
    case Left => Right
    case Right => Left
  }

  /** The two `opposite` tables pair the headings off. */
  lemma OppositeIsInvolution(d: Direction)
    ensures Opposite(Opposite(d)) == d
  {
  }

  /** The key name the source uses for a heading. */
  function KeyName(d: Direction): string {
    match d
    case Up => "ArrowUp"
    case Down => "ArrowDown"
    case Left => "ArrowLeft"
    case Right => "ArrowRight"
  }

  /** The lookup `DIRECTIONS[key]`: an arrow key names a heading, every
      other key names none. */
  function ParseKey(key: string): (r: Option<Direction>)
    ensures r.Some? ==> KeyName(r.value) == key
    ensures forall d :: key == KeyName(d) ==> r == Some(d)
  {
    if key == "ArrowUp" then Some(Up)
    else if key == "ArrowDown" then Some(Down)
    else if key == "ArrowLeft" then Some(Left)
    else if key == "ArrowRight" then Some(Right)
    else None
  }

  /** The key a touch button produces: `Arrow${dir}`. */
  function TouchKey(dir: string): string {
    "Arrow" + dir
  }

  /** The name an on-screen button passes for a heading. */
  function ButtonName(d: Direction): string {
    match d
    case Up => "Up"
    case Down => "Down"
    case Left => "Left"
    case Right => "Right"
  }

  /** Each on-screen button forms its heading's arrow-key name. */
  lemma TouchMatchesKeys(d: Direction)
    ensures ParseKey(TouchKey(ButtonName(d))) == Some(d)
  {
  }

  // ---------------------------------------------------------------------
  // Movement

  /** One coordinate after a step, wrapped the way the source does it: a
      coordinate below the board goes to the last row or column, one past
      the board goes to 0. */
  function Wrap(v: int): (r: int)
    ensures 0 <= r < BoardSize
    ensures 0 <= v < BoardSize ==> r == v
    ensures -1 <= v <= BoardSize ==> r == v % BoardSize
  {
    if v < 0 then BoardSize - 1
    else if v >= BoardSize then 0
    else v
  }

  /** The new head: the old head moved one step in heading d, wrapped on
      both axes. On the board, this is the step reduced modulo the size. */
  function NextHead(head: Cell, d: Direction): (r: Cell)
    ensures OnBoard(r)
    ensures OnBoard(head) ==>
      r == Cell((head.x + Vector(d).0) % BoardSize, (head.y + Vector(d).1) % BoardSize)
  {
    var v := Vector(d);
    Cell(Wrap(head.x + v.0), Wrap(head.y + v.1))
  }

  /** Moving off one edge lands on the opposite edge. */
  lemma EdgesWrap(head: Cell)
    requires OnBoard(head)
    ensures head.x == 0 ==> NextHead(head, Left) == Cell(BoardSize - 1, head.y)
    ensures head.x == BoardSize - 1 ==> NextHead(head, Right) == Cell(0, head.y)
    ensures head.y == 0 ==> NextHead(head, Up) == Cell(head.x, BoardSize - 1)
    ensures head.y == BoardSize - 1 ==> NextHead(head, Down) == Cell(head.x, 0)
  {
  }

  /** Heading Left from (0, 5) lands on (19, 5). */
  lemma WrapScenario()
    ensures NextHead(Cell(0, 5), Left) == Cell(19, 5)
  {
  }

  /** The second step away from the head undoes the first: a snake that
      reversed would run into the segment right behind its head. */
  lemma StepThenReverse(head: Cell, d: Direction)
    requires OnBoard(head)
    ensures NextHead(NextHead(head, d), Opposite(d)) == head
  {
  }

  // ---------------------------------------------------------------------
  // The snake body across one tick

  /** Prepending a head that is not on the snake keeps the cells distinct
      and on the board; this is the growing move. */
  lemma GrowKeepsShape(prev: seq<Cell>, head: Cell)
    requires Distinct(prev) && AllOnBoard(prev)
    requires OnBoard(head) && head !in prev
    ensures Distinct([head] + prev) && AllOnBoard([head] + prev)
  {
  }

  /** Prepending a head that is not on the snake and dropping the tail keeps
      the cells distinct and on the board, and the length unchanged; this is
      the ordinary move. */
  lemma SlideKeepsShape(prev: seq<Cell>, head: Cell)
    requires |prev| >= 1
    requires Distinct(prev) && AllOnBoard(prev)
    requires OnBoard(head) && head !in prev
    ensures var s := [head] + prev[..|prev| - 1];
      |s| == |prev| && Distinct(s) && AllOnBoard(s)
  {
  }

  // ---------------------------------------------------------------------
  // Steering

  /** The queued heading after an input `intent` (None for a key that is
      not an arrow), given the applied heading and the queued one: an
      intent that reverses the applied heading is dropped, any other
      intent replaces the queue. The queue never comes to hold a reversal
      of the applied heading. */
  function Steer(applied: Direction, queued: Direction, intent: Option<Direction>): (r: Direction)
    ensures queued != Opposite(applied) ==> r != Opposite(applied)
    ensures r == queued || intent == Some(r)
  {
    match intent
    case None => queued
    case Some(d) => if d == Opposite(applied) then queued else d
  }

  /** An arrow that reverses the applied heading changes nothing. */
  lemma ReversalRejected(applied: Direction, queued: Direction)
    ensures Steer(applied, queued, Some(Opposite(applied))) == queued
  {
  }

  /** A key that is not an arrow changes nothing. */
  lemma UnknownKeyIgnored(applied: Direction, queued: Direction, key: string)
    requires key !in {"ArrowUp", "ArrowDown", "ArrowLeft", "ArrowRight"}
    ensures Steer(applied, queued, ParseKey(key)) == queued
  {
  }

  /** Within one tick the last accepted intent wins, whatever came before. */
  lemma LastWriterWins(applied: Direction, queued: Direction, first: Option<Direction>, d: Direction)
    requires d != Opposite(applied)
    ensures Steer(applied, Steer(applied, queued, first), Some(d)) == d
  {
  }

  // ---------------------------------------------------------------------
  // Drawing

  /** renderCell: the head wins over the body, the body over the food, the
      food over an empty cell. */
  function RenderCell(snake: seq<Cell>, food: Cell, c: Cell): (k: CellKind)
    requires |snake| >= 1
    ensures k == HeadCell <==> c == snake[0]
    ensures k == BodyCell <==> c != snake[0] && c in snake
    ensures k == FoodCell <==> c !in snake && c == food
    ensures k == EmptyCell <==> c !in snake && c != food
  {
    var isHead := snake[0] == c;
    var isBody := exists i :: 1 <= i < |snake| && snake[i] == c;
    var isFood := food == c;
    if isHead then HeadCell
    else if isBody then BodyCell
    else if isFood then FoodCell
    else EmptyCell
  }

  /** On a snake without repeated cells, exactly one cell is drawn as the
      head and every later segment is drawn as body. */
  lemma RenderSegments(snake: seq<Cell>, food: Cell, i: nat)
    requires Distinct(snake) && i < |snake|
    ensures RenderCell(snake, food, snake[i]) == (if i == 0 then HeadCell else BodyCell)
  {
  }
}
