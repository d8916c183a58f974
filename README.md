# Snake game: state machine model

This project models the game logic of the `SnakeGame` React component
(`src/components/SnakeGame.jsx`). The game is played on a 20×20 board that
wraps around at the edges. A snake, stored head first, moves one cell per
timer tick in the heading applied at that tick. Arrow keys and on-screen
buttons queue the heading for the next tick. An input that would reverse
the applied heading is refused. When the snake's new head lands on a cell
of the snake, the game ends with the reason "You ran into yourself!". When
the new head lands on the food, the snake grows, the score goes up by one
and the food moves to a random free cell. Restart puts everything back to
the starting position.

Two modules:

- `SnakeRules` (`snake_rules.dfy`) holds the pure parts. These are the
  board, the `DIRECTIONS` table and the `opposite` table, arrow-key
  decoding, the wrap-around step of the head, the steering rule, and the
  head/body/food/empty priority of `renderCell`. It also holds the lemmas
  that a tick keeps the snake's cells distinct and on the board.
- `SnakeGame` (`snake_game.dfy`) holds the component state. `Game` is a
  class with the seven state fields: `snake`, `direction`, `nextDirection`,
  `food`, `isGameOver`, `gameOverReason` and `score`. Each transition is a
  method that states the whole new state. Every transition preserves the
  invariant `Game.Valid()`:
  - the snake's cells are on the board and pairwise distinct;
  - the snake has `score + 2` cells;
  - the food is on the board;
  - the queued heading never reverses the applied one;
  - the reason string is set exactly when the game is over.

  The `.some` scan and the food retry loop are read-only methods with loop
  invariants. `EatScenario`, `SteerScenario` and `TailScenario` are client
  methods. They walk through eating from the start position, steering
  against the applied heading, and a tick onto the cell the tail is about
  to leave, which ends the game with the snake unchanged.

Randomness is a parameter. The random first food cell and the restart food
cell are arguments that must lie on the board. The draws that
`getRandomPosition` would return after eating are a sequence `draws`.
`PickFood` keeps the first draw that is not on the new snake, as the
`do … while` loop does. `Tick` requires every draw to be on the board. When
the tick eats, it also requires at least one draw to be free. The source
loop never ends on a full board, so the model states this as a
precondition and does not add a win rule.

`Tick` requires `!isGameOver`, because the component stops its timer once
the game is over.

## Model

| member | source | states |
|---|---|---|
| `SnakeRules.Vector` | src/components/SnakeGame.jsx:5-10 | each heading moves exactly one axis by exactly one cell |
| `SnakeRules.Opposite` | src/components/SnakeGame.jsx:84-89 | the opposite heading differs from the heading and its step is the negated step |
| `SnakeRules.OppositeIsInvolution` | src/components/SnakeGame.jsx:100-105 | the opposite of the opposite is the heading itself |
| `SnakeRules.ParseKey` | src/components/SnakeGame.jsx:81-82 | a key decodes to a heading exactly when it is that heading's arrow-key name; every other key decodes to nothing |
| `SnakeRules.TouchMatchesKeys` | src/components/SnakeGame.jsx:98-99 | the button for a heading forms that heading's arrow-key name, so touch and keyboard agree |
| `SnakeRules.Wrap` | src/components/SnakeGame.jsx:38-42 | the wrapped coordinate is always on the board, is unchanged when already on it, and equals the coordinate modulo 20 for one step past either edge |
| `SnakeRules.NextHead` | src/components/SnakeGame.jsx:34-42 | the new head is on the board and, from a head on the board, equals the old head plus the heading's step with both coordinates reduced modulo 20 |
| `SnakeRules.EdgesWrap` | src/components/SnakeGame.jsx:39-42 | leaving the board at one edge lands on the opposite edge, the other coordinate kept |
| `SnakeRules.WrapScenario` | src/components/SnakeGame.jsx:39 | heading Left from (0, 5) lands on (19, 5) |
| `SnakeRules.StepThenReverse` | src/components/SnakeGame.jsx:84-90 | a step followed by the opposite step returns to the start, which is why a reversal is refused |
| `SnakeRules.GrowKeepsShape` | src/components/SnakeGame.jsx:44-52 | prepending a head that the collision check found off the snake keeps all cells distinct and on the board |
| `SnakeRules.SlideKeepsShape` | src/components/SnakeGame.jsx:51-55 | prepending such a head and popping the tail keeps the length, distinctness and the board bound |
| `SnakeRules.Steer` | src/components/SnakeGame.jsx:83-90 | the new queued heading is either the old one or the intent, and it never reverses the applied heading when the old one did not |
| `SnakeRules.ReversalRejected` | src/components/SnakeGame.jsx:90 | an intent reversing the applied heading leaves the queued heading unchanged |
| `SnakeRules.UnknownKeyIgnored` | src/components/SnakeGame.jsx:82 | a key that is not an arrow leaves the queued heading unchanged |
| `SnakeRules.LastWriterWins` | src/components/SnakeGame.jsx:83-91 | of two inputs between ticks, an accepted second one decides the queued heading whatever the first was |
| `SnakeRules.RenderCell` | src/components/SnakeGame.jsx:124-134 | a cell is drawn as head exactly when it is the head, as body exactly when it is another snake cell, as food exactly when it is the food and off the snake, else as empty |
| `SnakeRules.RenderSegments` | src/components/SnakeGame.jsx:125-133 | on a snake with distinct cells, segment 0 is drawn as head and every other segment as body |
| `SnakeGame.Contains` | src/components/SnakeGame.jsx:45 | the scan reports true exactly when the cell is on the snake |
| `SnakeGame.PickFood` | src/components/SnakeGame.jsx:57-62 | the food is the first draw not on the new snake, and every earlier draw was on it |
| `SnakeGame.Game.constructor` | src/components/SnakeGame.jsx:18-27 | the starting state is snake (8,10),(7,10), both headings Right, the given food, not over, empty reason, score 0 |
| `SnakeGame.Game.Restart` | src/components/SnakeGame.jsx:111-122 | restart gives the starting state with a new food cell and re-establishes the invariant from any state |
| `SnakeGame.Game.KeyInput` | src/components/SnakeGame.jsx:81-92 | the queued heading becomes the steering rule applied to the decoded key, and the invariant, including "queue never reverses the applied heading", is kept |
| `SnakeGame.Game.TouchInput` | src/components/SnakeGame.jsx:98-109 | the same for the key `Arrow` + button name |
| `SnakeGame.Game.Tick` | src/components/SnakeGame.jsx:30-69 | the applied heading becomes the queued one. If the new head is on the previous snake, tail included, the game ends with the collision reason and snake, food and score stay as they were. If it is on the food, the snake becomes the new head followed by the whole old snake, the score rises by one and the food is the first draw that is off the new snake. Otherwise the snake becomes the new head followed by the old snake without its tail, with food and score unchanged. The invariant is kept in every case |

## Left out

- React state hooks, `useRef` and the `setInterval`/`clearInterval` timer (src/components/SnakeGame.jsx:72-77) are framework plumbing. The model has one `Tick` method, which requires that the game is not over.
- The interval callback captures `food` at the time the effect last ran, and the effect does not re-run when `food` changes (src/components/SnakeGame.jsx:51, 77). The model compares the new head with the current food, which is the intended behaviour, not with that captured copy.
- The keyboard handler reads `direction` from the render in which it was registered (src/components/SnakeGame.jsx:96). The short window between a tick and the re-registration is timing plumbing. The model always compares with the current applied heading.
- `Math.random` in `getRandomPosition` (src/components/SnakeGame.jsx:12-15) is nondeterministic. The model uses caller-supplied cells that must be on the board.
- The initial and restart food cells (src/components/SnakeGame.jsx:24, 118) are not checked against the snake in the source. The model therefore claims "food is off the snake" only for food placed after eating.
- A full board: the retry loop has no bound, so `Tick` requires a free draw when it eats, and there is no win rule.
- `window.addEventListener` wiring (src/components/SnakeGame.jsx:94-95) is I/O. The model has `KeyInput` and `TouchInput`.
- JavaScript property lookup on keys such as `"constructor"` in `DIRECTIONS[e.key]` is not modelled. Browser key values are never such names, so `ParseKey` accepts exactly the four arrow keys.
- The grid layout, markup, styling and mobile buttons (src/components/SnakeGame.jsx:136-202) are presentation. Only `renderCell`'s classification is modelled.
- src/components/GameBoard.jsx is a styling-only render component that nothing imports, and its classification repeats `renderCell`. src/App.jsx only mounts the component. Neither is part of this model.
