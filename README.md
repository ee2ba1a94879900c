# Snake game state engine in Dafny

A model of the game-state engine of a terminal snake game (`snake.py`). The snake
moves on a wrap-around grid, grows by eating an apple placed at random, scores
points that add up to levels, and dies when its head steps onto its own body.

- `levels.dfy`, module `Levels`: the level tracker, a class `Level` with the
  fields `level` and `points`. `Bump` is the transition one `add_point` performs
  and `Replay(n)` is the state after `n` points from a fresh tracker. `Progress`
  counts the points a `(level, points)` pair encodes. Each completed level
  took 11 points.
- `snake.dfy`, module `Snakes`: the class `Snake` with the fields `x`, `y`,
  `width`, `height`, `body`, `apple`, `level` and `heading`. The source stores the
  last move method in `continue_moving`; here the `Heading` field plays that role.
  Down and Up change `y` modulo `width`, and Left and Right change `x` modulo
  `height`. This crossed naming is kept from the source. `Advance` is the
  reference function for one move. `NextBody` is the reference function for the
  body after a step that does not kill the snake. `FirstFree` names the
  candidate the apple retry loop settles on. `Valid()` is the snake's invariant:
  - both dimensions are at least 2;
  - the head and every body cell lie on the board;
  - the body is non-empty and holds no cell twice;
  - the apple lies outside the body, with its first coordinate in
    [1, width - 1] and its second in [1, height];
  - the level tracker is valid.
  `Settled()` adds that the head is the newest body cell, which holds between ticks.
  `Follows()` says the newest step followed the stored heading.
- `controls.dfy`, module `Controls`: the key dispatch of the main loop
  (`HeadingFor`, with `KeysOf` as the table of key aliases). `Tick` models one
  pass of the loop: pick a heading from the key, move, update the body.

The random apple draws are a parameter: `draws` is the sequence of candidates
`randint` would produce. The first candidate comes from
[1, width - 1] x [1, height - 1] and every retry from [1, width - 1] x [1, height]
(`AppleDraws`). The callers must supply a candidate outside the body (`HasFree`),
or the source's retry loop would never end. Because the retry range reaches
`height`, an apple may land on the column `x == height`, where the head never goes.
The model keeps this as written. So it claims only `1 <= apple.1 <= height`.

`Death` becomes the `Outcome` variant `Death(length, level)`. It carries the
level number at the time of death, where the source carries the `Level` object.
Only that number is read afterwards. On death the head has already moved, and
the body, apple and level are unchanged.

## Model

| member | source | states |
|---|---|---|
| Levels.Level.constructor | snake.py:21-23 | a fresh tracker is valid, at level 1 with 0 points |
| Levels.Level.AddPoint | snake.py:25-30 | points rise by one; past 10 they reset to 0 and the level rises by exactly one, otherwise the level is unchanged; validity (points in 0..10) is preserved |
| Levels.Level.Next | snake.py:32-33 | the level rises by one and the points are untouched |
| Levels.Bump | snake.py:25-30 | from a valid pair one point keeps points in 0..10, raises the encoded score by exactly one, and raises the level by 0 or 1 |
| Levels.ProgressDetermines | snake.py:25-30 | a valid (level, points) pair is determined by its score: level = 1 + score / 11, points = score % 11 |
| Levels.ReplayScores | snake.py:21-30 | n points from a fresh tracker leave a valid pair (level at least 1, points in 0..10) that encodes exactly n points |
| Levels.ReplayClosedForm | snake.py:21-33 | after n points from a fresh tracker the level is 1 + n / 11 and the points are n % 11 |
| Levels.ElevenPointsReachLevelTwo | snake.py:21-33 | eleven points from a fresh tracker give level 2 with 0 points |
| Levels.FirstLevelAccumulates | snake.py:21-30 | up to 10 points a fresh tracker stays on level 1 holding those points |
| Levels.LevelNeverDecreases | snake.py:25-33 | more points never give a lower level |
| Snakes.Wrap | snake.py:96-97 | a wrapped coordinate always lies in [0, bound) |
| Snakes.WrapIsToroidal | snake.py:95-119 | a step past the last coordinate wraps to 0, a step below 0 wraps to bound - 1, any other step moves by exactly one |
| Snakes.Advance | snake.py:95-119 | Up/Down change only y and keep it in [0, width); Left/Right change only x and keep it in [0, height) |
| Snakes.AdvanceLeaves | snake.py:95-119 | on a board of at least 2 x 2 every move stays on the board and leaves the starting cell |
| Snakes.AdvanceOpposite | snake.py:95-119 | a move followed by the opposite move returns to the starting cell |
| Snakes.ReversalHitsBody | snake.py:84-85 | for a settled snake of length 2 or more whose newest step followed its heading (as `Tick` guarantees), the move in the opposite heading lands on a body cell, which `UpdateBody` reports as Death |
| Snakes.NextBodyShape | snake.py:86-93 | off the apple the new body is the old body without its oldest cell plus the head, and the length is unchanged; on the apple the head is appended and the length grows by exactly one; the head is the newest cell |
| Snakes.NextBodyBeforeHead | snake.py:86-89 | in the new body the cell just before the head is the previous newest cell |
| Snakes.NextBodyDistinct | snake.py:84-93 | a step into a cell not in the body keeps the cells pairwise distinct |
| Snakes.FirstFree | snake.py:67-72 | the index of the first candidate outside the taken cells; every earlier candidate is taken |
| Snakes.Snake.constructor | snake.py:47-65 | the grid is width = screen width / 2 - 1 by height = screen height / 3 - 1; body [(1, 1)] heading right; level 1 with 0 points; apple the first free candidate; the snake is settled and its newest step follows its heading |
| Snakes.Snake.NewAppleCoords | snake.py:67-72 | the apple is the first candidate outside the body; its first coordinate lies in [1, width - 1] and its second in [1, height] |
| Snakes.Snake.HasLost | snake.py:74-78 | for a body without repeated cells, true exactly when appending the head would make the body repeat a cell, i.e. the snake has stepped over its own body |
| Snakes.StepRepeatsCell | snake.py:74-78 | for a body without repeated cells, the head lies in the body exactly when appending it would repeat a cell |
| Snakes.Snake.UpdateBody | snake.py:80-93 | Death(length of body, level) exactly when the head is already in the body, with body, apple and level unchanged; otherwise the body becomes NextBody, the head is its newest cell, and the invariant holds; on the apple one point is scored and the apple moves to the first free candidate |
| Snakes.Snake.MoveDown | snake.py:95-98 | y becomes (y + 1) mod width, x is unchanged, heading Down; the invariant holds |
| Snakes.Snake.MoveUp | snake.py:102-105 | y becomes (y - 1) mod width, x is unchanged, heading Up; the invariant holds |
| Snakes.Snake.MoveLeft | snake.py:109-112 | x becomes (x - 1) mod height, y is unchanged, heading Left; the invariant holds |
| Snakes.Snake.MoveRight | snake.py:116-119 | x becomes (x + 1) mod height, y is unchanged, heading Right; the invariant holds |
| Snakes.Snake.ContinueMoving | snake.py:171-172 | repeats one move in the stored heading, which stays the same |
| Controls.HeadingFor | snake.py:162-172 | j, s and 258 select Down; k, z and 259 Up; h, q and 260 Left; l, d and 261 Right; any other key keeps the previous heading |
| Controls.Tick | snake.py:161-176 | the heading is the one the key selects and the head advances one cell along it; death happens exactly when the new head was in the body before the move, with length = old length and nothing else changed; otherwise the snake is settled and, if it was settled before the tick, its newest step follows the heading; the length is kept off the apple and grows by one on it, a point is scored and the new apple lies outside the new body |

## Left out

- `Level.delay` (snake.py:35-36): floating-point arithmetic for the tick length.
- `Snake.wait` (snake.py:123-128): a wall-clock busy wait.
- `Level.show`, `Snake.show`, the `DIRECTION_CHAR` glyph table and the curses screen setup in `main`: terminal output only.
- The `randint` draws: the random candidates are the `draws` parameter of `NewAppleCoords`, `UpdateBody`, `Tick` and the constructor.
- The unbounded repetition of `main`'s `while True` loop and its clock reading: `Tick` models one pass of the loop.
- `Death.__str__`, the `__main__` wrapper and its `print`: presentation and process plumbing.
- Snakes.Snake.NewAppleCoords: claims only `1 <= apple.1 <= height` for the second coordinate, because the retry draw's range reaches `height` and the first draw's stops at `height - 1`.
- Snakes.Snake.constructor: requires a grid of at least 2 x 2 after scaling, because the source's `randint(1, width - 1)` and its moduli need it; the source does not check this.
