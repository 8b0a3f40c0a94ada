# Grid snake simulation in Dafny

This project models the game logic of a small SFML snake game (`main.cpp`).
A snake moves one cell per tick on a 40 x 30 grid. It grows when it eats
food and dies when its head leaves the board or lands on its own body.

- `board.dfy` (module `Board`) holds the grid geometry. It has cells, the
  four unit directions, the bounds test, contiguity and distinctness of a
  body, and the set of free cells. It also holds the counting lemmas: the
  board has exactly `COLS * ROWS` cells, so a body shorter than that always
  leaves a free cell, and distinct in-bounds cells never number more.
- `snake_game.dfy` (module `SnakeGame`) holds the game itself:
  - class `Snake` is the source's `Snake` struct. It has a `body`
    sequence (front is the head), a heading `dir` and a pending-growth flag
    `grow`, with `NextHead`, `Move`, `HitsSelf` and `Occupies`.
  - `SpawnFood` places food.
  - class `Game` holds the state that the source's `main` keeps in locals:
    the snake, the food, the score, the game-over flag and the highscore.
    Its methods are the key handling (`HandleKey`, `Restart`), the per-tick
    update (`Tick`) and the per-frame highscore update (`UpdateHighscore`).

`Game.Valid()` is the invariant every operation keeps:
- the snake's body is non-empty and contiguous, and its heading is a unit
  vector;
- the score is 10 times the number of foods eaten, which is the body
  length minus one, plus one while growth is pending;
- while the game is running, every body cell is in bounds and no cell
  repeats, and the food is on a free cell or is `(-1,-1)` with the body
  covering the board.

Four details of main.cpp that the model keeps as written:
- Growth is delayed by one tick. Eating sets `grow` (line 130), and the
  body only lengthens on the next `Move` (lines 26-27).
- The reversal guard compares a key only with the current heading (lines
  97-104). One press never turns the snake back into its neck
  (`OnePressSparesNeck`), but two presses between ticks can reverse it
  (`TwoPressesReverse`).
- The self check runs after the wall check, even when the wall check has
  already ended the game (lines 122-126). The outcome is the same.
- The highscore is raised on every frame while the game is over (line
  164).

## Model

| member | source | states |
|---|---|---|
| `Board.FreeCells` | main.cpp:44-46 | a cell is a candidate for food exactly when it is in [0,COLS) x [0,ROWS) and not on the snake |
| `Board.FreeCellExists` | main.cpp:43-46 | a body shorter than COLS*ROWS leaves at least one free cell, so the retry loop has something to find |
| `Board.DistinctFits` | main.cpp:43 | a body of distinct in-bounds cells has at most COLS*ROWS cells |
| `SnakeGame.KeyDirection` | main.cpp:97-104 | Up/W ask for (0,-1), Down/S for (0,1), Left/A for (-1,0), Right/D for (1,0); R and every other key ask for no heading |
| `SnakeGame.Steer` | main.cpp:97-104 | the new heading is the key's heading unless that is the exact opposite of the current one, in which case the heading stays; it is always a unit vector and never the opposite of the current heading |
| `SnakeGame.Moved` | main.cpp:24-28 | one step puts head + dir in front and shifts every kept cell back one place; the length grows by one exactly when growth was pending and is unchanged otherwise |
| `SnakeGame.MovedContiguous` | main.cpp:23-28 | stepping in a unit direction keeps consecutive body cells neighbours |
| `SnakeGame.RunningAfterMove` | main.cpp:118-126 | a step that stays on the board and does not hit the body keeps every cell in bounds and no cell repeated; if the new head misses the food, the food stays on a free cell |
| `SnakeGame.RunningFits` | main.cpp:43 | while running the body has at most COLS*ROWS cells, and the food is (-1,-1) only when the body covers the board exactly |
| `SnakeGame.FullBoardGrowthEndsGame` | main.cpp:116-126 | a snake covering the whole board with growth pending leaves the board or hits itself on its next step, whatever its heading |
| `SnakeGame.OnePressSparesNeck` | main.cpp:97-104 | with one key press since the last step, the next head is never the cell right behind the head |
| `SnakeGame.TwoPressesReverse` | main.cpp:97-104 | Up then Left while heading right leaves the snake heading left, the exact reverse |
| `SnakeGame.TwoCellSnakeTurnsAround` | main.cpp:24-33 | a two-cell snake stepping into the cell its tail leaves does not hit itself, because the tail is dropped before the self check |
| `SnakeGame.Snake.constructor` | main.cpp:18-22 | a new snake is the one start cell, heading right, with no growth pending |
| `SnakeGame.Snake.NextHead` | main.cpp:23 | the next head is a neighbour of the head and, when the snake last moved along its heading, not the cell behind the head |
| `SnakeGame.Snake.Move` | main.cpp:24-28 | the body becomes `Moved` of the old body, heading and flag; the heading is unchanged, growth is cleared, and the snake invariant is kept |
| `SnakeGame.Snake.HitsSelf` | main.cpp:29-33 | true exactly when the head equals a body cell at index 1 or later |
| `SnakeGame.Snake.Occupies` | main.cpp:34-37 | true exactly when the cell is in the body |
| `SnakeGame.SpawnFood` | main.cpp:42-48 | returns (-1,-1) exactly when the body has at least COLS*ROWS cells; otherwise an in-bounds cell not on the snake |
| `SnakeGame.Game.constructor` | main.cpp:78-89 | the start state: a one-cell snake in the middle heading right, food on a free cell, score 0, running, highscore as stored |
| `SnakeGame.Game.Restart` | main.cpp:106-110 | a fresh centred snake heading right with no growth pending, new food, score 0, running; the highscore is kept |
| `SnakeGame.Game.HandleKey` | main.cpp:95-111 | while running a key only steers the snake (`Steer`) and changes nothing else; once over, R restarts and every other key changes nothing |
| `SnakeGame.Game.Tick` | main.cpp:116-136 | a finished game does not change; otherwise the body steps (`Moved`), the game ends exactly when the new head is off the board or hits the body, and if it lives and its head is on the food, growth is set, the score rises by 10 and the food is placed again, else score and food stay |
| `SnakeGame.Game.UpdateHighscore` | main.cpp:163-164 | once the game is over the highscore becomes the larger of itself and the score; it never decreases |
| `SnakeGame.ScoreIsMultipleOfTen` | main.cpp:129-131 | the score is always a non-negative multiple of 10 |

## Left out

- Rendering, the window, the font, the HUD text and the event-polling loop
  (main.cpp:60-75, 91-94, 138-171) are user interface and library calls.
  Closing the window is not modelled.
- Reading and writing `highscore.txt` (`loadHighscore`, `saveHighscore`,
  main.cpp:50-57) is file I/O. The stored highscore is a constructor
  argument, and `UpdateHighscore` does not write it anywhere.
- The float timing is not modelled: `moveDelay`, the accumulator `acc`, the
  clock, the 0.95 speed-up clamped at 0.03 (line 133) and their reset on
  restart (line 109). `Tick` stands for one update that the caller makes
  once enough time has passed.
- SpawnFood: the time-seeded random generator and the uniform distribution
  are not modelled. The retry loop, which need not end for an unlucky
  generator, becomes a choice of any free cell.
- C++ `int` width is not modelled. Coordinates stay within one step of
  the board and the score is at most 10 times the board size, far from
  32-bit limits.
