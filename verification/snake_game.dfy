/**
  The grid-snake simulation: the snake (its body, heading and pending
  growth), food placement, steering by key presses, the per-tick update with
  its wall, self and food checks, restart, and the highscore.
 */
module SnakeGame {
  import opened Board

  datatype Option<T> = None | Some(value: T)

  /** The keys the game reacts to; every other key is `OtherKey`. */
  datatype Key = ArrowUp | ArrowDown | ArrowLeft | ArrowRight | W | A | S | D | R | OtherKey

  /** The heading a key asks for: arrows and WASD alike. */
  function KeyDirection(k: Key): (d: Option<Cell>)
    ensures d.Some? ==> IsUnit(d.value)
    ensures d.None? <==> k == R || k == OtherKey
    ensures d == Some(Up) <==> k == ArrowUp || k == W
    ensures d == Some(Down) <==> k == ArrowDown || k == S
    ensures d == Some(Left) <==> k == ArrowLeft || k == A
    ensures d == Some(Right) <==> k == ArrowRight || k == D
  {
    match k
    case ArrowUp | W => Some(Up)
    case ArrowDown | S => Some(Down)
    case ArrowLeft | A => Some(Left)
    case ArrowRight | D => Some(Right)
    case R | OtherKey => None
  }

  /** The heading after key `k` is pressed while moving in `dir`: the key's
      heading, unless it is the exact opposite of `dir`. */
  function Steer(dir: Cell, k: Key): (r: Cell)
    ensures r == dir || Some(r) == KeyDirection(k)
    ensures KeyDirection(k).Some? && KeyDirection(k).value != Neg(dir) ==> r == KeyDirection(k).value
    ensures IsUnit(dir) ==> IsUnit(r) && r != Neg(dir)
  {
    match k
    case ArrowUp | W => if dir != Down then Up else dir
    case ArrowDown | S => if dir != Up then Down else dir
    case ArrowLeft | A => if dir != Right then Left else dir
    case ArrowRight | D => if dir != Left then Right else dir
    case R | OtherKey => dir
  }

  /** The new head is in the body at some index >= 1. */
  predicate SelfHit(body: seq<Cell>) {
    exists i :: 1 <= i < |body| && body[i] == body[0]
  }

  /** The body after one step in `dir`: a new head in front, and the tail
      cell dropped unless growth was pending. */
  function Moved(body: seq<Cell>, dir: Cell, grow: bool): (r: seq<Cell>)
    requires |body| >= 1
    ensures |r| == |body| + 1 <==> grow
    ensures |r| == |body| <==> !grow
    ensures r[0] == Plus(body[0], dir)
    ensures forall i :: 1 <= i < |r| ==> r[i] == body[i - 1]
  {
    [Plus(body[0], dir)] + if grow then body else body[..|body| - 1]
  }

  /** `food` is on a free in-bounds cell, or it is the "no food" value and
      the body covers the whole board. */
  predicate FoodPlaced(body: seq<Cell>, food: Cell) {
    if food == NoFood then |body| >= COLS * ROWS else InBounds(food) && food !in body
  }

  /** What holds of the body and the food while the game is running. */
  predicate Running(body: seq<Cell>, food: Cell) {
    AllInBounds(body) && Distinct(body) && FoodPlaced(body, food)
  }

  /** One step keeps the body contiguous. */
  lemma {:induction false} MovedContiguous(body: seq<Cell>, dir: Cell, grow: bool)
    requires |body| >= 1 && Contiguous(body) && IsUnit(dir)
    ensures Contiguous(Moved(body, dir, grow))
  {
    var m := Moved(body, dir, grow);
    forall i | 1 <= i < |m| ensures Adjacent(m[i - 1], m[i]) {
      if i == 1 {
        assert m[0] == Plus(body[0], dir) && m[1] == body[0];
        assert Cell(m[1].x - m[0].x, m[1].y - m[0].y) == Neg(dir);
      } else {
        assert m[i - 1] == body[i - 2] && m[i] == body[i - 1];
      }
    }
  }

  /** A step that stays on the board and misses the body keeps the body on
      the board without repeats; if it also misses the food, the food stays
      on a free cell. */
  lemma RunningAfterMove(body: seq<Cell>, dir: Cell, grow: bool, food: Cell)
    requires |body| >= 1 && Running(body, food)
    requires InBounds(Moved(body, dir, grow)[0]) && !SelfHit(Moved(body, dir, grow))
    ensures AllInBounds(Moved(body, dir, grow)) && Distinct(Moved(body, dir, grow))
    ensures Moved(body, dir, grow)[0] != food ==> Running(Moved(body, dir, grow), food)
  {
    var m := Moved(body, dir, grow);
    forall i, j | 0 <= i < j < |m| ensures m[i] != m[j] {
      if i == 0 {
        assert m[j] != m[0];
      } else {
        assert m[i] == body[i - 1] && m[j] == body[j - 1];
      }
    }
    if food != NoFood && m[0] != food {
      forall i | 0 <= i < |m| ensures m[i] != food {
        if i > 0 {
          assert m[i] == body[i - 1];
        }
      }
    }
  }

  /** While running the body fits on the board, and the food is missing
      only when the body covers it exactly. */
  lemma RunningFits(body: seq<Cell>, food: Cell)
    requires Running(body, food)
    ensures |body| <= COLS * ROWS
    ensures food == NoFood ==> |body| == COLS * ROWS
  {
    DistinctFits(body);
  }

  /** A snake that covers the whole board and has growth pending dies on its
      next step, whichever way it goes. */
  lemma FullBoardGrowthEndsGame(body: seq<Cell>, dir: Cell, food: Cell)
    requires Running(body, food) && |body| == COLS * ROWS
    ensures !InBounds(Moved(body, dir, true)[0]) || SelfHit(Moved(body, dir, true))
  {
    var m := Moved(body, dir, true);
    if InBounds(m[0]) && !SelfHit(m) {
      assert AllInBounds(m);
      assert Distinct(m) by {
        forall i, j | 0 <= i < j < |m| ensures m[i] != m[j] {
          if i == 0 {
            assert m[j] != m[0];
          } else {
            assert m[i] == body[i - 1] && m[j] == body[j - 1];
          }
        }
      }
      DistinctFits(m);
      assert false;
    }
  }

  /** With one key press between steps, the snake never turns back into
      the cell right behind its head. */
  lemma OnePressSparesNeck(body: seq<Cell>, dir: Cell, k: Key)
    requires |body| >= 2 && IsUnit(dir) && body[0] == Plus(body[1], dir)
    ensures Plus(body[0], Steer(dir, k)) != body[1]
  {
  }

  /** The guard looks only at the current heading, so two presses between
      steps (Up, then Left, while moving right) reverse the snake. */
  lemma TwoPressesReverse()
    ensures Steer(Steer(Right, ArrowUp), ArrowLeft) == Neg(Right)
  {
  }

  /** A two-cell snake may step into the cell its tail just left. */
  lemma TwoCellSnakeTurnsAround()
    ensures var m := Moved([Cell(5, 5), Cell(4, 5)], Left, false);
            m == [Cell(4, 5), Cell(5, 5)] && InBounds(m[0]) && !SelfHit(m)
  {
  }

  /** The snake: its cells (front is the head), its heading, and whether the
      next step should lengthen it. */
  class Snake {
    var body: seq<Cell>
    var dir: Cell
    var grow: bool

    ghost predicate Valid()
      reads this
    {
      |body| >= 1 && IsUnit(dir) && Contiguous(body)
    }

    constructor (start: Cell)
      ensures Valid()
      ensures body == [start] && dir == Right && !grow
    {
      body := [start];
      dir := Right;
      grow := false;
    }

    /** The cell the head moves to on the next step. */
    function NextHead(): (h: Cell)
      reads this
      requires |body| >= 1
      ensures IsUnit(dir) ==> Adjacent(body[0], h) && h != body[0]
      ensures IsUnit(dir) && |body| >= 2 && body[0] == Plus(body[1], dir) ==> h != body[1]
    {
      Plus(body[0], dir)
    }

    /** One step: push the new head, then drop the tail, or instead clear a
        pending growth. */
    method Move()
      requires |body| >= 1
      modifies this
      ensures body == Moved(old(body), old(dir), old(grow))
      ensures dir == old(dir) && !grow
      ensures old(Valid()) ==> Valid()
    {
      body := [NextHead()] + body;
      if !grow {
        body := body[..|body| - 1];
      } else {
        grow := false;
      }
      if old(Valid()) {
        MovedContiguous(old(body), dir, old(grow));
      }
    }

    method HitsSelf() returns (hit: bool)
      ensures hit <==> SelfHit(body)
    {
      var i := 1;
      while i < |body|
        invariant 1 <= i
        invariant forall j :: 1 <= j < |body| && j < i ==> body[j] != body[0]
      {
        if body[i] == body[0] {
          return true;
        }
        i := i + 1;
      }
      return false;
    }

    method Occupies(p: Cell) returns (found: bool)
      ensures found <==> p in body
    {
      for i := 0 to |body|
        invariant p !in body[..i]
      {
        if body[i] == p {
          return true;
        }
      }
      assert body[..|body|] == body;
      return false;
    }
  }

  /** A free cell for the food, or `NoFood` when the body covers the board.
      The random draw becomes a choice among the free cells. */
  method SpawnFood(snake: Snake) returns (p: Cell)
    ensures p == NoFood <==> |snake.body| >= COLS * ROWS
    ensures p != NoFood ==> InBounds(p) && p !in snake.body
  {
    if |snake.body| >= COLS * ROWS {
      return NoFood;
    }
    FreeCellExists(snake.body);
    p :| p in FreeCells(snake.body);
  }

  /** The game state that the main loop keeps: the snake, the food, the
      score, whether the game is over, and the best score so far. */
  class Game {
    var snake: Snake
    var food: Cell
    var score: int
    var gameOver: bool
    var highscore: int

    /** Every food eaten is worth 10 and lengthens the snake by one (at once
        or on the next step); while running, the body is on the board
        without repeats and the food sits on a free cell. */
    ghost predicate Valid()
      reads this, snake
    {
      && snake.Valid()
      && score == 10 * (|snake.body| - 1 + if snake.grow then 1 else 0)
      && (!gameOver ==> Running(snake.body, food))
    }

    /** The state at process start; the stored highscore is passed in. */
    constructor (savedHighscore: int)
      ensures Valid() && fresh(snake)
      ensures snake.body == [Center] && snake.dir == Right && !snake.grow
      ensures score == 0 && !gameOver && highscore == savedHighscore
    {
      var s := new Snake(Center);
      var f := SpawnFood(s);
      snake := s;
      food := f;
      gameOver := false;
      score := 0;
      highscore := savedHighscore;
    }

    /** A new game: a fresh one-cell snake in the middle heading right,
        score 0, new food; the highscore stays. */
    method Restart()
      modifies this
      ensures Valid() && fresh(snake)
      ensures snake.body == [Center] && snake.dir == Right && !snake.grow
      ensures score == 0 && !gameOver && highscore == old(highscore)
    {
      snake := new Snake(Center);
      food := SpawnFood(snake);
      gameOver := false;
      score := 0;
    }

    /** A key press: while running a direction key steers the snake; while
        over, R restarts; anything else is ignored. */
    method HandleKey(k: Key)
      requires Valid()
      modifies this, snake
      ensures Valid()
      ensures !old(gameOver) ==>
        && snake == old(snake) && !gameOver
        && snake.dir == Steer(old(snake.dir), k)
        && snake.body == old(snake.body) && snake.grow == old(snake.grow)
        && food == old(food) && score == old(score) && highscore == old(highscore)
      ensures old(gameOver) && k != R ==> unchanged(this) && unchanged(snake)
      ensures old(gameOver) && k == R ==>
        && fresh(snake) && snake.body == [Center] && snake.dir == Right && !snake.grow
        && score == 0 && !gameOver && highscore == old(highscore)
    {
      if !gameOver {
        snake.dir := Steer(snake.dir, k);
      }
      if gameOver && k == R {
        Restart();
      }
    }

    /** One step of the running game: move, then the wall check and the
        self check, then eating. A finished game does not change. */
    method Tick()
      requires Valid()
      modifies this, snake
      ensures Valid() && snake == old(snake) && highscore == old(highscore)
      ensures old(gameOver) ==>
        gameOver && unchanged(snake) && food == old(food) && score == old(score)
      ensures !old(gameOver) ==>
        && snake.body == Moved(old(snake.body), old(snake.dir), old(snake.grow))
        && snake.dir == old(snake.dir)
        && (gameOver <==> !InBounds(snake.body[0]) || SelfHit(snake.body))
      ensures !old(gameOver) ==>
        var ate := !gameOver && snake.body[0] == old(food);
        && snake.grow == ate
        && score == old(score) + (if ate then 10 else 0)
        && (!ate ==> food == old(food))
        && (ate ==> FoodPlaced(snake.body, food))
    {
      if gameOver {
        return;
      }
      ghost var oldBody, oldGrow, oldFood := snake.body, snake.grow, food;
      snake.Move();
      var h := snake.body[0];
      if !InBounds(h) {
        gameOver := true;
      }
      var hit := snake.HitsSelf();
      if hit {
        gameOver := true;
      }
      if !gameOver && h == food {
        snake.grow := true;
        score := score + 10;
        food := SpawnFood(snake);
      }
      if !gameOver {
        RunningAfterMove(oldBody, snake.dir, oldGrow, oldFood);
      }
    }

    /** Drawn each frame: once the game is over, a better score becomes
        the highscore. */
    method UpdateHighscore()
      modifies this`highscore
      ensures highscore == if gameOver && score > old(highscore) then score else old(highscore)
      ensures highscore >= old(highscore)
      ensures gameOver ==> highscore >= score
    {
      if gameOver && score > highscore {
        highscore := score;
      }
    }
  }

  /** The score is a non-negative multiple of 10 in every valid state. */
  lemma ScoreIsMultipleOfTen(g: Game)
    requires g.Valid()
    ensures g.score >= 0 && g.score % 10 == 0
  {
  }
}
