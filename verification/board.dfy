/**
  Grid geometry of the snake game: cells, the four unit directions, the
  COLS x ROWS playing field, and the counting facts about the field that
  food placement and the full-board case rest on.
 */
module Board {

  /** Grid width and height in cells (main.cpp:13-14). */
  const COLS: int := 40
  const ROWS: int := 30

  /** An integer grid coordinate; the source's `sf::Vector2i`, used both for
      cells and for direction vectors. */
  datatype Cell = Cell(x: int, y: int)

  /** The value the game stores as food when the board is full. */
  const NoFood: Cell := Cell(-1, -1)

  /** Where a fresh snake starts: the middle of the board. */
  const Center: Cell := Cell(COLS / 2, ROWS / 2)

  const Up: Cell := Cell(0, -1)
  const Down: Cell := Cell(0, 1)
  const Left: Cell := Cell(-1, 0)
  const Right: Cell := Cell(1, 0)

  function Plus(a: Cell, b: Cell): Cell {
    Cell(a.x + b.x, a.y + b.y)
  }

  function Neg(d: Cell): Cell {
    Cell(-d.x, -d.y)
  }

  /** One of the four unit vectors a snake can move in. */
  predicate IsUnit(d: Cell) {
    d == Up || d == Down || d == Left || d == Right
  }

  /** `b` is one step from `a`: they differ by one unit in exactly one axis. */
  predicate Adjacent(a: Cell, b: Cell) {
    IsUnit(Cell(b.x - a.x, b.y - a.y))
  }

  predicate InBounds(c: Cell) {
    0 <= c.x < COLS && 0 <= c.y < ROWS
  }

  predicate AllInBounds(s: seq<Cell>) {
    forall i :: 0 <= i < |s| ==> InBounds(s[i])
  }

  /** Consecutive cells of `s` are neighbours on the grid. */
  predicate Contiguous(s: seq<Cell>) {
    forall i :: 1 <= i < |s| ==> Adjacent(s[i - 1], s[i])
  }

  /** No cell occurs twice in `s`. */
  predicate Distinct(s: seq<Cell>) {
    forall i, j :: 0 <= i < j < |s| ==> s[i] != s[j]
  }

  function Cells(s: seq<Cell>): set<Cell> {
    set c | c in s
  }

  /** The cells of row `y` with x in [0, w). */
  function Row(y: int, w: nat): set<Cell> {
    set x: int | 0 <= x < w :: Cell(x, y)
  }

  /** The cells of [0, w) x [0, h). */
  function Grid(w: nat, h: nat): set<Cell> {
    set x: int, y: int | 0 <= x < w && 0 <= y < h :: Cell(x, y)
  }

  /** Every in-bounds cell that `body` does not occupy. */
  function FreeCells(body: seq<Cell>): (free: set<Cell>)
    ensures forall c :: c in free <==> InBounds(c) && c !in body
  {
    assert forall c :: c in Grid(COLS, ROWS) <==> InBounds(c) by {
      forall c | InBounds(c) ensures c in Grid(COLS, ROWS) {
        assert c == Cell(c.x, c.y);
      }
    }
    Grid(COLS, ROWS) - Cells(body)
  }

  lemma {:induction false} RowSize(y: int, w: nat)
    ensures |Row(y, w)| == w
  {
    if w == 0 {
      assert Row(y, w) == {};
    } else {
      RowSize(y, w - 1);
      assert Row(y, w) == Row(y, w - 1) + {Cell(w - 1, y)};
    }
  }

  /** The grid one row taller is the grid plus that row, with no overlap. */
  lemma GridAddRow(w: nat, h: nat)
    ensures Grid(w, h + 1) == Grid(w, h) + Row(h, w)
    ensures Grid(w, h) !! Row(h, w)
  {
    forall c | c in Grid(w, h + 1) ensures c in Grid(w, h) + Row(h, w) {
      if c.y < h {
        assert c == Cell(c.x, c.y);
      }
    }
  }

  lemma {:induction false} GridSize(w: nat, h: nat)
    ensures |Grid(w, h)| == w * h
  {
    if h == 0 {
      assert Grid(w, h) == {};
    } else {
      GridSize(w, h - 1);
      RowSize(h - 1, w);
      GridAddRow(w, h - 1);
      assert |Grid(w, h)| == |Grid(w, h - 1)| + |Row(h - 1, w)|;
      assert w * h == w * (h - 1) + w;
    }
  }

  /** A sequence has at most as many different cells as entries, and exactly
      as many when no cell repeats. */
  lemma {:induction false} CellsSize(s: seq<Cell>)
    ensures |Cells(s)| <= |s|
    ensures Distinct(s) ==> |Cells(s)| == |s|
  {
    if s == [] {
      assert Cells(s) == {};
    } else {
      CellsSize(s[1..]);
      assert Cells(s) == {s[0]} + Cells(s[1..]);
      if Distinct(s) {
        assert Distinct(s[1..]) by {
          forall i, j | 0 <= i < j < |s[1..]| ensures s[1..][i] != s[1..][j] {
            assert s[1..][i] == s[i + 1] && s[1..][j] == s[j + 1];
          }
        }
        assert s[0] !in Cells(s[1..]);
      }
    }
  }

  lemma SubsetSize(a: set<Cell>, b: set<Cell>)
    requires a <= b
    ensures |a| <= |b|
  {
    assert b == a + (b - a);
    assert a !! (b - a);
  }

  /** A board that is not full has a free cell: what makes food placement
      by retrying random cells always succeed. */
  lemma FreeCellExists(body: seq<Cell>)
    requires |body| < COLS * ROWS
    ensures FreeCells(body) != {}
  {
    GridSize(COLS, ROWS);
    CellsSize(body);
    if FreeCells(body) == {} {
      assert Grid(COLS, ROWS) <= Cells(body) by {
        forall c | c in Grid(COLS, ROWS) ensures c in Cells(body) {
          assert c !in FreeCells(body);
        }
      }
      SubsetSize(Grid(COLS, ROWS), Cells(body));
      assert false;
    }
  }

  /** Distinct in-bounds cells never number more than the board holds. */
  lemma DistinctFits(body: seq<Cell>)
    requires AllInBounds(body) && Distinct(body)
    ensures |body| <= COLS * ROWS
  {
    GridSize(COLS, ROWS);
    CellsSize(body);
    assert Cells(body) <= Grid(COLS, ROWS) by {
      forall c | c in Cells(body) ensures c in Grid(COLS, ROWS) {
        assert InBounds(c);
        assert c == Cell(c.x, c.y);
      }
    }
    SubsetSize(Cells(body), Grid(COLS, ROWS));
  }
}
