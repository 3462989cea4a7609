/**
 * The Lights Out board as a value: an array of `nrows` rows of `ncols`
 * booleans, `true` meaning lit.  These functions specify what the board
 * engine computes; the methods in module Engine are proved against them.
 */
module Grid {

  type Board = seq<seq<bool>>

  /** `b` is a rectangular board of `nrows` rows, each of `ncols` cells. */
  predicate IsGrid(b: Board, nrows: nat, ncols: nat) {
    |b| == nrows && forall r :: 0 <= r < |b| ==> |b[r]| == ncols
  }

  /** (r, c) is one of the five positions a click at (y, x) names: itself and its four orthogonal neighbours. */
  predicate InCross(y: int, x: int, r: int, c: int) {
    (r == y && c == x) || (r == y && c == x + 1) || (r == y && c == x - 1)
    || (r == y + 1 && c == x) || (r == y - 1 && c == x)
  }

  /** `flipCell(y, x, boardCopy)`: toggle (y, x) when it is on the board, otherwise do nothing. */
  function FlipCell(b: Board, nrows: nat, ncols: nat, y: int, x: int): (r: Board)
    requires IsGrid(b, nrows, ncols)
    ensures IsGrid(r, nrows, ncols)
  {
    if x >= 0 && x < ncols && y >= 0 && y < nrows then b[y := b[y][x := !b[y][x]]] else b
  }

  /** The five `flipCell` calls of `flipCellsAround`, in the source's order. */
  function FlipAround(b: Board, nrows: nat, ncols: nat, y: int, x: int): (r: Board)
    requires IsGrid(b, nrows, ncols)
    ensures IsGrid(r, nrows, ncols)
  {
    var b1 := FlipCell(b, nrows, ncols, y, x);
    var b2 := FlipCell(b1, nrows, ncols, y, x + 1);
    var b3 := FlipCell(b2, nrows, ncols, y, x - 1);
    var b4 := FlipCell(b3, nrows, ncols, y + 1, x);
    FlipCell(b4, nrows, ncols, y - 1, x)
  }

  /** `r.every(cell => !cell)`: true exactly when no cell of the row is lit. */
  function RowUnlit(row: seq<bool>): (ok: bool)
    ensures ok <==> forall c :: 0 <= c < |row| ==> !row[c]
  {
    row == [] || (!row[0] && RowUnlit(row[1..]))
  }

  /**
   * `board.every(r => r.every(cell => !cell))`: the game is won exactly when
   * no cell of any row is lit; in particular the empty board is won.
   */
  function HasWon(b: Board): (won: bool)
    ensures won <==> forall r, c :: 0 <= r < |b| && 0 <= c < |b[r]| ==> !b[r][c]
  {
    b == [] || (RowUnlit(b[0]) && HasWon(b[1..]))
  }

  /** Only (y, x) can change, and it changes exactly when it is on the board. */
  lemma FlipCellAt(b: Board, nrows: nat, ncols: nat, y: int, x: int, r: int, c: int)
    requires IsGrid(b, nrows, ncols)
    requires 0 <= r < nrows && 0 <= c < ncols
    ensures FlipCell(b, nrows, ncols, y, x)[r][c] == (b[r][c] != (r == y && c == x))
  {
  }

  /**
   * After a click at (y, x), a cell is inverted exactly when it is one of the
   * five positions of the cross; every other cell keeps its value.  Positions
   * of the cross that fall off the board are simply absent.
   */
  lemma FlipAroundAt(b: Board, nrows: nat, ncols: nat, y: int, x: int, r: int, c: int)
    requires IsGrid(b, nrows, ncols)
    requires 0 <= r < nrows && 0 <= c < ncols
    ensures FlipAround(b, nrows, ncols, y, x)[r][c] == (b[r][c] != InCross(y, x, r, c))
  {
    var b1 := FlipCell(b, nrows, ncols, y, x);
    var b2 := FlipCell(b1, nrows, ncols, y, x + 1);
    var b3 := FlipCell(b2, nrows, ncols, y, x - 1);
    var b4 := FlipCell(b3, nrows, ncols, y + 1, x);
    // Dafny also finds this proof unaided; the calls spell out its structure.
    FlipCellAt(b, nrows, ncols, y, x, r, c);
    FlipCellAt(b1, nrows, ncols, y, x + 1, r, c);
    FlipCellAt(b2, nrows, ncols, y, x - 1, r, c);
    FlipCellAt(b3, nrows, ncols, y + 1, x, r, c);
    FlipCellAt(b4, nrows, ncols, y - 1, x, r, c);
  }

  /** Two boards of the same shape that agree on every cell are equal. */
  lemma SameCells(a: Board, b: Board, nrows: nat, ncols: nat)
    requires IsGrid(a, nrows, ncols) && IsGrid(b, nrows, ncols)
    requires forall r, c :: 0 <= r < nrows && 0 <= c < ncols ==> a[r][c] == b[r][c]
    ensures a == b
  {
    forall r | 0 <= r < nrows ensures a[r] == b[r] {
    }
  }

  /** Clicking the same cell twice restores the board. */
  lemma FlipAroundTwice(b: Board, nrows: nat, ncols: nat, y: int, x: int)
    requires IsGrid(b, nrows, ncols)
    ensures FlipAround(FlipAround(b, nrows, ncols, y, x), nrows, ncols, y, x) == b
  {
    var once := FlipAround(b, nrows, ncols, y, x);
    var twice := FlipAround(once, nrows, ncols, y, x);
    forall r, c | 0 <= r < nrows && 0 <= c < ncols ensures twice[r][c] == b[r][c] {
      FlipAroundAt(b, nrows, ncols, y, x, r, c);
      FlipAroundAt(once, nrows, ncols, y, x, r, c);
    }
    SameCells(twice, b, nrows, ncols);
  }

  /** A click in the top-left corner changes only (0,0), (0,1) and (1,0); (0,-1) and (-1,0) are skipped. */
  lemma FlipCorner(b: Board, nrows: nat, ncols: nat)
    requires IsGrid(b, nrows, ncols)
    ensures forall r, c :: 0 <= r < nrows && 0 <= c < ncols ==>
      (FlipAround(b, nrows, ncols, 0, 0)[r][c] != b[r][c] <==> (r == 0 && c <= 1) || (r == 1 && c == 0))
  {
    forall r, c | 0 <= r < nrows && 0 <= c < ncols
      ensures FlipAround(b, nrows, ncols, 0, 0)[r][c] != b[r][c] <==> (r == 0 && c <= 1) || (r == 1 && c == 0)
    {
      // Dafny also finds this proof unaided; the call names the fact it uses.
      FlipAroundAt(b, nrows, ncols, 0, 0, r, c);
    }
  }

  /** On a 1x1 board a click inverts the single cell; a click that leaves it unlit wins. */
  lemma FlipSingleCell(v: bool)
    ensures FlipAround([[v]], 1, 1, 0, 0) == [[!v]]
    ensures HasWon(FlipAround([[true]], 1, 1, 0, 0))
  {
    FlipAroundAt([[v]], 1, 1, 0, 0, 0, 0);
    SameCells(FlipAround([[v]], 1, 1, 0, 0), [[!v]], 1, 1);
    FlipAroundAt([[true]], 1, 1, 0, 0, 0, 0);
    SameCells(FlipAround([[true]], 1, 1, 0, 0), [[false]], 1, 1);
    assert RowUnlit([false][1..]);
  }

  /** The 3x3 board lit only in the centre. */
  function CentreLit(): (b: Board)
    ensures IsGrid(b, 3, 3)
  {
    [[false, false, false], [false, true, false], [false, false, false]]
  }

  /**
   * Clicking the centre of `CentreLit()` gives the plus shape with the centre
   * now off and the corners still off; the game is not won; a second click
   * restores the original board.
   */
  lemma CentreScenario()
    ensures FlipAround(CentreLit(), 3, 3, 1, 1) ==
      [[false, true, false], [true, false, true], [false, true, false]]
    ensures !HasWon(FlipAround(CentreLit(), 3, 3, 1, 1))
    ensures FlipAround(FlipAround(CentreLit(), 3, 3, 1, 1), 3, 3, 1, 1) == CentreLit()
  {
    var b := CentreLit();
    var plus := [[false, true, false], [true, false, true], [false, true, false]];
    forall r, c | 0 <= r < 3 && 0 <= c < 3 ensures FlipAround(b, 3, 3, 1, 1)[r][c] == plus[r][c] {
      FlipAroundAt(b, 3, 3, 1, 1, r, c);
    }
    SameCells(FlipAround(b, 3, 3, 1, 1), plus, 3, 3);
    assert plus[0][1];
    FlipAroundTwice(b, 3, 3, 1, 1);
  }
}
