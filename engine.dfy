/**
 * The board engine of the `Board` component: building the starting board,
 * the win check, and the click handler that copies the current board and
 * toggles the clicked cell and its neighbours in the copy.  The board is an
 * `array2<bool>` of `nrows` by `ncols`; the component's `nrows` and `ncols`
 * props are passed explicitly, because `flipCell` guards with them.
 */
module Engine {
  import opened Wrappers
  import opened Coord
  import opened Grid

  /** The cells of `a`, row by row. */
  function Cells(a: array2<bool>): (b: Board)
    reads a
    ensures IsGrid(b, a.Length0, a.Length1)
    ensures forall r, c :: 0 <= r < a.Length0 && 0 <= c < a.Length1 ==> b[r][c] == a[r, c]
  {
    seq(a.Length0, r requires 0 <= r < a.Length0 reads a =>
      seq(a.Length1, c requires 0 <= c < a.Length1 reads a => a[r, c]))
  }

  /** The board a click with key `coord` produces: unchanged when the key does not parse. */
  ghost function Click(b: Board, nrows: nat, ncols: nat, coord: string): (r: Board)
    requires IsGrid(b, nrows, ncols)
    ensures IsGrid(r, nrows, ncols)
    ensures ParseCoord(coord).None? ==> r == b
  {
    match ParseCoord(coord)
    case Some((y, x)) => FlipAround(b, nrows, ncols, y, x)
    case None => b
  }

  /**
   * `createBoard()`: `nrows` rows of `ncols` cells, cell (j, i) lit when the
   * random draw for it says so; `coin` stands for `Math.random() < chanceLightStartsOn`.
   */
  method CreateBoard(nrows: nat, ncols: nat, coin: (nat, nat) -> bool) returns (board: array2<bool>)
    ensures fresh(board)
    ensures board.Length0 == nrows && board.Length1 == ncols
    ensures IsGrid(Cells(board), nrows, ncols)
    ensures forall j, i :: 0 <= j < nrows && 0 <= i < ncols ==> board[j, i] == coin(j, i)
  {
    board := new bool[nrows, ncols];
    for j := 0 to nrows
      invariant forall j', i :: 0 <= j' < j && 0 <= i < ncols ==> board[j', i] == coin(j', i)
    {
      for i := 0 to ncols
        invariant forall j', i' :: 0 <= j' < j && 0 <= i' < ncols ==> board[j', i'] == coin(j', i')
        invariant forall i' :: 0 <= i' < i ==> board[j, i'] == coin(j, i')
      {
        board[j, i] := coin(j, i);
      }
    }
  }

  /** `hasWon()` on the current board. */
  function BoardHasWon(board: array2<bool>): (won: bool)
    reads board
    ensures won <==> forall j, i :: 0 <= j < board.Length0 && 0 <= i < board.Length1 ==> !board[j, i]
  {
    HasWon(Cells(board))
  }

  /** `oldBoard.map(r => [...r])`: a fresh board with the same cells. */
  method CopyBoard(oldBoard: array2<bool>) returns (boardCopy: array2<bool>)
    ensures fresh(boardCopy)
    ensures boardCopy.Length0 == oldBoard.Length0 && boardCopy.Length1 == oldBoard.Length1
    ensures Cells(boardCopy) == Cells(oldBoard)
  {
    boardCopy := new bool[oldBoard.Length0, oldBoard.Length1];
    for r := 0 to oldBoard.Length0
      invariant forall r', c :: 0 <= r' < r && 0 <= c < oldBoard.Length1 ==> boardCopy[r', c] == oldBoard[r', c]
    {
      for c := 0 to oldBoard.Length1
        invariant forall r', c' :: 0 <= r' < r && 0 <= c' < oldBoard.Length1 ==> boardCopy[r', c'] == oldBoard[r', c']
        invariant forall c' :: 0 <= c' < c ==> boardCopy[r, c'] == oldBoard[r, c']
      {
        boardCopy[r, c] := oldBoard[r, c];
      }
    }
    SameCells(Cells(boardCopy), Cells(oldBoard), oldBoard.Length0, oldBoard.Length1);
  }

  /** `flipCell(y, x, boardCopy)`: toggle (y, x) in place when it is on the board. */
  method FlipCellInPlace(boardCopy: array2<bool>, nrows: nat, ncols: nat, y: int, x: int)
    requires boardCopy.Length0 == nrows && boardCopy.Length1 == ncols
    modifies boardCopy
    ensures Cells(boardCopy) == FlipCell(old(Cells(boardCopy)), nrows, ncols, y, x)
  {
    ghost var before := Cells(boardCopy);
    if x >= 0 && x < ncols && y >= 0 && y < nrows {
      boardCopy[y, x] := !boardCopy[y, x];
    }
    forall r, c | 0 <= r < nrows && 0 <= c < ncols
      ensures Cells(boardCopy)[r][c] == FlipCell(before, nrows, ncols, y, x)[r][c]
    {
      FlipCellAt(before, nrows, ncols, y, x, r, c);
    }
    SameCells(Cells(boardCopy), FlipCell(before, nrows, ncols, y, x), nrows, ncols);
  }

  /**
   * `flipCellsAround(coord)`: parse the key, copy the board, and flip the
   * clicked cell and its four neighbours in the copy.  The old board is left
   * as it was and the new one is a fresh array of the same shape.
   */
  method FlipCellsAround(oldBoard: array2<bool>, nrows: nat, ncols: nat, coord: string)
    returns (boardCopy: array2<bool>)
    requires oldBoard.Length0 == nrows && oldBoard.Length1 == ncols
    ensures fresh(boardCopy)
    ensures boardCopy.Length0 == nrows && boardCopy.Length1 == ncols
    ensures unchanged(oldBoard)
    ensures Cells(boardCopy) == Click(Cells(oldBoard), nrows, ncols, coord)
  {
    var parsed := ParseCoord(coord);
    boardCopy := CopyBoard(oldBoard);
    if parsed.Some? {
      var (y, x) := parsed.value;
      FlipCellInPlace(boardCopy, nrows, ncols, y, x);
      FlipCellInPlace(boardCopy, nrows, ncols, y, x + 1);
      FlipCellInPlace(boardCopy, nrows, ncols, y, x - 1);
      FlipCellInPlace(boardCopy, nrows, ncols, y + 1, x);
      FlipCellInPlace(boardCopy, nrows, ncols, y - 1, x);
    }
  }

  /**
   * Clicking the cell the render loop labelled (y, x) toggles exactly the
   * on-board cells of its cross, and clicking it again restores the board.
   */
  lemma ClickCell(b: Board, nrows: nat, ncols: nat, y: nat, x: nat)
    requires IsGrid(b, nrows, ncols)
    ensures forall r, c :: 0 <= r < nrows && 0 <= c < ncols ==>
      Click(b, nrows, ncols, FormatCoord(y, x))[r][c] == (b[r][c] != InCross(y, x, r, c))
    ensures Click(Click(b, nrows, ncols, FormatCoord(y, x)), nrows, ncols, FormatCoord(y, x)) == b
  {
    ParseFormat(y, x);
    forall r, c | 0 <= r < nrows && 0 <= c < ncols
      ensures Click(b, nrows, ncols, FormatCoord(y, x))[r][c] == (b[r][c] != InCross(y, x, r, c))
    {
      FlipAroundAt(b, nrows, ncols, y, x, r, c);
    }
    FlipAroundTwice(b, nrows, ncols, y, x);
  }
}
