/** The board as the game holds it: an array of rows, each row an array of
 *  cells, as JavaScript's array of arrays. `createBoard` fills a new board
 *  row by row; a click's state update copies the old board row by row and
 *  toggles cells of the copy in place, leaving the old board as it was.
 *
 *  The component's properties `nrows` and `ncols` are passed explicitly;
 *  the boards they are used with have that shape, since `createBoard` builds
 *  the board from the same two values.
 */
module Board {
  import Grid
  import Coord

  type Rows = array<array<bool>>

  /** `board` has `nrows` rows of `ncols` cells. */
  predicate IsBoard(board: Rows, nrows: nat, ncols: nat)
    reads board
  {
    board.Length == nrows && forall r :: 0 <= r < board.Length ==> board[r].Length == ncols
  }

  /** No row array is shared between two rows of `board`. */
  predicate DistinctRows(board: Rows)
    reads board
  {
    forall r, s :: 0 <= r < board.Length && 0 <= s < board.Length && r != s ==> board[r] != board[s]
  }

  /** The cell values of `board`, row by row. */
  function Cells(board: Rows): (g: Grid.Grid)
    reads board, board[..]
    ensures |g| == board.Length
    ensures forall r :: 0 <= r < board.Length ==> g[r] == board[r][..]
  {
    seq(board.Length, r requires 0 <= r < board.Length reads board, board[..] => board[r][..])
  }

  /** `createBoard`: `nrows` fresh rows of `ncols` fresh cells, cell (r, c)
   *  set by random test number r * ncols + c. */
  method CreateBoard(nrows: nat, ncols: nat, draw: nat -> bool) returns (board: Rows)
    ensures fresh(board) && forall r :: 0 <= r < board.Length ==> fresh(board[r])
    ensures IsBoard(board, nrows, ncols) && DistinctRows(board)
    ensures Cells(board) == Grid.Initial(nrows, ncols, draw)
  {
    ghost var want := Grid.Initial(nrows, ncols, draw);
    var rows: seq<array<bool>> := [];
    for rowIdx := 0 to nrows
      invariant |rows| == rowIdx
      invariant forall r :: 0 <= r < rowIdx ==> fresh(rows[r]) && rows[r].Length == ncols
      invariant forall r :: 0 <= r < rowIdx ==> rows[r][..] == want[r]
      invariant forall r, s :: 0 <= r < s < rowIdx ==> rows[r] != rows[s]
    {
      var row := new bool[ncols];
      for colIdx := 0 to ncols
        modifies row
        invariant forall c :: 0 <= c < colIdx ==> row[c] == draw(rowIdx * ncols + c)
      {
        row[colIdx] := draw(rowIdx * ncols + colIdx);
      }
      assert row[..] == want[rowIdx];
      rows := rows + [row];
    }
    board := new array<bool>[nrows](r requires 0 <= r < nrows => rows[r]);
  }

  /** `flipCell(y, x, boardCopy)`: if (y, x) is on the board, toggle that
   *  cell of the board in place; otherwise leave the board alone. */
  method FlipCell(y: int, x: int, boardCopy: Rows, nrows: nat, ncols: nat)
    requires IsBoard(boardCopy, nrows, ncols) && DistinctRows(boardCopy)
    modifies boardCopy[..]
    ensures Cells(boardCopy) == Grid.FlipCell(old(Cells(boardCopy)), nrows, ncols, y, x)
  {
    if x >= 0 && x < ncols && y >= 0 && y < nrows {
      boardCopy[y][x] := !boardCopy[y][x];
    }
  }

  /** The row-by-row copy the update starts from: a new board whose rows
   *  are new arrays holding the old rows' cells. */
  method CopyRows(oldBoard: Rows, nrows: nat, ncols: nat) returns (newBoard: Rows)
    requires IsBoard(oldBoard, nrows, ncols)
    ensures fresh(newBoard) && forall r :: 0 <= r < newBoard.Length ==> fresh(newBoard[r])
    ensures IsBoard(newBoard, nrows, ncols) && DistinctRows(newBoard)
    ensures Cells(newBoard) == Cells(oldBoard)
  {
    var rows: seq<array<bool>> := [];
    for r := 0 to nrows
      invariant |rows| == r
      invariant forall k :: 0 <= k < r ==> fresh(rows[k]) && rows[k].Length == ncols
      invariant forall k :: 0 <= k < r ==> rows[k][..] == oldBoard[k][..]
      invariant forall k, l :: 0 <= k < l < r ==> rows[k] != rows[l]
    {
      var row := oldBoard[r][..];
      var copy := new bool[ncols](c requires 0 <= c < ncols => row[c]);
      assert copy[..] == row;
      rows := rows + [copy];
    }
    newBoard := new array<bool>[nrows](r requires 0 <= r < nrows => rows[r]);
  }

  /** The board a click on the cell whose coordinate string is `coord` leads
   *  to. A coordinate that does not decode to two numbers has a NaN or
   *  `undefined` row or column; every comparison of the bounds check is then
   *  false, so none of the five cells is toggled. The model writes that
   *  outcome directly as the `None` case rather than deriving it from
   *  JavaScript's comparisons. */
  function Clicked(g: Grid.Grid, nrows: nat, ncols: nat, coord: string): (r: Grid.Grid)
    requires Grid.IsShape(g, nrows, ncols)
    ensures Grid.IsShape(r, nrows, ncols)
    ensures Coord.Decode(coord).None? ==> r == g
  {
    match Coord.Decode(coord)
    case Some((y, x)) => Grid.FlipAround(g, nrows, ncols, y, x)
    case None => g
  }

  /** The state update of `flipCellsAround(coord)`: copy the old board row by
   *  row, then flip the centre, left, right, top and bottom cells of the
   *  copy. The old board and its rows are not modified; the new board shares
   *  no row with it. */
  method FlipCellsAround(oldBoard: Rows, nrows: nat, ncols: nat, coord: string)
    returns (newBoard: Rows)
    requires IsBoard(oldBoard, nrows, ncols)
    ensures fresh(newBoard) && forall r :: 0 <= r < newBoard.Length ==> fresh(newBoard[r])
    ensures IsBoard(newBoard, nrows, ncols) && DistinctRows(newBoard)
    ensures Cells(oldBoard) == old(Cells(oldBoard))
    ensures Cells(newBoard) == Clicked(old(Cells(oldBoard)), nrows, ncols, coord)
  {
    newBoard := CopyRows(oldBoard, nrows, ncols);
    match Coord.Decode(coord)
    case Some((y, x)) => FlipAround(y, x, newBoard, nrows, ncols);
    case None =>
  }

  /** The five `flipCell` calls of a click on (y, x), on the copy. */
  method FlipAround(y: int, x: int, boardCopy: Rows, nrows: nat, ncols: nat)
    requires IsBoard(boardCopy, nrows, ncols) && DistinctRows(boardCopy)
    modifies boardCopy[..]
    ensures Cells(boardCopy) == Grid.FlipAround(old(Cells(boardCopy)), nrows, ncols, y, x)
  {
    FlipCell(y, x, boardCopy, nrows, ncols);      // centre
    FlipCell(y, x - 1, boardCopy, nrows, ncols);  // left
    FlipCell(y, x + 1, boardCopy, nrows, ncols);  // right
    FlipCell(y - 1, x, boardCopy, nrows, ncols);  // top
    FlipCell(y + 1, x, boardCopy, nrows, ncols);  // bottom
  }

  /** Clicking a cell of the board uses that cell's coordinate string, and
   *  the update flips around exactly that cell. */
  lemma ClickedCell(g: Grid.Grid, nrows: nat, ncols: nat, y: nat, x: nat)
    requires Grid.IsShape(g, nrows, ncols)
    ensures Clicked(g, nrows, ncols, Coord.Encode(y, x)) == Grid.FlipAround(g, nrows, ncols, y, x)
  {
    Coord.DecodeEncode(y, x);
  }

  /** Clicking the same cell twice gives back the board before the clicks. */
  lemma ClickedTwice(g: Grid.Grid, nrows: nat, ncols: nat, coord: string)
    requires Grid.IsShape(g, nrows, ncols)
    ensures Clicked(Clicked(g, nrows, ncols, coord), nrows, ncols, coord) == g
  {
    match Coord.Decode(coord)
    case Some((y, x)) => Grid.FlipAroundTwice(g, nrows, ncols, y, x);
    case None =>
  }
}
