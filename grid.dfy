/** The Lights Out board as a value: rows of cells, `true` for lit. This is
 *  what the game's transitions are specified against: the single guarded
 *  toggle of `flipCell`, the five toggles of a click, the win test and the
 *  board the random start produces.
 */
module Grid {

  type Grid = seq<seq<bool>>

  /** `g` has `nrows` rows of `ncols` cells each, the shape the board is
   *  configured with. */
  predicate IsShape(g: Grid, nrows: nat, ncols: nat) {
    |g| == nrows && forall r :: 0 <= r < |g| ==> |g[r]| == ncols
  }

  /** The check `flipCell` makes before it toggles (y, x). */
  predicate InBounds(nrows: nat, ncols: nat, y: int, x: int) {
    x >= 0 && x < ncols && y >= 0 && y < nrows
  }

  function Abs(n: int): nat {
    if n < 0 then -n else n
  }

  /** Cell (r, c) is (y, x) itself or one of its four orthogonal neighbours. */
  predicate Adjacent(r: int, c: int, y: int, x: int) {
    Abs(r - y) + Abs(c - x) <= 1
  }

  /** `flipCell(y, x, boardCopy)`: toggle (y, x) if it is on the board and
   *  otherwise do nothing. */
  function FlipCell(g: Grid, nrows: nat, ncols: nat, y: int, x: int): (r: Grid)
    requires IsShape(g, nrows, ncols)
    ensures IsShape(r, nrows, ncols)
    ensures forall i, j :: 0 <= i < nrows && 0 <= j < ncols ==>
              r[i][j] == (if i == y && j == x then !g[i][j] else g[i][j])
  {
    if InBounds(nrows, ncols, y, x) then g[y := g[y][x := !g[y][x]]] else g
  }

  /** The board after a click on (y, x): `flipCell` on the centre, then left,
   *  right, top and bottom. The five targets are distinct, so each cell of
   *  the neighbourhood that is on the board is toggled exactly once and every
   *  other cell keeps its value. */
  function FlipAround(g: Grid, nrows: nat, ncols: nat, y: int, x: int): (r: Grid)
    requires IsShape(g, nrows, ncols)
    ensures IsShape(r, nrows, ncols)
    ensures forall i, j :: 0 <= i < nrows && 0 <= j < ncols ==>
              r[i][j] == (g[i][j] != Adjacent(i, j, y, x))
  {
    var centre := FlipCell(g, nrows, ncols, y, x);
    var left := FlipCell(centre, nrows, ncols, y, x - 1);
    var right := FlipCell(left, nrows, ncols, y, x + 1);
    var top := FlipCell(right, nrows, ncols, y - 1, x);
    FlipCell(top, nrows, ncols, y + 1, x)
  }

  /** Two boards of one shape with the same cells are the same board. */
  lemma SameCells(g: Grid, h: Grid, nrows: nat, ncols: nat)
    requires IsShape(g, nrows, ncols) && IsShape(h, nrows, ncols)
    requires forall i, j :: 0 <= i < nrows && 0 <= j < ncols ==> g[i][j] == h[i][j]
    ensures g == h
  {
    forall i | 0 <= i < nrows ensures g[i] == h[i] {
      assert forall j :: 0 <= j < ncols ==> g[i][j] == h[i][j];
    }
  }

  /** Clicking the same cell twice restores the board. */
  lemma FlipAroundTwice(g: Grid, nrows: nat, ncols: nat, y: int, x: int)
    requires IsShape(g, nrows, ncols)
    ensures FlipAround(FlipAround(g, nrows, ncols, y, x), nrows, ncols, y, x) == g
  {
    var once := FlipAround(g, nrows, ncols, y, x);
    SameCells(FlipAround(once, nrows, ncols, y, x), g, nrows, ncols);
  }

  /** Some cell of the click's neighbourhood is on the board. */
  predicate TouchesBoard(nrows: nat, ncols: nat, y: int, x: int) {
    exists r, c :: 0 <= r < nrows && 0 <= c < ncols && Adjacent(r, c, y, x)
  }

  /** A click changes the board exactly when its neighbourhood reaches the
   *  board: out-of-range targets are skipped without error, and a click
   *  whose whole neighbourhood is off the board leaves it as it was. */
  lemma FlipAroundUnchangedIff(g: Grid, nrows: nat, ncols: nat, y: int, x: int)
    requires IsShape(g, nrows, ncols)
    ensures FlipAround(g, nrows, ncols, y, x) == g <==> !TouchesBoard(nrows, ncols, y, x)
  {
  }

  /** A board of `nrows` rows of `ncols` unlit cells. */
  function Unlit(nrows: nat, ncols: nat): (g: Grid)
    ensures IsShape(g, nrows, ncols)
    ensures forall r, c :: 0 <= r < nrows && 0 <= c < ncols ==> !g[r][c]
  {
    seq(nrows, _ => seq(ncols, _ => false))
  }

  /** The coordinates of the lit cells. */
  function LitCells(g: Grid): set<(int, int)> {
    set r, c | 0 <= r < |g| && 0 <= c < |g[r]| && g[r][c] :: (r, c)
  }

  /** On an unlit board, a click lights exactly the cells of its
   *  neighbourhood that are on the board. */
  lemma LitAfterFlipOnUnlit(nrows: nat, ncols: nat, y: int, x: int)
    ensures LitCells(FlipAround(Unlit(nrows, ncols), nrows, ncols, y, x))
            == set r, c | 0 <= r < nrows && 0 <= c < ncols && Adjacent(r, c, y, x) :: (r, c)
  {
  }

  /** A click in the corner of an unlit 5 x 5 board lights three cells. */
  lemma CornerFlipLightsThree()
    ensures LitCells(FlipAround(Unlit(5, 5), 5, 5, 0, 0)) == {(0, 0), (0, 1), (1, 0)}
  {
  }

  /** A click in the middle of an unlit 5 x 5 board lights five cells. */
  lemma InteriorFlipLightsFive()
    ensures LitCells(FlipAround(Unlit(5, 5), 5, 5, 2, 2))
            == {(2, 2), (1, 2), (3, 2), (2, 1), (2, 3)}
  {
  }

  /** `Array.prototype.every`: `p` is tested on each element front to back,
   *  and the answer is whether it held of all of them. */
  function Every<T>(s: seq<T>, p: T -> bool): (b: bool)
    ensures b <==> forall i :: 0 <= i < |s| ==> p(s[i])
  {
    assert forall i :: 1 <= i < |s| ==> s[1..][i - 1] == s[i];
    |s| == 0 || (p(s[0]) && Every(s[1..], p))
  }

  predicate IsLit(cell: bool) {
    cell == true
  }

  predicate RowLit(row: seq<bool>) {
    Every(row, IsLit)
  }

  /** `hasWon`: every row passes the test that every one of its cells is
   *  `true`. So the player has won exactly when every cell of every row is
   *  lit, and a board without rows counts as won. */
  function HasWon(g: Grid): (won: bool)
    ensures won <==> forall r, c :: 0 <= r < |g| && 0 <= c < |g[r]| ==> g[r][c]
  {
    Every(g, RowLit)
  }

  /** The board `createBoard` builds: `nrows` rows of `ncols` cells, filled
   *  row by row, where `draw(k)` is the outcome of the k-th random test
   *  (a random number below the chance that a light starts on). */
  function Initial(nrows: nat, ncols: nat, draw: nat -> bool): (g: Grid)
    ensures IsShape(g, nrows, ncols)
  {
    seq(nrows, r requires 0 <= r => seq(ncols, c requires 0 <= c => draw(r * ncols + c)))
  }

  /** Multiplying by a natural number keeps the order of natural numbers. */
  lemma MulMonotone(a: nat, b: nat, n: nat)
    requires a <= b
    ensures a * n <= b * n
  {
  }

  /** Each cell of the starting board takes its own random test: cell (r, c)
   *  takes test number r * ncols + c, and no two cells share one. */
  lemma InitialCell(nrows: nat, ncols: nat, draw: nat -> bool, r: nat, c: nat, r': nat, c': nat)
    requires r < nrows && c < ncols && r' < nrows && c' < ncols
    ensures Initial(nrows, ncols, draw)[r][c] == draw(r * ncols + c)
    ensures r * ncols + c < nrows * ncols
    ensures r * ncols + c == r' * ncols + c' ==> r == r' && c == c'
  {
    assert (r + 1) * ncols == r * ncols + ncols;
    MulMonotone(r + 1, nrows, ncols);
    if r < r' {
      MulMonotone(r + 1, r', ncols);
    } else if r' < r {
      assert (r' + 1) * ncols == r' * ncols + ncols;
      MulMonotone(r' + 1, r, ncols);
    }
  }

  /** When every random test succeeds (a chance of 1), the game starts won. */
  lemma AllLitStartWon(nrows: nat, ncols: nat, draw: nat -> bool)
    requires forall k :: draw(k)
    ensures HasWon(Initial(nrows, ncols, draw))
  {
  }

  /** When every random test fails (a chance of 0), a board with at least
   *  one cell does not start won. */
  lemma AllUnlitStartNotWon(nrows: nat, ncols: nat, draw: nat -> bool)
    requires nrows > 0 && ncols > 0
    requires forall k :: !draw(k)
    ensures !HasWon(Initial(nrows, ncols, draw))
  {
  }
}
