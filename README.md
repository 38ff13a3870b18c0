# Lights Out board, modelled in Dafny

The game is a grid of cells, each lit or unlit. Clicking a cell toggles it
and its orthogonal neighbours that lie on the board; the player wins when
every cell is lit. This project models the board logic of the `Board`
component: building the random starting board, the state update of a click
(copy the old board row by row, toggle five cells of the copy), the win
test, and the `${y}-${x}` coordinate strings that carry a clicked cell's
position to the update.

- `coord.dfy`, module `Coord`: the coordinate string. `Encode` is the
  template literal, `Decode` splits the string at dashes, converts the
  pieces to numbers and takes the first two, with `Split`, `Join` and `Number` modelling the
  JavaScript operations on the strings involved.
- `grid.dfy`, module `Grid`: the board as a value (`seq<seq<bool>>`) and the
  specification of the transitions. `FlipCell` is one guarded toggle,
  `FlipAround` the five toggles of a click, `HasWon` the nested `every`, and
  `Initial` the starting board. `Adjacent` (Manhattan distance at most 1) is
  the independent description of the neighbourhood that the click is proved
  against.
- `board.dfy`, module `Board`: the board as the game holds it, an array of
  row arrays (`array<array<bool>>`), and the imperative code. `CreateBoard`
  fills fresh rows with nested loops. `FlipCellsAround` copies the rows into
  fresh arrays (`CopyRows`) and toggles cells of the copy in place
  (`FlipCell`, five times through `FlipAround`). Each method's contract ties
  the arrays' contents (`Cells`) to the functions of `Grid`. The old board is
  outside every `modifies` clause, so it keeps its contents, and the new
  board's rows are fresh, so no row is shared with it.

The component's properties `nrows` and `ncols` are parameters. The bounds
check of `flipCell` compares against them, not against the board's lengths,
so the update requires a board of that shape; `CreateBoard` builds exactly
such a board from the same two values.

Each cell's random test (a random number compared with the chance that a
light starts on) is modelled by a parameter `draw: nat -> bool`:
`draw(k)` is the outcome of the k-th test. The nested
loops run the tests in row-major order, so cell (r, c) takes test
r * ncols + c.

With `nrows` equal to 0 the loops of `createBoard` build an empty board; the
code checks neither dimension, and the model follows it: `CreateBoard`
accepts any natural numbers and `HasWon` of the empty board is true.

## Model

| member | source | states |
|---|---|---|
| `Coord.NatToString` | src/Board.js:80 | the decimal text of a cell index is non-empty, all digits, and has no leading zero |
| `Coord.Number` | src/Board.js:53 | `Number` of a piece yields a value exactly when the piece is all digits; the empty piece yields 0 |
| `Coord.Split` | src/Board.js:53 | splitting on `-` yields at least one piece and no piece contains `-` |
| `Coord.JoinSplit` | src/Board.js:53 | gluing the pieces of a split back with the separator gives the original string |
| `Coord.SplitPair` | src/Board.js:53 | two dash-free strings joined by one `-` split into exactly those two pieces |
| `Coord.NumberOfNatToString` | src/Board.js:53 | `Number` of the decimal text of n is n |
| `Coord.DecodeEncode` | src/Board.js:53 | decoding the string `${y}-${x}` gives back (y, x) for all natural y, x |
| `Coord.Encode` | src/Board.js:80 | the string of cell (y, x) splits at its one dash into exactly the decimal texts of y and x |
| `Coord.Decode` | src/Board.js:53 | a string without a dash decodes to nothing; otherwise the first two pieces are read with `Number` and further pieces ignored (its behaviour on the board's own strings is stated by `Coord.DecodeEncode`, and the no-number case by `Board.Clicked`) |
| `Coord.DecodeEdgeCases` | src/Board.js:53 | `"3-"` decodes to (3, 0) because the empty piece is 0, `"1-2-3"` to (1, 2), and `"5"` to nothing |
| `Coord.EncodeInjective` | src/Board.js:80-83 | two cells get the same coordinate string (and key) exactly when they are the same cell |
| `Grid.InBounds` | src/Board.js:58 | the bounds check itself; it has no contract of its own, and `Grid.FlipCell` states its effect: a cell is toggled only when it is on the board |
| `Grid.FlipCell` | src/Board.js:55-61 | one guarded toggle keeps the shape, inverts cell (y, x) when it is on the board and changes no other cell |
| `Grid.FlipAround` | src/Board.js:65-69 | after a click on (y, x) the shape is kept and a cell is inverted exactly when it is (y, x) or one of its four orthogonal neighbours; every other cell is unchanged |
| `Grid.FlipAroundTwice` | src/Board.js:65-69 | clicking the same (y, x) twice gives back the original board |
| `Grid.FlipAroundUnchangedIff` | src/Board.js:58 | a click leaves the board equal to itself exactly when none of its neighbourhood is on the board; off-board targets are skipped |
| `Grid.LitAfterFlipOnUnlit` | src/Board.js:55-69 | on an unlit board a click lights exactly the on-board cells of its neighbourhood |
| `Grid.CornerFlipLightsThree` | src/Board.js:55-69 | a click on (0, 0) of an unlit 5 x 5 board lights exactly (0, 0), (0, 1) and (1, 0) |
| `Grid.InteriorFlipLightsFive` | src/Board.js:55-69 | a click on (2, 2) of an unlit 5 x 5 board lights exactly (2, 2), (1, 2), (3, 2), (2, 1) and (2, 3) |
| `Grid.Every` | src/Board.js:46-47 | `every` holds exactly when the test holds of each element |
| `Grid.HasWon` | src/Board.js:45-49 | `hasWon` is true exactly when every cell of every row is lit; a board with no rows is won |
| `Grid.Initial` | src/Board.js:34-43 | the starting board has `nrows` rows of `ncols` cells |
| `Grid.InitialCell` | src/Board.js:36-40 | cell (r, c) of the starting board is random test r * ncols + c, that test lies among the first nrows * ncols, and no two cells share a test |
| `Grid.AllLitStartWon` | src/Board.js:39 | when every random test succeeds the starting board is won |
| `Grid.AllUnlitStartNotWon` | src/Board.js:39 | when every random test fails a board with at least one cell does not start won |
| `Board.CreateBoard` | src/Board.js:34-43 | `createBoard` returns a fresh board of `nrows` fresh, distinct rows of `ncols` cells whose cells are the starting board `Grid.Initial` |
| `Board.FlipCell` | src/Board.js:55-61 | the in-place toggle on the copy changes the cells exactly as `Grid.FlipCell` |
| `Board.CopyRows` | src/Board.js:63 | the row-by-row copy is a fresh board of fresh, distinct rows with the old board's cells |
| `Board.FlipAround` | src/Board.js:65-69 | the five in-place toggles change the copy exactly as `Grid.FlipAround` |
| `Board.FlipCellsAround` | src/Board.js:51-73 | the update returns a fresh board of the same shape whose cells are the click's result on the old cells, and the old board keeps its cells |
| `Board.Clicked` | src/Board.js:52-72 | the update keeps the shape, and a coordinate that does not decode to two numbers toggles nothing |
| `Board.ClickedCell` | src/Board.js:80-85 | clicking a cell hands the update that cell's string, and the update flips around exactly that cell |
| `Board.ClickedTwice` | src/Board.js:51-73 | two updates with the same coordinate string give back the board before them |

## Left out

- The React machinery: `useState`, `setBoard` and its functional updater. The updater's body is the method `Board.FlipCellsAround` from the old board to the new one.
- Rendering: the table of `Cell` components, the win panel markup and the CSS. `hasWon` is modelled on the board's cell values (`Grid.HasWon` of `Board.Cells`).
- The floating-point probability `chanceLightStartsOn` and `Math.random()`: each test's outcome is the parameter `draw`, so only the shape and the order of the tests are modelled.
- Board.CreateBoard: JavaScript grows the rows with `push`; the model allocates each row at its final length, which the loops know in advance, and fills it.
- Coord.NatToString: JavaScript numbers are doubles, and a template literal writes an integer of 10^21 or more in exponent form (`1e+21`); the model's decimal text is exact for every natural number, so it agrees with JavaScript for indices below 2^53, which covers every board that can be rendered.
- Coord.Number: JavaScript's `Number` rounds digit strings above 2^53 and reads very long ones as `Infinity`; the model's value is exact, so it agrees with JavaScript for values below 2^53.
- Coord.Number: JavaScript's `Number` also accepts surrounding whitespace, a sign, a decimal point, exponents and hexadecimal; the model treats every string that is not all digits as NaN. The coordinate strings the board itself produces are all digits and a dash.
- The update for boards whose shape differs from `nrows` by `ncols`: the game never builds one, so `Board.FlipCellsAround` requires that shape.
