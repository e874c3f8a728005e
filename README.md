# Sudoku photo solver — verified model of its core

The program takes a photo of a sudoku, finds the outline of the board, warps the
board onto a 900 x 900 square, reads the digit in each of the 81 cells with an OCR
engine, and fills the empty cells with a backtracking search. This project models
the parts of `main.py` that decide what comes out:

- **Grid** (`grid.dfy`): the solver's grid of strings, where "." marks an empty
  cell. A cell is `Empty` or `Text(s)` with s != "."; `Board` is a 9 x 9
  `seq<seq<Cell>>`.
- **Solver** (`solver.dfy`): `valid` and `solve` of `SudokuSolver`.
  - `Valid` follows the three membership tests of `valid`.
  - `Search`/`TryDigits` is the functional meaning of `solve`.
  - `Solve`/`TryCandidates`/`TryCandidate` are the in-place solver on an
    `array2<Cell>`, proved to do exactly what `Search` says. That covers both the
    grid it leaves on success and the restored grid on failure.
- **SearchProperties** (`search_properties.dfy`): what the search guarantees
  (soundness, identity on filled grids, smallest-digit choice, the one-blank
  case) and what it does not.
- **Corners** (`corners.dfy`):
  - the loop that takes the first contour approximation with four vertices;
  - the `argmin`/`argmax` ordering of its corners;
  - the pairing of these corners with the corners of the target square.
- **Assembly** (`assembly.dfy`):
  - the split of the warped board into 9 x 9 pieces and the `[10:90, 10:90]` crop;
  - the data frame filled from the recognizer;
  - `fillna('.')` and the grid read back from it.
- **Pipeline** (`pipeline.dfy`): `solve_sudoku` from the contour approximations
  to the grid it returns.

The model follows the code where it departs from what a sudoku solver is usually
taken to promise:

- **Partial box test.** The box test of `valid` ranges over
  `range(r, r // 3 * 3 + 3)` and `range(c, c // 3 * 3 + 3)`. It starts at (r, c),
  not at the corner of the box, so the part of the box above row r or left of
  column c is never examined.
  - `ValidIgnoresBoxAboveLeft` proves that such a cell outside row r and column c has no influence on `valid`.
  - `SolvedBoxMayRepeat` exhibits a grid that `solve` completes with "5" twice in
    one box.
- **Duplicate givens.** Givens are never checked against each other. A complete
  grid with a repeated digit is returned as solved (`DuplicateGivensAccepted`).
- **Failed search.** When the search fails, the grid is still returned, as it was
  assembled (`Solver.Outcome`, `OutcomeKeepsGivens`). No failure is reported.
- **Any text in a cell.** A cell may hold any string the recognizer produced
  ("0", or several characters). Only "." counts as empty.

## Model

| member | source | states |
|---|---|---|
| Grid.Parse | main.py:84-86 | the stored string of the parsed cell is the input string, and the cell is empty exactly when the string is "." |
| Grid.ParseShow | main.py:84-86 | reading back the string of a cell gives the same cell |
| Grid.DigitText | main.py:27-28 | `str(i)` for a candidate 1..9 is the one-character string of that digit, a character in '1'..'9' whose value is i |
| Grid.Digit | main.py:29 | the written cell is a digit cell whose string is `str(i)` |
| Grid.Place | main.py:29 | `grid[r][c] = x` sets cell (r, c) to x and leaves every other cell as it was |
| Grid.NewGrid | main.py:86 | a fresh 9 x 9 grid holding exactly the given board |
| Solver.RowStringsMeans | main.py:14 | num is not in `grid[r]` exactly when no cell of row r shows num |
| Solver.ColStringsMeans | main.py:15 | num is not in the column list exactly when no cell of column c shows num |
| Solver.SpanStringsMeans | main.py:16 | num is missing from one row of the box list exactly when no cell of that row span shows it |
| Solver.BoxStringsMeans | main.py:16 | num is missing from the nested-range list exactly when no cell (i, j) of the ranges shows it |
| Solver.BoxEndIsFloor | main.py:16 | BoxEnd(r) is the range end `r // 3 * 3 + 3`, which lies in (r, r + 3] |
| Solver.ValidMeans | main.py:13-17 | `valid` is true iff num is absent from row r, from column c and from the cells r <= i < box end, c <= j < box end — and only those |
| Solver.Solve | main.py:19-25 | returns True iff the search from (r, c) succeeds; on True the grid is the search's result, on False the grid is unchanged |
| Solver.TryCandidates | main.py:26-33 | the candidate loop succeeds iff some candidate does, leaving the first success's grid, and otherwise restores the grid |
| Solver.TryCandidate | main.py:28-32 | one candidate succeeds iff it passes `valid` and the search after writing it succeeds; on failure the cell is reset to "." |
| SearchProperties.SearchSound | main.py:19-33 | a successful search keeps all givens and all cells before (r, c), leaves no "." from (r, c) on, and every digit it placed is in "1".."9" and alone in its row and column |
| SearchProperties.TrySound | main.py:26-33 | the same guarantee for the candidate loop from any candidate on |
| SearchProperties.PlacementSound | main.py:27-30 | a digit that passes `valid` and whose continuation succeeds stays alone in its row and column of the final grid |
| SearchProperties.FirstSuccess | main.py:27-31 | the first candidate from d on whose search succeeds, or 10 when none does, with all earlier candidates failing |
| SearchProperties.TryFirstSuccess | main.py:26-33 | the candidate loop returns the search of the first successful candidate, or None when there is none |
| SearchProperties.SearchKeepsSmallest | main.py:26-33 | at an empty cell the search fails iff no candidate succeeds, and otherwise keeps the smallest successful digit in that cell |
| SearchProperties.SearchFilledIsIdentity | main.py:20-25 | a grid with no "." from (r, c) on is returned unchanged |
| SearchProperties.DuplicateGivensAccepted | main.py:24-25 | some complete grid with "1" twice in its first row is returned as solved |
| SearchProperties.SkipGivens | main.py:24-25 | the search passes over filled cells: from (r, c) it equals the search from the next (r0, c0) when every cell in between is filled |
| SearchProperties.LastBlankCandidate | main.py:27-31 | with a single "." left, a candidate succeeds iff it passes `valid`, and the grid after it is returned as it stands |
| SearchProperties.FirstValid | main.py:27-28 | the first candidate from d on that passes `valid`, or 10, with all earlier candidates failing `valid` |
| SearchProperties.LastBlankFirstSuccess | main.py:27-31 | with a single "." left, the first successful candidate is the first one that passes `valid` |
| SearchProperties.SingleBlank | main.py:19-33 | a grid with exactly one "." is solved by writing the smallest valid digit there and nothing else, or fails when no digit is valid |
| SearchProperties.ValidIgnoresBoxAboveLeft | main.py:16 | changing a box cell above row r or left of column c (outside row r and column c) never changes `valid` at (r, c) |
| SearchProperties.SolvedBoxMayRepeat | main.py:13-33 | on a concrete grid the search writes "5" in the box where a "5" already stands |
| SearchProperties.OutcomeKeepsGivens | main.py:87-88 | the returned grid keeps every given and is either the assembled grid or has no "." left |
| Corners.ArgMin | main.py:52 | `np.argmin`: the index of a least element, with no earlier index holding that value |
| Corners.ArgMax | main.py:53 | `np.argmax`: the index of a greatest element, with no earlier index holding that value |
| Corners.FirstMinUnique | main.py:52 | the first index of a least element is unique |
| Corners.FirstMaxUnique | main.py:53 | the first index of a greatest element is unique |
| Corners.OrderCorners | main.py:48-57 | rect[0], rect[1], rect[2], rect[3] are the first vertices of least x+y, least y-x, greatest x+y and greatest y-x; their sums and differences bound those of all vertices; each is a vertex |
| Corners.SourceCorners | main.py:64 | pts1 lists the first vertices of least x+y, least y-x, greatest y-x and greatest x+y, in that order |
| Corners.Correspondence | main.py:64-65 | least x+y goes to (0,0), least y-x to (900,0), greatest y-x to (0,900), greatest x+y to (900,900) |
| Corners.TiltedSquareRepeatsCorner | main.py:51-57 | on a diamond, the top-left and top-right picks are the same vertex |
| Corners.LocateBoard | main.py:44-60 | None exactly when no approximation has four vertices; otherwise the ordered corners of the first one that does |
| Assembly.SplitPiece | main.py:73-75 | piece k of the split is the band of pixels 100k .. 100k+99 |
| Assembly.SplitPiecesTile | main.py:73-75 | the nine pieces cover pixels 0 .. 899 in order, each starting where the previous one ends |
| Assembly.Slice | main.py:77 | `a[from:to]` keeps pixels lo+from .. lo+to-1 of the piece when `to` is within it, ends at the piece's end otherwise, and never leaves the piece |
| Assembly.CellRegion | main.py:73-77 | cell (row, col) is read from pixel rows 100*row+10 .. 100*row+89 and columns 100*col+10 .. 100*col+89 |
| Assembly.CellRegionsDisjoint | main.py:73-77 | each cell image is 80 x 80 inside the board, and the images of two different cells do not overlap |
| Assembly.CellFromText | main.py:79-84 | the cell shows the first string read, or "." when nothing was read |
| Assembly.Assemble | main.py:71-86 | cell (row, col) of the grid shows the first string read in region (row, col), or "."; the grid equals Assembled |
| Pipeline.SolveSudoku | main.py:35-88 | None exactly when no approximation has four vertices; otherwise a fresh 9 x 9 grid equal to the outcome of solving the grid assembled from the first four-vertex approximation's corners |

## Left out

- Image processing before the corner search is not modelled. This covers `imread`, grayscale, blur, adaptive threshold, `findContours`, sorting by area and `approxPolyDP`; its output (the approximations, in order) is a parameter.
- `getPerspectiveTransform` and `warpPerspective` are not modelled: they are floating-point code in OpenCV. The recognizer takes the source corners and reads pixels of the warped board through that parameter.
- The EasyOCR reader (including `allowlist`) is not modelled. It is the parameter `recognize`, which may return any list of strings.
- Recognizer failures are not modelled. `recognize` is a total function, while an exception raised inside `readtext` aborts `solve_sudoku` and reaches the bot's catch-all handler; that path is I/O and stays out.
- `copyMakeBorder` is left out: its result is discarded, so it has no effect.
- The `sudoku_map` list is left out: it is built but never read.
- The float32 type of `rect` and `pts1` is not modelled. Coordinates are unbounded integers, since photo pixel coordinates are far from overflow.
- When no four-vertex contour exists, `location[0]` raises a TypeError; the model returns None instead.
- `draw_sudoku` (matplotlib rendering), the Telegram bot, its handlers and their exception handling are left out: they are I/O.
- The grid is modelled as one 9 x 9 array, so Python's separate row lists and any aliasing between them are not modelled. `solve` never aliases rows.
- The running time of the search is not modelled (it is exponential in the worst case). The model proves termination only.
