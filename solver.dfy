/** The backtracking solver of `SudokuSolver`: the placement test `valid` and the
    recursive search `solve`, which fills the grid in place. */
module Solver {
  import opened Wrappers
  import opened Grid

  /** `grid[r]`: the strings of row r. */
  function RowStrings(b: Board, r: int): seq<string>
    requires 0 <= r < 9
  {
    seq(9, j requires 0 <= j < 9 => Show(b[r][j]))
  }

  /** `[grid[i][c] for i in range(9)]`. */
  function ColStrings(b: Board, c: int): seq<string>
    requires 0 <= c < 9
  {
    seq(9, i requires 0 <= i < 9 => Show(b[i][c]))
  }

  /** The strings of cells (i, j0), ..., (i, jEnd - 1). */
  function SpanStrings(b: Board, i: int, j0: int, jEnd: int): seq<string>
    requires 0 <= i < 9 && 0 <= j0 <= jEnd <= 9
  {
    seq(jEnd - j0, k requires 0 <= k < jEnd - j0 => Show(b[i][j0 + k]))
  }

  /** The strings of cells (i, j) with i0 <= i < iEnd and j0 <= j < jEnd, row by
      row: the list the box test builds with its two nested ranges. */
  function BoxStrings(b: Board, i0: int, iEnd: int, j0: int, jEnd: int): seq<string>
    requires 0 <= i0 <= iEnd <= 9 && 0 <= j0 <= jEnd <= 9
    decreases iEnd - i0
  {
    if i0 == iEnd then [] else SpanStrings(b, i0, j0, jEnd) + BoxStrings(b, i0 + 1, iEnd, j0, jEnd)
  }

  lemma RowStringsMeans(b: Board, r: int, t: string)
    requires 0 <= r < 9
    ensures t !in RowStrings(b, r) <==> forall j :: 0 <= j < 9 ==> Show(b[r][j]) != t
  {
    if exists j :: 0 <= j < 9 && Show(b[r][j]) == t {
      var j :| 0 <= j < 9 && Show(b[r][j]) == t;
      assert RowStrings(b, r)[j] == t;
    }
  }

  lemma ColStringsMeans(b: Board, c: int, t: string)
    requires 0 <= c < 9
    ensures t !in ColStrings(b, c) <==> forall i :: 0 <= i < 9 ==> Show(b[i][c]) != t
  {
    if exists i :: 0 <= i < 9 && Show(b[i][c]) == t {
      var i :| 0 <= i < 9 && Show(b[i][c]) == t;
      assert ColStrings(b, c)[i] == t;
    }
  }

  lemma SpanStringsMeans(b: Board, i: int, j0: int, jEnd: int, t: string)
    requires 0 <= i < 9 && 0 <= j0 <= jEnd <= 9
    ensures t !in SpanStrings(b, i, j0, jEnd) <==> forall j :: j0 <= j < jEnd ==> Show(b[i][j]) != t
  {
    if exists j :: j0 <= j < jEnd && Show(b[i][j]) == t {
      var j :| j0 <= j < jEnd && Show(b[i][j]) == t;
      assert SpanStrings(b, i, j0, jEnd)[j - j0] == t;
    }
  }

  /** A string is missing from the box list exactly when no cell of the range shows it. */
  lemma {:induction false} BoxStringsMeans(b: Board, i0: int, iEnd: int, j0: int, jEnd: int, t: string)
    requires 0 <= i0 <= iEnd <= 9 && 0 <= j0 <= jEnd <= 9
    ensures t !in BoxStrings(b, i0, iEnd, j0, jEnd) <==>
      forall i, j :: i0 <= i < iEnd && j0 <= j < jEnd ==> Show(b[i][j]) != t
    decreases iEnd - i0
  {
    if i0 < iEnd {
      BoxStringsMeans(b, i0 + 1, iEnd, j0, jEnd, t);
      SpanStringsMeans(b, i0, j0, jEnd, t);
    }
  }

  /** `r // 3 * 3 + 3`: one past the last row (or column) of the box holding r. */
  function BoxEnd(r: int): int
  {
    if r < 3 then 3 else if r < 6 then 6 else 9
  }

  lemma BoxEndIsFloor(r: int)
    requires 0 <= r < 9
    ensures BoxEnd(r) == r / 3 * 3 + 3
    ensures r < BoxEnd(r) <= r + 3
  {
  }

  /** `valid(grid, r, c, num)`: the three membership tests over the row, the column
      and the box range. */
  function Valid(b: Board, r: int, c: int, num: string): bool
    requires 0 <= r < 9 && 0 <= c < 9
  {
    var notInRow := num !in RowStrings(b, r);
    var notInCol := num !in ColStrings(b, c);
    var notInBox := num !in BoxStrings(b, r, BoxEnd(r), c, BoxEnd(c));
    notInRow && notInCol && notInBox
  }

  /** `valid` holds exactly when num is absent from row r, from column c, and from
      the cells (i, j) with r <= i < BoxEnd(r) and c <= j < BoxEnd(c). That last range
      starts at (r, c), not at the corner of the box, so the cells of the box above
      row r or left of column c are never looked at. */
  lemma ValidMeans(b: Board, r: int, c: int, num: string)
    requires 0 <= r < 9 && 0 <= c < 9
    ensures Valid(b, r, c, num) <==>
      (forall j :: 0 <= j < 9 ==> Show(b[r][j]) != num) &&
      (forall i :: 0 <= i < 9 ==> Show(b[i][c]) != num) &&
      (forall i, j :: r <= i < BoxEnd(r) && c <= j < BoxEnd(c) ==> Show(b[i][j]) != num)
  {
    RowStringsMeans(b, r, num);
    ColStringsMeans(b, c, num);
    BoxStringsMeans(b, r, BoxEnd(r), c, BoxEnd(c), num);
  }

  /** A measure that strictly decreases from one position of the scan to the next:
      (r, c + 1) and, from the end of a row, (r + 1, 0). */
  function Rank(r: int, c: int): nat
    requires 0 <= r <= 9 && 0 <= c <= 9
  {
    10 * (9 - r) + (10 - c)
  }

  /** What `solve(grid, r, c)` does to a grid given as a value: `Some` of the grid it
      leaves behind when it returns True, `None` when it returns False. */
  function Search(b: Board, r: int, c: int): Option<Board>
    requires 0 <= r <= 9 && 0 <= c <= 9
    decreases Rank(r, c), 10
  {
    if r == 9 then Some(b)
    else if c == 9 then Search(b, r + 1, 0)
    else if b[r][c] != Empty then Search(b, r, c + 1)
    else TryDigits(b, r, c, 1)
  }

  /** The candidate loop of `solve` at an empty cell (r, c), from candidate d on. */
  function TryDigits(b: Board, r: int, c: int, d: int): Option<Board>
    requires 0 <= r < 9 && 0 <= c < 9 && 1 <= d <= 10
    decreases Rank(r, c), 10 - d
  {
    if d == 10 then None
    else if Valid(b, r, c, DigitText(d)) then
      match Search(Place(b, r, c, Digit(d)), r, c + 1)
      case Some(s) => Some(s)
      case None => TryDigits(b, r, c, d + 1)
    else TryDigits(b, r, c, d + 1)
  }

  /** `solve(grid, r, c)` on a 9 x 9 grid held in place. It returns True exactly
      when the search succeeds and then leaves the grid the search found; when it
      returns False every tentative digit has been reset to "." and the grid is as
      it was on entry. */
  method Solve(g: array2<Cell>, r: int, c: int) returns (ok: bool)
    requires g.Length0 == 9 && g.Length1 == 9
    requires 0 <= r <= 9 && 0 <= c <= 9
    modifies g
    ensures ok <==> Search(old(BoardOf(g)), r, c).Some?
    ensures ok ==> BoardOf(g) == Search(old(BoardOf(g)), r, c).value
    ensures !ok ==> BoardOf(g) == old(BoardOf(g))
    decreases Rank(r, c), 2
  {
    if r == 9 {
      ok := true;
    } else if c == 9 {
      ok := Solve(g, r + 1, 0);
    } else if g[r, c] != Empty {
      ok := Solve(g, r, c + 1);
    } else {
      ok := TryCandidates(g, r, c);
    }
  }

  /** The `for i in range(1, 10)` loop of `solve` at an empty cell (r, c), which
      stops at the first candidate whose search succeeds. */
  method TryCandidates(g: array2<Cell>, r: int, c: int) returns (ok: bool)
    requires g.Length0 == 9 && g.Length1 == 9
    requires 0 <= r < 9 && 0 <= c < 9 && g[r, c] == Empty
    modifies g
    ensures ok <==> TryDigits(old(BoardOf(g)), r, c, 1).Some?
    ensures ok ==> BoardOf(g) == TryDigits(old(BoardOf(g)), r, c, 1).value
    ensures !ok ==> BoardOf(g) == old(BoardOf(g))
    decreases Rank(r, c), 1
  {
    ghost var b0 := BoardOf(g);
    var i := 1;
    while i < 10
      invariant 1 <= i <= 10
      invariant BoardOf(g) == b0 && g[r, c] == Empty
      invariant TryDigits(b0, r, c, 1) == TryDigits(b0, r, c, i)
    {
      ok := TryCandidate(g, r, c, i);
      if ok {
        return;
      }
      i := i + 1;
    }
    ok := false;
  }

  /** One pass of that loop: when candidate i passes `valid` it is written, the
      search goes on at (r, c + 1), and the cell is reset to "." when that fails. */
  method TryCandidate(g: array2<Cell>, r: int, c: int, i: int) returns (ok: bool)
    requires g.Length0 == 9 && g.Length1 == 9
    requires 0 <= r < 9 && 0 <= c < 9 && 1 <= i <= 9 && g[r, c] == Empty
    modifies g
    ensures ok <==> (Valid(old(BoardOf(g)), r, c, DigitText(i)) &&
                     Search(Place(old(BoardOf(g)), r, c, Digit(i)), r, c + 1).Some?)
    ensures ok ==> BoardOf(g) == Search(Place(old(BoardOf(g)), r, c, Digit(i)), r, c + 1).value
    ensures !ok ==> BoardOf(g) == old(BoardOf(g))
    decreases Rank(r, c), 0
  {
    ghost var b0 := BoardOf(g);
    ok := false;
    if Valid(BoardOf(g), r, c, DigitText(i)) {
      ghost var b1 := Place(b0, r, c, Digit(i));
      g[r, c] := Digit(i);
      BoardExt(BoardOf(g), b1);
      ok := Solve(g, r, c + 1);
      if !ok {
        g[r, c] := Empty;
        BoardExt(BoardOf(g), b0);
      }
    }
  }

  /** The grid `solve_sudoku` returns: the caller ignores the result of `solve`, so a
      failed search hands back the grid as it was built. */
  function Outcome(b: Board): Board
  {
    match Search(b, 0, 0)
    case Some(s) => s
    case None => b
  }
}
