/** The solver's grid: nine rows of nine strings, where "." marks a cell that is
    still to be filled and any other string is kept as it is. */
module Grid {

  /** What a cell holds. `Empty` is the string "."; `Text(s)` is any other string:
      a digit placed by the solver, or whatever the recognizer read (which may be
      "0" or a string of several characters). */
  datatype Entry = Empty | Text(s: string)

  /** A cell never holds "." as text, so `Empty` is the only blank cell. */
  type Cell = e: Entry | !(e.Text? && e.s == ".") witness Empty

  /** The string the program stores for a cell. */
  function Show(c: Cell): string
  {
    if c.Empty? then "." else c.s
  }

  /** Reads a stored string back as a cell: "." is blank, anything else is text. */
  function Parse(s: string): (c: Cell)
    ensures Show(c) == s
    ensures c.Empty? <==> s == "."
  {
    if s == "." then Empty else Text(s)
  }

  lemma ParseShow(c: Cell)
    ensures Parse(Show(c)) == c
  {
  }

  /** `str(d)` for a candidate digit d of the solver. */
  function DigitText(d: int): (t: string)
    requires 1 <= d <= 9
    ensures |t| == 1 && '1' <= t[0] <= '9'
    ensures t[0] as int - '0' as int == d
  {
    [('0' as int + d) as char]
  }

  /** A cell holding one of "1" .. "9". */
  predicate IsDigitCell(c: Cell)
  {
    c.Text? && |c.s| == 1 && '1' <= c.s[0] <= '9'
  }

  /** The cell that the solver writes for candidate d. */
  function Digit(d: int): (c: Cell)
    requires 1 <= d <= 9
    ensures IsDigitCell(c) && Show(c) == DigitText(d)
  {
    Text(DigitText(d))
  }

  predicate IsBoard(b: seq<seq<Cell>>)
  {
    |b| == 9 && forall i :: 0 <= i < 9 ==> |b[i]| == 9
  }

  /** A 9 x 9 grid, indexed b[row][col]. */
  type Board = b: seq<seq<Cell>> | IsBoard(b) witness seq(9, _ => seq(9, _ => Empty))

  /** `grid[r][c] = x`. */
  function Place(b: Board, r: int, c: int, x: Cell): (b': Board)
    requires 0 <= r < 9 && 0 <= c < 9
    ensures b'[r][c] == x
    ensures forall i, j :: 0 <= i < 9 && 0 <= j < 9 && (i != r || j != c) ==> b'[i][j] == b[i][j]
  {
    var row: seq<Cell> := b[r][c := x];
    b[r := row]
  }

  /** Two boards that agree cell by cell are equal. */
  lemma {:induction false} BoardExt(a: Board, b: Board)
    requires forall i, j :: 0 <= i < 9 && 0 <= j < 9 ==> a[i][j] == b[i][j]
    ensures a == b
  {
    forall i | 0 <= i < 9
      ensures a[i] == b[i]
    {
      assert |a[i]| == |b[i]| == 9;
    }
  }

  /** The contents of a 9 x 9 array as a board. */
  function BoardOf(g: array2<Cell>): (b: Board)
    requires g.Length0 == 9 && g.Length1 == 9
    reads g
    ensures forall i, j :: 0 <= i < 9 && 0 <= j < 9 ==> b[i][j] == g[i, j]
  {
    seq(9, i requires 0 <= i < 9 reads g => seq(9, j requires 0 <= j < 9 reads g => g[i, j]))
  }

  /** A fresh 9 x 9 array holding board b. */
  method NewGrid(b: Board) returns (g: array2<Cell>)
    ensures fresh(g) && g.Length0 == 9 && g.Length1 == 9
    ensures BoardOf(g) == b
  {
    g := new Cell[9, 9]((i, j) requires 0 <= i < 9 && 0 <= j < 9 => b[i][j]);
    BoardExt(BoardOf(g), b);
  }

  /** (i, j) comes strictly before (r, c) in row-major order. */
  predicate Before(i: int, j: int, r: int, c: int)
  {
    i < r || (i == r && j < c)
  }
}
