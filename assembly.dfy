/** Cutting the warped 900 x 900 board into 81 cells and building the solver's grid
    from what the recognizer reads in each cell. */
module Assembly {
  import opened Wrappers
  import opened Grid

  /** The pixel indices lo, lo + 1, ..., hi - 1. */
  datatype Span = Span(lo: int, hi: int)

  /** A rectangle of the warped board: its pixel rows and its pixel columns. */
  datatype Region = Region(rows: Span, cols: Span)

  /** `height` and `width` of the warped board. */
  const Side: int := 900

  /** Number of pieces along each axis. */
  const Pieces: int := 9

  /** Piece k of `np.split` of the Side pixels of one axis into Pieces equal parts. */
  function SplitPiece(k: int): (p: Span)
    requires 0 <= k < Pieces
    ensures 0 <= p.lo < p.hi <= Side && p.hi - p.lo == Side / Pieces
    ensures p == Span(100 * k, 100 * k + 100)
  {
    Span(k * (Side / Pieces), (k + 1) * (Side / Pieces))
  }

  /** The nine pieces cover the Side pixels in order, with no gap and no overlap. */
  lemma SplitPiecesTile()
    ensures SplitPiece(0).lo == 0 && SplitPiece(Pieces - 1).hi == Side
    ensures forall k :: 0 <= k < Pieces - 1 ==> SplitPiece(k).hi == SplitPiece(k + 1).lo
  {
  }

  /** `a[from:to]` of the pixels of span p, with the end clamped as numpy does. */
  function Slice(p: Span, from: nat, to: nat): (q: Span)
    requires p.lo <= p.hi && from <= to
    ensures p.lo <= q.lo <= q.hi <= p.hi
    ensures to <= p.hi - p.lo ==> q == Span(p.lo + from, p.lo + to)
    ensures to > p.hi - p.lo ==> q.hi == p.hi
  {
    var n := p.hi - p.lo;
    Span(p.lo + (if from < n then from else n), p.lo + (if to < n then to else n))
  }

  /** The pixels handed to the recognizer for the cell in row `row` and column `col`:
      the column strip `col` of the split along axis 1, its piece `row` of the split
      along axis 0, then `d[10:90, 10:90]` of that 100 x 100 piece. */
  function CellRegion(row: int, col: int): (reg: Region)
    requires 0 <= row < 9 && 0 <= col < 9
    ensures reg.rows == Span(100 * row + 10, 100 * row + 90)
    ensures reg.cols == Span(100 * col + 10, 100 * col + 90)
  {
    var strip := SplitPiece(col);
    var piece := SplitPiece(row);
    Region(Slice(piece, 10, 90), Slice(strip, 10, 90))
  }

  predicate Overlap(a: Span, b: Span)
  {
    a.lo < b.hi && b.lo < a.hi
  }

  /** Each cell image is an 80 x 80 square inside the board, strictly inside its own
      100 x 100 cell, and the images of two different cells share no pixel, so the
      grid addressing never mixes up two cells. */
  lemma CellRegionsDisjoint(r1: int, c1: int, r2: int, c2: int)
    requires 0 <= r1 < 9 && 0 <= c1 < 9 && 0 <= r2 < 9 && 0 <= c2 < 9
    ensures var reg := CellRegion(r1, c1);
      0 <= reg.rows.lo && reg.rows.hi <= Side && 0 <= reg.cols.lo && reg.cols.hi <= Side &&
      reg.rows.hi - reg.rows.lo == 80 && reg.cols.hi - reg.cols.lo == 80
    ensures (r1 != r2 || c1 != c2) ==>
      !(Overlap(CellRegion(r1, c1).rows, CellRegion(r2, c2).rows) &&
        Overlap(CellRegion(r1, c1).cols, CellRegion(r2, c2).cols))
  {
  }

  /** `fillna('.')` on one entry of the data frame. */
  function FillNa(entry: Option<string>): string
  {
    match entry
    case Some(s) => s
    case None => "."
  }

  /** The cell for one recognition result: the first string read, or "." when the
      recognizer read nothing. */
  function CellFromText(text: seq<string>): (c: Cell)
    ensures Show(c) == if |text| > 0 then text[0] else "."
  {
    if |text| > 0 then Parse(text[0]) else Empty
  }

  /** The grid built from the recognizer `read`, cell (row, col) from CellRegion(row, col). */
  function Assembled(read: Region -> seq<string>): Board
  {
    var rows := seq<seq<Cell>>(9, row requires 0 <= row < 9 =>
      seq<Cell>(9, col requires 0 <= col < 9 => CellFromText(read(CellRegion(row, col)))));
    assert forall row :: 0 <= row < 9 ==> |rows[row]| == 9;
    rows
  }

  /** What the nested loops store at df.iloc[row, col]: the first string read, or
      nothing. */
  function Recognized(read: Region -> seq<string>, row: int, col: int): Option<string>
    requires 0 <= row < 9 && 0 <= col < 9
  {
    var text := read(CellRegion(row, col));
    if |text| > 0 then Some(text[0]) else None
  }

  /** The assembly loops: a 9 x 9 data frame of missing values, one recognition per
      cell written at df.iloc[row, col], `fillna('.')`, then the frame read row by
      row. Cell (row, col) of the result holds the first string read in the pixels
      of row `row` and column `col`, or "." when none was read. */
  method Assemble(read: Region -> seq<string>) returns (board: Board)
    ensures forall row, col :: 0 <= row < 9 && 0 <= col < 9 ==>
      Show(board[row][col]) == var text := read(CellRegion(row, col)); if |text| > 0 then text[0] else "."
    ensures board == Assembled(read)
  {
    var df := new Option<string>[9, 9]((_, _) => None);
    for col := 0 to 9
      invariant forall i, j :: 0 <= i < 9 && 0 <= j < 9 ==>
        df[i, j] == if j < col then Recognized(read, i, j) else None
    {
      for row := 0 to 9
        invariant forall i, j :: 0 <= i < 9 && 0 <= j < 9 ==>
          df[i, j] == if j < col || (j == col && i < row) then Recognized(read, i, j) else None
      {
        var text := read(CellRegion(row, col));
        if |text| > 0 {
          df[row, col] := Some(text[0]);
        }
      }
    }
    board := seq(9, i requires 0 <= i < 9 reads df =>
               seq(9, j requires 0 <= j < 9 reads df => Parse(FillNa(df[i, j]))));
    BoardExt(board, Assembled(read));
  }
}
