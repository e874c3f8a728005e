/** `solve_sudoku` from the contour approximations to the solved grid, with the
    image processing and the recognizer taken as given. */
module Pipeline {
  import opened Wrappers
  import opened Grid
  import opened Solver
  import opened Corners
  import opened Assembly

  /** The recognizer applied to the board warped from source corners pts1. */
  function Reader(recognize: (seq<Point>, Region) -> seq<string>, pts1: seq<Point>): Region -> seq<string>
  {
    reg => recognize(pts1, reg)
  }

  /** `solve_sudoku(photo)`. `approxs` are the polygon approximations of the photo's
      contours in order of decreasing area; `recognize(pts1, reg)` is what the
      recognizer reads in region reg of the board warped from source corners pts1.
      With no four-vertex approximation, `location` stays None and the call fails
      (None). Otherwise the grid is assembled, solved in place, and returned whether
      or not the search succeeded. */
  method SolveSudoku(approxs: seq<seq<Point>>, recognize: (seq<Point>, Region) -> seq<string>)
    returns (result: Option<array2<Cell>>)
    ensures result.None? <==> forall i :: 0 <= i < |approxs| ==> |approxs[i]| != 4
    ensures result.Some? ==>
      var g := result.value;
      fresh(g) && g.Length0 == 9 && g.Length1 == 9 &&
      exists k :: IsFirstQuad(approxs, k) &&
        BoardOf(g) == Outcome(Assembled(Reader(recognize, SourceCorners(approxs[k]))))
  {
    var location := LocateBoard(approxs);
    if location.None? {
      return None;
    }
    ghost var k :| IsFirstQuad(approxs, k) && location.value == OrderCorners(approxs[k]);
    var rect := location.value;
    var pts1 := [rect[0], rect[1], rect[3], rect[2]];
    assert pts1 == SourceCorners(approxs[k]);
    var board := Assemble(Reader(recognize, pts1));
    var grid := NewGrid(board);
    var solved := Solve(grid, 0, 0);
    assert BoardOf(grid) == Outcome(board);
    result := Some(grid);
    assert IsFirstQuad(approxs, k);
  }
}
