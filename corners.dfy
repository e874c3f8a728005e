/** Finding the board's outline: the first contour approximation with four vertices,
    its corners put in order, and the pairing of those corners with the corners of
    the 900 x 900 square the board is warped onto. */
module Corners {
  import opened Wrappers

  /** A vertex of an approximated contour, in pixel coordinates. */
  datatype Point = Point(x: int, y: int)

  /** k is the first index at which xs takes its least value. */
  predicate IsFirstMin(xs: seq<int>, k: int)
  {
    0 <= k < |xs| &&
    (forall i :: 0 <= i < |xs| ==> xs[k] <= xs[i]) &&
    (forall i :: 0 <= i < k ==> xs[i] > xs[k])
  }

  /** k is the first index at which xs takes its greatest value. */
  predicate IsFirstMax(xs: seq<int>, k: int)
  {
    0 <= k < |xs| &&
    (forall i :: 0 <= i < |xs| ==> xs[k] >= xs[i]) &&
    (forall i :: 0 <= i < k ==> xs[i] < xs[k])
  }

  /** `np.argmin`: the first index of a least element. */
  function ArgMin(xs: seq<int>): (k: int)
    requires |xs| > 0
    ensures IsFirstMin(xs, k)
    decreases |xs|
  {
    if |xs| == 1 then 0
    else
      var k := ArgMin(xs[..|xs| - 1]);
      if xs[|xs| - 1] < xs[k] then |xs| - 1 else k
  }

  /** `np.argmax`: the first index of a greatest element. */
  function ArgMax(xs: seq<int>): (k: int)
    requires |xs| > 0
    ensures IsFirstMax(xs, k)
    decreases |xs|
  {
    if |xs| == 1 then 0
    else
      var k := ArgMax(xs[..|xs| - 1]);
      if xs[|xs| - 1] > xs[k] then |xs| - 1 else k
  }

  /** The first index of a least element is unique. */
  lemma FirstMinUnique(xs: seq<int>, k: int, k': int)
    requires IsFirstMin(xs, k) && IsFirstMin(xs, k')
    ensures k == k'
  {
    assert xs[k] == xs[k'];
  }

  /** The first index of a greatest element is unique. */
  lemma FirstMaxUnique(xs: seq<int>, k: int, k': int)
    requires IsFirstMax(xs, k) && IsFirstMax(xs, k')
    ensures k == k'
  {
    assert xs[k] == xs[k'];
  }

  /** `cutt.sum(axis = 1)`: x + y of every vertex. */
  function Sums(pts: seq<Point>): seq<int>
  {
    seq(|pts|, i requires 0 <= i < |pts| => pts[i].x + pts[i].y)
  }

  /** `np.diff(cutt, axis = 1)`: y - x of every vertex. */
  function Diffs(pts: seq<Point>): seq<int>
  {
    seq(|pts|, i requires 0 <= i < |pts| => pts[i].y - pts[i].x)
  }

  /** `rect`: top-left, top-right, bottom-right, bottom-left. Each is one of the four
      vertices, picked as the first vertex with the least x + y, the least y - x,
      the greatest x + y and the greatest y - x. Nothing makes the four distinct. */
  function OrderCorners(cutt: seq<Point>): (rect: seq<Point>)
    requires |cutt| == 4
    ensures |rect| == 4
    ensures forall k :: IsFirstMin(Sums(cutt), k) ==> rect[0] == cutt[k]
    ensures forall k :: IsFirstMin(Diffs(cutt), k) ==> rect[1] == cutt[k]
    ensures forall k :: IsFirstMax(Sums(cutt), k) ==> rect[2] == cutt[k]
    ensures forall k :: IsFirstMax(Diffs(cutt), k) ==> rect[3] == cutt[k]
    ensures forall p :: p in cutt ==> rect[0].x + rect[0].y <= p.x + p.y <= rect[2].x + rect[2].y
    ensures forall p :: p in cutt ==> rect[1].y - rect[1].x <= p.y - p.x <= rect[3].y - rect[3].x
    ensures forall q :: q in rect ==> q in cutt
  {
    var diag1 := Sums(cutt);
    var diag2 := Diffs(cutt);
    var tl, tr, br, bl := ArgMin(diag1), ArgMin(diag2), ArgMax(diag1), ArgMax(diag2);
    assert forall k :: IsFirstMin(diag1, k) ==> k == tl by {
      forall k | IsFirstMin(diag1, k) ensures k == tl { FirstMinUnique(diag1, k, tl); }
    }
    assert forall k :: IsFirstMin(diag2, k) ==> k == tr by {
      forall k | IsFirstMin(diag2, k) ensures k == tr { FirstMinUnique(diag2, k, tr); }
    }
    assert forall k :: IsFirstMax(diag1, k) ==> k == br by {
      forall k | IsFirstMax(diag1, k) ensures k == br { FirstMaxUnique(diag1, k, br); }
    }
    assert forall k :: IsFirstMax(diag2, k) ==> k == bl by {
      forall k | IsFirstMax(diag2, k) ensures k == bl { FirstMaxUnique(diag2, k, bl); }
    }
    assert forall p :: p in cutt ==> diag1[tl] <= p.x + p.y <= diag1[br] && diag2[tr] <= p.y - p.x <= diag2[bl] by {
      forall p | p in cutt
        ensures diag1[tl] <= p.x + p.y <= diag1[br] && diag2[tr] <= p.y - p.x <= diag2[bl]
      {
        var i :| 0 <= i < 4 && cutt[i] == p;
        assert diag1[i] == p.x + p.y && diag2[i] == p.y - p.x;
      }
    }
    [cutt[tl], cutt[tr], cutt[br], cutt[bl]]
  }

  const Width: int := 900
  const Height: int := 900

  /** `pts2`: the corners of the target square, in row-major order. */
  const Targets: seq<Point> := [Point(0, 0), Point(Width, 0), Point(0, Height), Point(Width, Height)]

  /** `pts1`: rect[0], rect[1], rect[3], rect[2], the source corners in the order of
      Targets. */
  function SourceCorners(cutt: seq<Point>): (pts1: seq<Point>)
    requires |cutt| == 4
    ensures |pts1| == 4
    ensures forall k :: IsFirstMin(Sums(cutt), k) ==> pts1[0] == cutt[k]
    ensures forall k :: IsFirstMin(Diffs(cutt), k) ==> pts1[1] == cutt[k]
    ensures forall k :: IsFirstMax(Diffs(cutt), k) ==> pts1[2] == cutt[k]
    ensures forall k :: IsFirstMax(Sums(cutt), k) ==> pts1[3] == cutt[k]
  {
    var rect := OrderCorners(cutt);
    [rect[0], rect[1], rect[3], rect[2]]
  }

  /** `pts1` beside `pts2`: the source corner sent to each target corner of the
      perspective transform. The vertex with the least x + y goes to (0, 0), the
      least y - x to (900, 0), the greatest y - x to (0, 900) and the greatest x + y
      to (900, 900). */
  function Correspondence(cutt: seq<Point>): (pairs: seq<(Point, Point)>)
    requires |cutt| == 4
    ensures |pairs| == 4
    ensures forall k :: IsFirstMin(Sums(cutt), k) ==> pairs[0] == (cutt[k], Point(0, 0))
    ensures forall k :: IsFirstMin(Diffs(cutt), k) ==> pairs[1] == (cutt[k], Point(900, 0))
    ensures forall k :: IsFirstMax(Diffs(cutt), k) ==> pairs[2] == (cutt[k], Point(0, 900))
    ensures forall k :: IsFirstMax(Sums(cutt), k) ==> pairs[3] == (cutt[k], Point(900, 900))
  {
    var pts1 := SourceCorners(cutt);
    seq(4, i requires 0 <= i < 4 => (pts1[i], Targets[i]))
  }

  /** On a board turned by 45 degrees two picks coincide: the top vertex has both the
      least x + y and the least y - x, so top-left and top-right are the same point. */
  lemma TiltedSquareRepeatsCorner()
    ensures var diamond := [Point(5, 0), Point(10, 5), Point(5, 10), Point(0, 5)];
      OrderCorners(diamond)[0] == OrderCorners(diamond)[1] == Point(5, 0)
  {
    var diamond := [Point(5, 0), Point(10, 5), Point(5, 10), Point(0, 5)];
    assert Sums(diamond) == [5, 15, 15, 5];
    assert Diffs(diamond) == [-5, -5, 5, 5];
    assert IsFirstMin(Sums(diamond), 0);
    assert IsFirstMin(Diffs(diamond), 0);
  }

  /** The contour approximation at index k is the first with exactly four vertices. */
  predicate IsFirstQuad(approxs: seq<seq<Point>>, k: int)
  {
    0 <= k < |approxs| && |approxs[k]| == 4 &&
    forall i :: 0 <= i < k ==> |approxs[i]| != 4
  }

  /** The `for cnt in cnts` loop: given the contour approximations in order of
      decreasing area, the ordered corners of the first one with four vertices, or
      None (location stays None) when there is none. */
  method LocateBoard(approxs: seq<seq<Point>>) returns (location: Option<seq<Point>>)
    ensures location.None? <==> forall i :: 0 <= i < |approxs| ==> |approxs[i]| != 4
    ensures location.Some? ==>
      exists k :: IsFirstQuad(approxs, k) && location.value == OrderCorners(approxs[k])
  {
    location := None;
    for n := 0 to |approxs|
      invariant location.None?
      invariant forall i :: 0 <= i < n ==> |approxs[i]| != 4
    {
      var approx := approxs[n];
      if |approx| == 4 {
        location := Some(OrderCorners(approx));
        assert IsFirstQuad(approxs, n);
        break;
      }
    }
  }
}
