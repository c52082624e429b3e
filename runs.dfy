/** Run extraction: the maximal horizontal intervals of white pixels of a
    binary image, in scan order. */
module Runs {
  import opened Raster

  /** The white interval `[xStart, xEnd)` of row `y`. */
  datatype Run = Run(xStart: int, xEnd: int, y: int)

  /** Pixel `(x, y)` lies in run `r`. */
  predicate Covers(r: Run, y: int, x: int) {
    r.y == y && r.xStart <= x < r.xEnd
  }

  /** `r` is a maximal white interval of `img`: inside the image, white
      throughout, and bounded on both sides by a black pixel or the border. */
  ghost predicate IsRunOf(img: Image<Tone>, width: nat, r: Run) {
    0 <= r.y < |img| && |img[r.y]| == width &&
    0 <= r.xStart < r.xEnd <= width &&
    (forall x :: r.xStart <= x < r.xEnd ==> img[r.y][x] == White) &&
    (r.xStart == 0 || img[r.y][r.xStart - 1] == Black) &&
    (r.xEnd == width || img[r.y][r.xEnd] == Black)
  }

  /** `a` comes before `b` in scan order and does not touch it on its row. */
  predicate Precedes(a: Run, b: Run) {
    a.y < b.y || (a.y == b.y && a.xEnd < b.xStart)
  }

  /** Non-empty runs, each strictly before the next in scan order. */
  ghost predicate ScanOrdered(runs: seq<Run>) {
    (forall k :: 0 <= k < |runs| ==> runs[k].xStart < runs[k].xEnd) &&
    (forall k, l :: 0 <= k < l < |runs| ==> Precedes(runs[k], runs[l]))
  }

  /** Pixel `(x, y)` lies in one of `runs`. */
  ghost predicate Covered(runs: seq<Run>, y: int, x: int) {
    exists k :: 0 <= k < |runs| && Covers(runs[k], y, x)
  }

  lemma CoveredGrows(runs: seq<Run>, r: Run)
    ensures forall y, x :: Covered(runs, y, x) ==> Covered(runs + [r], y, x)
    ensures forall y, x :: Covers(r, y, x) ==> Covered(runs + [r], y, x)
  {
    forall y, x | Covered(runs, y, x)
      ensures Covered(runs + [r], y, x)
    {
      var k :| 0 <= k < |runs| && Covers(runs[k], y, x);
      assert (runs + [r])[k] == runs[k];
    }
    forall y, x | Covers(r, y, x)
      ensures Covered(runs + [r], y, x)
    {
      assert (runs + [r])[|runs|] == r;
    }
  }

  /** Scans the image row by row, left to right; a white pixel opens a run
      that extends while the pixels stay white and inside the row, and the
      scan resumes after the pixel that closed it. */
  method ExtractRuns(img: Image<Tone>, width: nat) returns (runs: seq<Run>)
    requires IsImage(img, width)
    ensures forall k :: 0 <= k < |runs| ==> IsRunOf(img, width, runs[k])
    ensures ScanOrdered(runs)
    ensures forall y, x :: 0 <= y < |img| && 0 <= x < width && img[y][x] == White ==>
      Covered(runs, y, x)
    ensures forall k, l, y, x ::
      0 <= k < |runs| && 0 <= l < |runs| && Covers(runs[k], y, x) && Covers(runs[l], y, x) ==> k == l
  {
    runs := [];
    var start := 0;
    var end := 0;
    var y := 0;
    while y < |img|
      invariant 0 <= y <= |img|
      invariant forall k :: 0 <= k < |runs| ==> IsRunOf(img, width, runs[k]) && runs[k].y < y
      invariant ScanOrdered(runs)
      invariant forall yy, x :: 0 <= yy < y && 0 <= x < width && img[yy][x] == White ==>
        Covered(runs, yy, x)
    {
      var x := 0;
      while x < width
        invariant 0 <= x <= width + 1
        invariant 0 < x <= width ==> img[y][x - 1] == Black
        invariant forall k :: 0 <= k < |runs| ==> IsRunOf(img, width, runs[k])
        invariant forall k :: 0 <= k < |runs| ==> runs[k].y < y || (runs[k].y == y && runs[k].xEnd < x)
        invariant ScanOrdered(runs)
        invariant forall yy, c :: 0 <= yy < y && 0 <= c < width && img[yy][c] == White ==>
          Covered(runs, yy, c)
        invariant forall c :: 0 <= c < x && c < width && img[y][c] == White ==>
          Covered(runs, y, c)
      {
        if img[y][x] == White {
          start := x;
          while x < width && img[y][x] == White
            invariant start <= x <= width
            invariant forall c :: start <= c < x ==> img[y][c] == White
          {
            x := x + 1;
          }
          end := x;
          CoveredGrows(runs, Run(start, end, y));
          runs := runs + [Run(start, end, y)];
        }
        x := x + 1;
      }
      y := y + 1;
    }
  }
}
