/** Binarisation: every grey pixel becomes black or white by comparing its
    intensity with the selected threshold. */
module Binarize {
  import opened Raster
  import opened Otsu

  /** The tone of a grey pixel: black iff its intensity is at most the threshold. */
  function ToneOf(v: int, threshold: int): Tone {
    if Low8(v) <= threshold then Black else White
  }

  function ToneRow(row: seq<int>, threshold: int): seq<Tone> {
    seq(|row|, x requires 0 <= x < |row| => ToneOf(row[x], threshold))
  }

  /** The binary image of `g` at `threshold`. */
  function Binarized(g: Image<int>, threshold: int): Image<Tone> {
    seq(|g|, y requires 0 <= y < |g| => ToneRow(g[y], threshold))
  }

  /** Builds the binary image pixel by pixel, row by row. */
  method BlackAndWhite(g: Image<int>, width: nat, threshold: int) returns (bw: Image<Tone>)
    requires IsImage(g, width)
    ensures bw == Binarized(g, threshold)
    ensures |bw| == |g| && IsImage(bw, width)
    ensures forall y, x :: 0 <= y < |g| && 0 <= x < width ==>
      (bw[y][x] == Black <==> Low8(g[y][x]) <= threshold)
  {
    bw := [];
    var y := 0;
    while y < |g|
      invariant 0 <= y <= |g|
      invariant |bw| == y
      invariant forall r :: 0 <= r < y ==> bw[r] == ToneRow(g[r], threshold)
    {
      var row := [];
      var x := 0;
      while x < width
        invariant 0 <= x <= width
        invariant |row| == x
        invariant forall c :: 0 <= c < x ==> row[c] == ToneOf(g[y][c], threshold)
      {
        row := row + [if Low8(g[y][x]) <= threshold then Black else White];
        x := x + 1;
      }
      bw := bw + [row];
      y := y + 1;
    }
  }

  /** Number of black pixels of a row. */
  function RowBlack(row: seq<Tone>): nat {
    if row == [] then 0 else RowBlack(row[..|row| - 1]) + (if row[|row| - 1] == Black then 1 else 0)
  }

  /** Number of black pixels of an image. */
  function BlackCount(img: Image<Tone>): nat {
    if img == [] then 0 else BlackCount(img[..|img| - 1]) + RowBlack(img[|img| - 1])
  }

  lemma {:induction false} RowBlackIsLow(row: seq<int>, threshold: int)
    ensures RowBlack(ToneRow(row, threshold)) == RowCount(row, 0, threshold + 1)
  {
    if row != [] {
      var last := |row| - 1;
      assert ToneRow(row, threshold)[..last] == ToneRow(row[..last], threshold);
      RowBlackIsLow(row[..last], threshold);
    }
  }

  lemma {:induction false} BlackCountIsLow(g: Image<int>, threshold: int)
    ensures BlackCount(Binarized(g, threshold)) == GridCount(g, 0, threshold + 1)
  {
    if g != [] {
      var last := |g| - 1;
      assert Binarized(g, threshold)[..last] == Binarized(g[..last], threshold);
      BlackCountIsLow(g[..last], threshold);
      RowBlackIsLow(g[last], threshold);
    }
  }

  /** The black pixels are exactly the low class of the threshold: their
      number is the running `countLow` of the threshold sweep at `threshold`. */
  lemma BlackPixelsAreLowClass(g: Image<int>, threshold: int)
    requires 0 <= threshold < Bins
    ensures BlackCount(Binarized(g, threshold)) == CountLow(Histogram(g), threshold)
  {
    BlackCountIsLow(g, threshold);
    PrefixHistogram(g, threshold + 1);
  }
}
