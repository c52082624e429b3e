/** The image handler: an original image offered as a greyscale image, a
    black-and-white image and a segmented image, each derived on first
    request and kept from then on. */
module Handler {
  import opened Raster
  import opened Otsu
  import opened Binarize
  import opened Runs
  import opened UnionFind
  import opened Colouring

  datatype Option<T> = None | Some(value: T)

  // ---------------------------------------------------------------------
  // Segmentation
  // ---------------------------------------------------------------------

  /** `seg` segments the binary image `bw` along `regions`, the maximal white
      runs of `bw` in scan order, run `k` having colour `colours[k]`: black
      pixels stay unpainted, the pixels of a run carry its colour, and two
      runs share a colour exactly when they are connected. */
  ghost predicate IsSegmentationOf(bw: Image<Tone>, width: nat, regions: seq<Run>, colours: seq<int>, seg: Image<Paint>) {
    IsImage(bw, width) && |seg| == |bw| && IsImage(seg, width) && |colours| == |regions| &&
    (forall k :: 0 <= k < |regions| ==> IsRunOf(bw, width, regions[k])) &&
    ScanOrdered(regions) &&
    (forall y, x :: 0 <= y < |bw| && 0 <= x < width && bw[y][x] == White ==> Covered(regions, y, x)) &&
    (forall y, x :: 0 <= y < |bw| && 0 <= x < width && bw[y][x] == Black ==> seg[y][x] == Unpainted) &&
    (forall k, y, x :: 0 <= k < |regions| && Covers(regions[k], y, x) ==> seg[y][x] == Colour(colours[k])) &&
    (forall k, l :: 0 <= k < |regions| && 0 <= l < |regions| ==>
      (colours[k] == colours[l] <==> Connected(regions, k, l)))
  }

  /** Segments a binary image: extracts its runs, unites the runs of
      overlapping intervals on adjacent rows, and paints every run with the
      colour of its region. */
  method Segment(bw: Image<Tone>, width: nat) returns (seg: Image<Paint>, ghost regions: seq<Run>, ghost colours: seq<int>)
    requires IsImage(bw, width)
    ensures IsSegmentationOf(bw, width, regions, colours, seg)
    ensures |seg| == |bw| && IsImage(seg, width)
    ensures forall y, x :: 0 <= y < |bw| && 0 <= x < width ==> (seg[y][x] == Unpainted <==> bw[y][x] == Black)
  {
    var runs := ExtractRuns(bw, width);
    forall k | 0 <= k < |runs|
      ensures InFrame(runs[k], |bw|, width)
    {
      assert IsRunOf(bw, width, runs[k]);
    }
    var forest := new RunForest(runs);
    ghost var iterations := forest.MergeSweep();
    ghost var roots := Roots(forest.parent[..]);
    seg := Colourize(forest, |bw|, width);
    regions := runs;
    colours := ComponentColours(roots);
    SegmentFacts(bw, width, runs, roots, seg);
    forall y, x | 0 <= y < |bw| && 0 <= x < width
      ensures seg[y][x] == Unpainted <==> bw[y][x] == Black
    {
      PaintedIffWhite(bw, width, regions, colours, seg, y, x);
    }
  }

  /** What the stages of `Segment` together establish about its result. */
  lemma SegmentFacts(bw: Image<Tone>, width: nat, runs: seq<Run>, roots: seq<int>, seg: Image<Paint>)
    requires IsImage(bw, width) && IsRootMap(roots) && |roots| == |runs|
    requires forall k :: 0 <= k < |runs| ==> IsRunOf(bw, width, runs[k])
    requires ScanOrdered(runs)
    requires forall y, x :: 0 <= y < |bw| && 0 <= x < width && bw[y][x] == White ==> Covered(runs, y, x)
    requires forall k, l, y, x ::
      0 <= k < |runs| && 0 <= l < |runs| && Covers(runs[k], y, x) && Covers(runs[l], y, x) ==> k == l
    requires forall a, b :: 0 <= a < |runs| && 0 <= b < |runs| ==> (roots[a] == roots[b] <==> Connected(runs, a, b))
    requires PaintedUpTo(seg, |bw|, width, runs, ComponentColours(roots), |runs|)
    ensures IsSegmentationOf(bw, width, runs, ComponentColours(roots), seg)
  {
    var colours := ComponentColours(roots);
    forall y, x | 0 <= y < |bw| && 0 <= x < width
      ensures bw[y][x] == Black ==> seg[y][x] == Unpainted
      ensures forall k :: 0 <= k < |runs| && Covers(runs[k], y, x) ==> seg[y][x] == Colour(colours[k])
    {
      PaintAtCovering(runs, colours, |runs|, y, x);
      if bw[y][x] == Black {
        forall k | 0 <= k < |runs|
          ensures !Covers(runs[k], y, x)
        {
          assert IsRunOf(bw, width, runs[k]);
        }
      }
    }
    forall k, y, x | 0 <= k < |runs| && Covers(runs[k], y, x)
      ensures seg[y][x] == Colour(colours[k])
    {
      assert IsRunOf(bw, width, runs[k]);
    }
    forall k, l | 0 <= k < |runs| && 0 <= l < |runs|
      ensures colours[k] == colours[l] <==> Connected(runs, k, l)
    {
      ComponentColourIffSameRoot(roots, k, l);
    }
  }

  /** A pixel is painted exactly when it is white. */
  lemma PaintedIffWhite(bw: Image<Tone>, width: nat, regions: seq<Run>, colours: seq<int>, seg: Image<Paint>, y: int, x: int)
    requires IsSegmentationOf(bw, width, regions, colours, seg)
    requires 0 <= y < |bw| && 0 <= x < width
    ensures seg[y][x] == Unpainted <==> bw[y][x] == Black
  {
    if bw[y][x] == White {
      assert Covered(regions, y, x);
      var k :| 0 <= k < |regions| && Covers(regions[k], y, x);
    }
  }

  /** Two white pixels next to each other on a row lie in the same run and
      carry the same colour. */
  lemma RowNeighboursShareColour(bw: Image<Tone>, width: nat, regions: seq<Run>, colours: seq<int>, seg: Image<Paint>, y: int, x: int)
    requires IsSegmentationOf(bw, width, regions, colours, seg)
    requires 0 <= y < |bw| && 0 <= x && x + 1 < width
    requires bw[y][x] == White && bw[y][x + 1] == White
    ensures seg[y][x] == seg[y][x + 1] && seg[y][x] != Unpainted
  {
    assert Covered(regions, y, x);
    var k :| 0 <= k < |regions| && Covers(regions[k], y, x);
    assert IsRunOf(bw, width, regions[k]);
    assert Covers(regions[k], y, x + 1);
  }

  /** Two white pixels one above the other lie in adjacent runs, which are
      connected, and so carry the same colour. */
  lemma ColumnNeighboursShareColour(bw: Image<Tone>, width: nat, regions: seq<Run>, colours: seq<int>, seg: Image<Paint>, y: int, x: int)
    requires IsSegmentationOf(bw, width, regions, colours, seg)
    requires 0 <= y && y + 1 < |bw| && 0 <= x < width
    requires bw[y][x] == White && bw[y + 1][x] == White
    ensures seg[y][x] == seg[y + 1][x] && seg[y][x] != Unpainted
  {
    assert Covered(regions, y, x) && Covered(regions, y + 1, x);
    var k :| 0 <= k < |regions| && Covers(regions[k], y, x);
    var l :| 0 <= l < |regions| && Covers(regions[l], y + 1, x);
    assert Step(regions, k, l);
    assert IsWalk(regions, [k, l], k, l);
    ColourIffConnected(bw, width, regions, colours, seg, k, y, x, l, y + 1, x);
  }

  /** White pixels carry the same colour exactly when the runs holding them
      are connected: distinct regions never share a colour. */
  lemma ColourIffConnected(bw: Image<Tone>, width: nat, regions: seq<Run>, colours: seq<int>, seg: Image<Paint>,
                           k: int, y1: int, x1: int, l: int, y2: int, x2: int)
    requires IsSegmentationOf(bw, width, regions, colours, seg)
    requires 0 <= k < |regions| && Covers(regions[k], y1, x1)
    requires 0 <= l < |regions| && Covers(regions[l], y2, x2)
    ensures 0 <= y1 < |seg| && 0 <= x1 < |seg[y1]| && 0 <= y2 < |seg| && 0 <= x2 < |seg[y2]|
    ensures seg[y1][x1] == seg[y2][x2] <==> Connected(regions, k, l)
  {
    assert IsRunOf(bw, width, regions[k]) && IsRunOf(bw, width, regions[l]);
  }

  // ---------------------------------------------------------------------
  // The handler
  // ---------------------------------------------------------------------

  /** The greyscale image of `original`: `luma` maps a pixel of the original
      to the value the grey raster returns for it when read back; only its
      low byte is used afterwards. */
  function Grey(original: Image<int>, width: nat, luma: int -> int): (g: Image<int>)
    requires IsImage(original, width)
  {
    seq(|original|, y requires 0 <= y < |original| =>
      seq(width, x requires 0 <= x < width => luma(original[y][x])))
  }

  /** The black-and-white image of `original`: its greyscale image cut at
      the Otsu threshold of its own histogram. */
  function BlackAndWhiteOf(original: Image<int>, width: nat, luma: int -> int): Image<Tone>
    requires IsImage(original, width)
  {
    var grey := Grey(original, width, luma);
    Binarized(grey, BestThreshold(Histogram(grey)))
  }

  class ImageHandler {
    const original: Image<int>
    const width: nat
    const luma: int -> int
    var grayscale: Option<Image<int>>
    var blackAndWhite: Option<Image<Tone>>
    var segmented: Option<Image<Paint>>
    /** The runs and run colours behind `segmented`, once it is computed. */
    ghost var regions: seq<Run>
    ghost var regionColours: seq<int>

    /** Each derived image, once computed, is the one its definition gives;
        the black-and-white image is only computed after the greyscale one,
        and the segmented image after the black-and-white one. */
    ghost predicate Valid()
      reads this
    {
      IsImage(original, width) &&
      (grayscale.Some? ==> grayscale.value == Grey(original, width, luma)) &&
      (blackAndWhite.Some? ==> grayscale.Some? && blackAndWhite.value == BlackAndWhiteOf(original, width, luma)) &&
      (segmented.Some? ==>
        blackAndWhite.Some? && IsSegmentationOf(blackAndWhite.value, width, regions, regionColours, segmented.value))
    }

    /** Keeps `image`; no derived image is computed yet. */
    constructor (image: Image<int>, width: nat, luma: int -> int)
      requires IsImage(image, width)
      ensures Valid()
      ensures original == image && this.width == width && this.luma == luma
      ensures grayscale == None && blackAndWhite == None && segmented == None
    {
      original := image;
      this.width := width;
      this.luma := luma;
      grayscale := None;
      blackAndWhite := None;
      segmented := None;
    }

    method GetOriginal() returns (image: Image<int>)
      ensures image == original
    {
      image := original;
    }

    /** The greyscale image, converted pixel by pixel on the first call. */
    method GetGrayscale() returns (image: Image<int>)
      requires Valid()
      modifies this
      ensures Valid()
      ensures image == Grey(original, width, luma) && grayscale == Some(image)
      ensures old(grayscale).Some? ==> grayscale == old(grayscale)
      ensures blackAndWhite == old(blackAndWhite) && segmented == old(segmented)
      ensures regions == old(regions) && regionColours == old(regionColours)
    {
      if grayscale == None {
        var grey: Image<int> := [];
        var y := 0;
        while y < |original|
          invariant 0 <= y <= |original|
          invariant grey == Grey(original, width, luma)[..y]
        {
          var row: seq<int> := [];
          var x := 0;
          while x < width
            invariant 0 <= x <= width
            invariant row == Grey(original, width, luma)[y][..x]
          {
            row := row + [luma(original[y][x])];
            x := x + 1;
          }
          assert row == Grey(original, width, luma)[y];
          assert Grey(original, width, luma)[..y + 1] == grey + [row];
          grey := grey + [row];
          y := y + 1;
        }
        assert grey == Grey(original, width, luma);
        grayscale := Some(grey);
      }
      image := grayscale.value;
    }

    /** The black-and-white image, computed on the first call from the
        greyscale image and its Otsu threshold. */
    method GetBlackAndWhite() returns (image: Image<Tone>)
      requires Valid()
      modifies this
      ensures Valid()
      ensures image == BlackAndWhiteOf(original, width, luma) && blackAndWhite == Some(image)
      ensures old(blackAndWhite).Some? ==> blackAndWhite == old(blackAndWhite) && grayscale == old(grayscale)
      ensures segmented == old(segmented)
      ensures regions == old(regions) && regionColours == old(regionColours)
    {
      if blackAndWhite == None {
        var grey := GetGrayscale();
        var threshold := OtsuThreshold(grey, width);
        var bw := BlackAndWhite(grey, width, threshold);
        blackAndWhite := Some(bw);
      }
      image := blackAndWhite.value;
    }

    /** The segmented image, computed on the first call from the
        black-and-white image. */
    method GetSegmented() returns (image: Image<Paint>)
      requires Valid()
      modifies this
      ensures Valid()
      ensures segmented == Some(image) && blackAndWhite.Some?
      ensures blackAndWhite.value == BlackAndWhiteOf(original, width, luma)
      ensures IsSegmentationOf(blackAndWhite.value, width, regions, regionColours, image)
      ensures old(segmented).Some? ==>
        segmented == old(segmented) && blackAndWhite == old(blackAndWhite) && grayscale == old(grayscale) &&
        regions == old(regions) && regionColours == old(regionColours)
    {
      if segmented == None {
        var bw := GetBlackAndWhite();
        var seg, runs, colours := Segment(bw, width);
        segmented := Some(seg);
        regions := runs;
        regionColours := colours;
      }
      image := segmented.value;
    }
  }
}
