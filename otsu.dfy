/** Automatic threshold selection: a 256-bin intensity histogram and the
    threshold that maximises the between-class variance (Otsu's method). */
module Otsu {
  import opened Raster

  /** One histogram bin per 8-bit intensity. */
  const Bins := 256

  // ---------------------------------------------------------------------
  // Counting pixels
  // ---------------------------------------------------------------------

  /** Number of pixels `v` of `row` whose intensity `Low8(v)` lies in `[lo, hi)`. */
  function RowCount(row: seq<int>, lo: int, hi: int): (n: nat)
    ensures n <= |row|
  {
    if row == [] then 0
    else RowCount(row[..|row| - 1], lo, hi) + (if lo <= Low8(row[|row| - 1]) < hi then 1 else 0)
  }

  /** Number of pixels of `g`. */
  function Pixels(g: Image<int>): nat {
    if g == [] then 0 else Pixels(g[..|g| - 1]) + |g[|g| - 1]|
  }

  /** Number of pixels of `g` whose intensity lies in `[lo, hi)`. */
  function GridCount(g: Image<int>, lo: int, hi: int): (n: nat)
    ensures n <= Pixels(g)
  {
    if g == [] then 0 else GridCount(g[..|g| - 1], lo, hi) + RowCount(g[|g| - 1], lo, hi)
  }

  /** The histogram: bin `b` holds the number of pixels of intensity `b`. */
  function Histogram(g: Image<int>): seq<int> {
    seq(Bins, b => GridCount(g, b, b + 1))
  }

  /** `h[0] + ... + h[n-1]`. */
  function Prefix(h: seq<int>, n: int): int
    requires 0 <= n <= |h|
  {
    if n == 0 then 0 else Prefix(h, n - 1) + h[n - 1]
  }

  /** `h[0]*0 + ... + h[n-1]*(n-1)`: the intensity sum of the pixels below `n`. */
  function Weighted(h: seq<int>, n: int): int
    requires 0 <= n <= |h|
  {
    if n == 0 then 0 else Weighted(h, n - 1) + h[n - 1] * (n - 1)
  }

  lemma {:induction false} RowSplit(row: seq<int>, lo: int, mid: int, hi: int)
    requires lo <= mid <= hi
    ensures RowCount(row, lo, hi) == RowCount(row, lo, mid) + RowCount(row, mid, hi)
  {
    if row != [] {
      RowSplit(row[..|row| - 1], lo, mid, hi);
    }
  }

  lemma {:induction false} GridSplit(g: Image<int>, lo: int, mid: int, hi: int)
    requires lo <= mid <= hi
    ensures GridCount(g, lo, hi) == GridCount(g, lo, mid) + GridCount(g, mid, hi)
  {
    if g != [] {
      GridSplit(g[..|g| - 1], lo, mid, hi);
      RowSplit(g[|g| - 1], lo, mid, hi);
    }
  }

  /** Every pixel falls in some bin. */
  lemma {:induction false} GridAll(g: Image<int>)
    ensures GridCount(g, 0, Bins) == Pixels(g)
  {
    if g != [] {
      GridAll(g[..|g| - 1]);
      RowAll(g[|g| - 1]);
    }
  }

  lemma {:induction false} RowAll(row: seq<int>)
    ensures RowCount(row, 0, Bins) == |row|
  {
    if row != [] {
      RowAll(row[..|row| - 1]);
    }
  }

  lemma {:induction false} RectPixels(g: Image<int>, width: nat)
    requires IsImage(g, width)
    ensures Pixels(g) == width * |g|
  {
    if g != [] {
      RectPixels(g[..|g| - 1], width);
      assert width * |g| == width * (|g| - 1) + width;
    }
  }

  /** The first `n` bins of the histogram count the pixels of intensity below `n`. */
  lemma {:induction false} PrefixHistogram(g: Image<int>, n: int)
    requires 0 <= n <= Bins
    ensures Prefix(Histogram(g), n) == GridCount(g, 0, n)
  {
    if n > 0 {
      var h := Histogram(g);
      PrefixHistogram(g, n - 1);
      GridSplit(g, 0, n - 1, n);
      assert h[n - 1] == GridCount(g, n - 1, n);
      assert Prefix(h, n) == Prefix(h, n - 1) + h[n - 1];
    } else {
      GridSplit(g, 0, 0, 0);
    }
  }

  /** The bins of the histogram of a `width` x `height` image sum to `width * height`. */
  lemma HistogramTotal(g: Image<int>, width: nat)
    requires IsImage(g, width)
    ensures |Histogram(g)| == Bins
    ensures forall b :: 0 <= b < Bins ==> Histogram(g)[b] >= 0
    ensures Prefix(Histogram(g), Bins) == width * |g|
  {
    PrefixHistogram(g, Bins);
    GridAll(g);
    RectPixels(g, width);
  }

  // ---------------------------------------------------------------------
  // The two classes of a threshold and their between-class variance
  // ---------------------------------------------------------------------

  /** Every bin is a count. */
  ghost predicate IsHistogram(h: seq<int>) {
    |h| == Bins && forall b :: 0 <= b < Bins ==> h[b] >= 0
  }

  /** Pixels of intensity at most `t`. */
  function CountLow(h: seq<int>, t: int): int
    requires |h| == Bins && 0 <= t < Bins
  {
    Prefix(h, t + 1)
  }

  /** Pixels of intensity above `t`. */
  function CountHigh(h: seq<int>, t: int): int
    requires |h| == Bins && 0 <= t < Bins
  {
    Prefix(h, Bins) - Prefix(h, t + 1)
  }

  /** Intensity sum of the pixels of intensity at most `t`. */
  function SumLow(h: seq<int>, t: int): int
    requires |h| == Bins && 0 <= t < Bins
  {
    Weighted(h, t + 1)
  }

  /** Intensity sum of the pixels of intensity above `t`. */
  function SumHigh(h: seq<int>, t: int): int
    requires |h| == Bins && 0 <= t < Bins
  {
    Weighted(h, Bins) - Weighted(h, t + 1)
  }

  /** Threshold `t` leaves both classes non-empty. */
  predicate Splits(h: seq<int>, t: int)
    requires |h| == Bins && 0 <= t < Bins
  {
    CountLow(h, t) > 0 && CountHigh(h, t) > 0
  }

  /** `countLow * countHigh * (meanHigh - meanLow)^2`, computed exactly. */
  function Variance(countLow: int, countHigh: int, sumLow: int, sumHigh: int): real
    requires countLow > 0 && countHigh > 0
  {
    var avgLow := sumLow as real / countLow as real;
    var avgHigh := sumHigh as real / countHigh as real;
    var diff := avgHigh - avgLow;
    countLow as real * countHigh as real * diff * diff
  }

  /** The between-class variance of threshold `t`, and 0 where `t` does not split. */
  function Score(h: seq<int>, t: int): real
    requires |h| == Bins && 0 <= t < Bins
  {
    if Splits(h, t) then Variance(CountLow(h, t), CountHigh(h, t), SumLow(h, t), SumHigh(h, t)) else 0.0
  }

  /** The sweep over thresholds `t .. 255`, from the best threshold and
      variance found below `t`; a later threshold replaces the best only
      with a strictly greater variance. */
  function SweepFrom(h: seq<int>, t: int, best: int, bestVar: real): (r: int)
    requires |h| == Bins && 0 <= t <= Bins && 0 <= best < Bins
    ensures 0 <= r < Bins
    decreases Bins - t
  {
    if t == Bins then best
    else if Splits(h, t) && Score(h, t) > bestVar then SweepFrom(h, t + 1, t, Score(h, t))
    else SweepFrom(h, t + 1, best, bestVar)
  }

  /** The selected threshold: the sweep from threshold 0 with best 0 and variance 0. */
  function BestThreshold(h: seq<int>): (r: int)
    requires |h| == Bins
    ensures 0 <= r < Bins
  {
    SweepFrom(h, 0, 0, 0.0)
  }

  lemma VarianceNonNegative(countLow: int, countHigh: int, sumLow: int, sumHigh: int)
    requires countLow > 0 && countHigh > 0
    ensures Variance(countLow, countHigh, sumLow, sumHigh) >= 0.0
  {
    var diff := sumHigh as real / countHigh as real - sumLow as real / countLow as real;
    var weight := countLow as real * countHigh as real;
    assert weight > 0.0;
    assert diff * diff >= 0.0;
    assert weight * diff * diff == weight * (diff * diff);
  }

  lemma ScoreNonNegative(h: seq<int>, t: int)
    requires |h| == Bins && 0 <= t < Bins
    ensures Score(h, t) >= 0.0
  {
    if Splits(h, t) {
      VarianceNonNegative(CountLow(h, t), CountHigh(h, t), SumLow(h, t), SumHigh(h, t));
    }
  }

  /** The sweep returns the first threshold of greatest score, given that
      `best` is the first threshold of greatest score below `t`. */
  lemma {:induction false} SweepFindsFirstMaximum(h: seq<int>, t: int, best: int, bestVar: real)
    requires |h| == Bins && 0 <= t <= Bins && 0 <= best < Bins
    requires (t == 0 && best == 0 && bestVar == 0.0) || (best < t && bestVar == Score(h, best))
    requires forall s :: 0 <= s < t ==> Score(h, s) <= bestVar
    requires forall s :: 0 <= s < best ==> Score(h, s) < bestVar
    ensures 0 <= SweepFrom(h, t, best, bestVar) < Bins
    ensures forall s :: 0 <= s < Bins ==> Score(h, s) <= Score(h, SweepFrom(h, t, best, bestVar))
    ensures forall s :: 0 <= s < SweepFrom(h, t, best, bestVar) ==> Score(h, s) < Score(h, SweepFrom(h, t, best, bestVar))
    decreases Bins - t
  {
    if t == Bins {
    } else if Splits(h, t) && Score(h, t) > bestVar {
      SweepFindsFirstMaximum(h, t + 1, t, Score(h, t));
    } else {
      ScoreNonNegative(h, t);
      if t > 0 {
        ScoreNonNegative(h, best);
      }
      assert Score(h, t) <= bestVar;
      SweepFindsFirstMaximum(h, t + 1, best, bestVar);
    }
  }

  /** The selected threshold is the smallest one of greatest score. */
  lemma BestIsFirstMaximum(h: seq<int>)
    requires |h| == Bins
    ensures 0 <= BestThreshold(h) < Bins
    ensures forall s :: 0 <= s < Bins ==> Score(h, s) <= Score(h, BestThreshold(h))
    ensures forall s :: 0 <= s < BestThreshold(h) ==> Score(h, s) < Score(h, BestThreshold(h))
  {
    SweepFindsFirstMaximum(h, 0, 0, 0.0);
  }

  /** When no threshold leaves both classes non-empty, the default 0 stays. */
  lemma NoSplitGivesZero(h: seq<int>)
    requires |h| == Bins
    requires forall t :: 0 <= t < Bins ==> !Splits(h, t)
    ensures BestThreshold(h) == 0
  {
    BestIsFirstMaximum(h);
    var r := BestThreshold(h);
    assert Score(h, 0) == 0.0 && Score(h, r) == 0.0;
  }

  lemma ScaleMonotone(c: int, a: int, b: int)
    requires c >= 0 && a <= b
    ensures c * a <= c * b
  {
  }

  lemma ScaleDistributes(k: int, a: int, b: int)
    ensures k * (a + b) == k * a + k * b
  {
  }

  lemma {:induction false} LowSumBound(h: seq<int>, n: int, k: int)
    requires IsHistogram(h) && 0 <= n <= Bins && n - 1 <= k
    ensures Weighted(h, n) <= k * Prefix(h, n)
  {
    if n > 0 {
      LowSumBound(h, n - 1, k);
      var c := h[n - 1];
      ScaleMonotone(c, n - 1, k);
      ScaleDistributes(k, Prefix(h, n - 1), c);
    }
  }

  lemma {:induction false} HighSumBound(h: seq<int>, m: int, n: int)
    requires IsHistogram(h) && 0 <= m <= n <= Bins
    ensures Weighted(h, n) - Weighted(h, m) >= m * (Prefix(h, n) - Prefix(h, m))
  {
    if n > m {
      HighSumBound(h, m, n - 1);
      var c := h[n - 1];
      ScaleMonotone(c, m, n - 1);
      ScaleDistributes(m, Prefix(h, n - 1) - Prefix(h, m), c);
    }
  }

  lemma QuotientAtMost(a: int, b: int, c: int)
    requires b > 0 && a <= c * b
    ensures a as real / b as real <= c as real
  {
    var q := a as real / b as real;
    assert q * b as real == a as real;
    assert (c * b) as real == c as real * b as real;
    if q > c as real {
      assert q * b as real > c as real * b as real;
    }
  }

  lemma QuotientAtLeast(a: int, b: int, c: int)
    requires b > 0 && a >= c * b
    ensures a as real / b as real >= c as real
  {
    var q := a as real / b as real;
    assert q * b as real == a as real;
    assert (c * b) as real == c as real * b as real;
    if q < c as real {
      assert q * b as real < c as real * b as real;
    }
  }

  lemma ProductAtLeastOne(a: real, b: real)
    requires a >= 1.0 && b >= 1.0
    ensures a * b >= 1.0
  {
    assert (a - 1.0) * b >= 0.0;
  }

  /** Class means at least 1 apart give a variance of at least 1. */
  lemma VarianceAtLeastOne(countLow: int, countHigh: int, sumLow: int, sumHigh: int, t: int)
    requires countLow > 0 && countHigh > 0
    requires sumLow <= t * countLow && sumHigh >= (t + 1) * countHigh
    ensures Variance(countLow, countHigh, sumLow, sumHigh) >= 1.0
  {
    QuotientAtMost(sumLow, countLow, t);
    QuotientAtLeast(sumHigh, countHigh, t + 1);
    var diff := sumHigh as real / countHigh as real - sumLow as real / countLow as real;
    assert diff >= 1.0;
    ProductAtLeastOne(diff, diff);
    var weight := countLow as real * countHigh as real;
    ProductAtLeastOne(countLow as real, countHigh as real);
    ProductAtLeastOne(weight, diff * diff);
    assert weight * diff * diff == weight * (diff * diff);
  }

  /** A threshold that splits the pixels has a positive score: every low
      pixel is at most `t` and every high pixel at least `t + 1`, so the
      class means are at least 1 apart. */
  lemma SplitScorePositive(h: seq<int>, t: int)
    requires IsHistogram(h) && 0 <= t < Bins
    requires Splits(h, t)
    ensures Score(h, t) > 0.0
  {
    LowSumBound(h, t + 1, t);
    HighSumBound(h, t + 1, Bins);
    VarianceAtLeastOne(CountLow(h, t), CountHigh(h, t), SumLow(h, t), SumHigh(h, t), t);
  }

  /** Whenever some threshold splits the pixels into two non-empty
      classes, so does the selected one. */
  lemma BestSplitsWhenPossible(h: seq<int>, t: int)
    requires IsHistogram(h) && 0 <= t < Bins && Splits(h, t)
    ensures Splits(h, BestThreshold(h))
  {
    BestIsFirstMaximum(h);
    SplitScorePositive(h, t);
  }

  /** Prefix sums of a histogram whose only non-empty bins are `a` and `b`. */
  lemma {:induction false} TwoBinPrefix(h: seq<int>, a: int, b: int, n: int)
    requires |h| == Bins && 0 <= a < Bins && 0 <= b < Bins && a != b
    requires forall k :: 0 <= k < Bins && k != a && k != b ==> h[k] == 0
    requires 0 <= n <= Bins
    ensures Prefix(h, n) == (if a < n then h[a] else 0) + (if b < n then h[b] else 0)
    ensures Weighted(h, n) == (if a < n then h[a] * a else 0) + (if b < n then h[b] * b else 0)
  {
    if n > 0 {
      TwoBinPrefix(h, a, b, n - 1);
    }
  }

  /** Two intensity clusters `a < b`: the selected threshold is `a`, so
      exactly the pixels of the lower cluster become black. */
  lemma TwoClusterThreshold(h: seq<int>, a: int, b: int)
    requires IsHistogram(h) && 0 <= a < b < Bins
    requires h[a] > 0 && h[b] > 0
    requires forall k :: 0 <= k < Bins && k != a && k != b ==> h[k] == 0
    ensures BestThreshold(h) == a
  {
    BestIsFirstMaximum(h);
    var r := BestThreshold(h);
    TwoBinPrefix(h, a, b, a + 1);
    TwoBinPrefix(h, a, b, r + 1);
    TwoBinPrefix(h, a, b, Bins);
    SplitScorePositive(h, a);
    assert Score(h, r) > 0.0;
    assert Splits(h, r);
    assert a <= r < b;
    assert Score(h, r) == Score(h, a);
  }

  /** With at most one non-empty bin no threshold splits, so the result is 0. */
  lemma OneBinThreshold(h: seq<int>, a: int)
    requires |h| == Bins && 0 <= a < Bins
    requires forall k :: 0 <= k < Bins && k != a ==> h[k] == 0
    ensures BestThreshold(h) == 0
  {
    var other := if a == 0 then 1 else 0;
    forall t | 0 <= t < Bins
      ensures !Splits(h, t)
    {
      TwoBinPrefix(h, a, other, t + 1);
      TwoBinPrefix(h, a, other, Bins);
    }
    NoSplitGivesZero(h);
  }

  lemma {:induction false} RowCountAbsent(row: seq<int>, v: int, k: int)
    requires forall x :: 0 <= x < |row| ==> row[x] == v
    requires k != Low8(v)
    ensures RowCount(row, k, k + 1) == 0
  {
    if row != [] {
      RowCountAbsent(row[..|row| - 1], v, k);
    }
  }

  lemma {:induction false} GridCountAbsent(g: Image<int>, v: int, k: int)
    requires forall y, x :: 0 <= y < |g| && 0 <= x < |g[y]| ==> g[y][x] == v
    requires k != Low8(v)
    ensures GridCount(g, k, k + 1) == 0
  {
    if g != [] {
      GridCountAbsent(g[..|g| - 1], v, k);
      RowCountAbsent(g[|g| - 1], v, k);
    }
  }

  /** A uniform image (every pixel the same value) gets threshold 0. */
  lemma UniformImageThreshold(g: Image<int>, v: int)
    requires forall y, x :: 0 <= y < |g| && 0 <= x < |g[y]| ==> g[y][x] == v
    ensures BestThreshold(Histogram(g)) == 0
  {
    forall k | 0 <= k < Bins && k != Low8(v)
      ensures Histogram(g)[k] == 0
    {
      GridCountAbsent(g, v, k);
    }
    OneBinThreshold(Histogram(g), Low8(v));
  }

  lemma {:induction false} PrefixMonotone(h: seq<int>, m: int, n: int)
    requires IsHistogram(h) && 0 <= m <= n <= Bins
    ensures 0 <= Prefix(h, m) <= Prefix(h, n)
  {
    if n > m {
      PrefixMonotone(h, m, n - 1);
    } else if m > 0 {
      PrefixMonotone(h, m - 1, m);
    }
  }

  /** An image without pixels gets threshold 0. */
  lemma EmptyImageThreshold(g: Image<int>, width: nat)
    requires IsImage(g, width) && width * |g| == 0
    ensures BestThreshold(Histogram(g)) == 0
  {
    var h := Histogram(g);
    HistogramTotal(g, width);
    forall t | 0 <= t < Bins
      ensures !Splits(h, t)
    {
      PrefixMonotone(h, t + 1, Bins);
    }
    NoSplitGivesZero(h);
  }

  // ---------------------------------------------------------------------
  // The imperative threshold selection
  // ---------------------------------------------------------------------

  /** Tallies the intensity `Low8(v)` of every pixel of the image into a
      fresh array of 256 bins, row by row. */
  method BuildHistogram(g: Image<int>, width: nat) returns (histogram: array<int>)
    requires IsImage(g, width)
    ensures fresh(histogram)
    ensures histogram[..] == Histogram(g)
  {
    histogram := new int[Bins](_ => 0);
    var y := 0;
    while y < |g|
      invariant 0 <= y <= |g|
      invariant histogram.Length == Bins
      invariant forall b :: 0 <= b < Bins ==> histogram[b] == GridCount(g[..y], b, b + 1)
    {
      var x := 0;
      while x < width
        invariant 0 <= x <= width
        invariant forall b :: 0 <= b < Bins ==>
          histogram[b] == GridCount(g[..y], b, b + 1) + RowCount(g[y][..x], b, b + 1)
      {
        var v := Low8(g[y][x]);
        histogram[v] := histogram[v] + 1;
        assert g[y][..x + 1][..x] == g[y][..x];
        x := x + 1;
      }
      assert g[y][..x] == g[y];
      assert g[..y + 1][..y] == g[..y];
      y := y + 1;
    }
    assert g[..y] == g;
  }

  /** Selects the threshold: builds the histogram, sums its weighted bins,
      and sweeps the thresholds 0..255 with running class counts and sums,
      keeping the first threshold of greatest between-class variance. */
  method OtsuThreshold(g: Image<int>, width: nat) returns (threshold: int)
    requires IsImage(g, width)
    ensures threshold == BestThreshold(Histogram(g))
    ensures 0 <= threshold < Bins
    ensures forall t :: 0 <= t < Bins ==> Score(Histogram(g), t) <= Score(Histogram(g), threshold)
    ensures forall t :: 0 <= t < threshold ==> Score(Histogram(g), t) < Score(Histogram(g), threshold)
  {
    var histogram := BuildHistogram(g, width);
    ghost var h := histogram[..];
    HistogramTotal(g, width);

    var countLow := 0;
    var countHigh := width * |g|;
    var sumLow := 0;
    var sumHigh := 0;

    var i := 0;
    while i < histogram.Length
      invariant 0 <= i <= Bins
      invariant sumHigh == Weighted(h, i)
    {
      sumHigh := sumHigh + histogram[i] * i;
      i := i + 1;
    }

    var bestThreshold := 0;
    var bestVar := 0.0;
    var t := 0;
    while t < histogram.Length
      invariant 0 <= t <= Bins && 0 <= bestThreshold < Bins
      invariant countLow == Prefix(h, t) && countHigh == Prefix(h, Bins) - Prefix(h, t)
      invariant sumLow == Weighted(h, t) && sumHigh == Weighted(h, Bins) - Weighted(h, t)
      invariant SweepFrom(h, t, bestThreshold, bestVar) == BestThreshold(h)
    {
      countLow := countLow + histogram[t];
      countHigh := countHigh - histogram[t];
      sumLow := sumLow + histogram[t] * t;
      sumHigh := sumHigh - histogram[t] * t;
      assert countLow == CountLow(h, t) && countHigh == CountHigh(h, t);
      assert sumLow == SumLow(h, t) && sumHigh == SumHigh(h, t);
      if countLow > 0 && countHigh > 0 {
        var variance := Variance(countLow, countHigh, sumLow, sumHigh);
        if variance > bestVar {
          bestVar := variance;
          bestThreshold := t;
        }
      }
      t := t + 1;
    }
    threshold := bestThreshold;
    BestIsFirstMaximum(h);
  }
}
