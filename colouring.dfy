/** The colouring loop of the segmentation: the runs are visited in scan
    order, a fresh colour is drawn whenever the visited run is its own root,
    and the pixels of the run are painted. A colour is identified by its
    draw index: the `d`-th call of the colour generator yields colour `d`. */
module Colouring {
  import opened Raster
  import opened Runs
  import opened UnionFind

  // ---------------------------------------------------------------------
  // Root snapshots and colour draws
  // ---------------------------------------------------------------------

  /** A snapshot of the root of every run of a forest: each root is a root
      itself and is not later than the runs below it. */
  ghost predicate IsRootMap(roots: seq<int>) {
    forall k :: 0 <= k < |roots| ==> 0 <= roots[k] <= k && roots[roots[k]] == roots[k]
  }

  lemma RootsAreRootMap(parent: seq<int>)
    requires IsForest(parent)
    ensures IsRootMap(Roots(parent))
  {
    var roots := Roots(parent);
    forall k | 0 <= k < |roots|
      ensures 0 <= roots[k] <= k && roots[roots[k]] == roots[k]
    {
      assert parent[roots[k]] == roots[k];
    }
  }

  /** Number of colours the loop has drawn before it reaches run `n`: one
      per root among the runs `0 .. n - 1`. */
  function Draws(roots: seq<int>, n: int): (d: nat)
    requires 0 <= n <= |roots|
    ensures d <= n
  {
    if n == 0 then 0 else Draws(roots, n - 1) + (if roots[n - 1] == n - 1 then 1 else 0)
  }

  /** A root draws a colour no later run draws again: draw counts strictly
      grow past a root. */
  lemma {:induction false} DrawsGrowPastRoot(roots: seq<int>, r: int, n: int)
    requires 0 <= r < n <= |roots| && roots[r] == r
    ensures Draws(roots, r) < Draws(roots, n)
    decreases n
  {
    if n - 1 > r {
      DrawsGrowPastRoot(roots, r, n - 1);
    }
  }

  lemma FirstRunDraws(roots: seq<int>, n: int)
    requires IsRootMap(roots) && 0 < n <= |roots|
    ensures Draws(roots, n) >= 1
  {
    DrawsGrowPastRoot(roots, 0, n);
  }

  /** The colour run `z` is painted with by the loop as written: the colour
      drawn last, at the nearest root at or before `z` in scan order, which
      need not be the root of `z`. */
  function CarriedColour(roots: seq<int>, z: int): (c: int)
    requires IsRootMap(roots) && 0 <= z < |roots|
    ensures 0 <= c <= z
  {
    FirstRunDraws(roots, z + 1);
    Draws(roots, z + 1) - 1
  }

  /** The colour of the region of run `z`: the one drawn when the loop
      visited the root of `z`. */
  function ComponentColour(roots: seq<int>, z: int): (c: int)
    requires IsRootMap(roots) && 0 <= z < |roots|
    ensures 0 <= c <= roots[z]
  {
    Draws(roots, roots[z])
  }

  ghost function CarriedColours(roots: seq<int>): seq<int>
    requires IsRootMap(roots)
  {
    seq(|roots|, z requires 0 <= z < |roots| => CarriedColour(roots, z))
  }

  ghost function ComponentColours(roots: seq<int>): seq<int>
    requires IsRootMap(roots)
  {
    seq(|roots|, z requires 0 <= z < |roots| => ComponentColour(roots, z))
  }

  /** Two runs get the same region colour exactly when they have the same root. */
  lemma ComponentColourIffSameRoot(roots: seq<int>, a: int, b: int)
    requires IsRootMap(roots) && 0 <= a < |roots| && 0 <= b < |roots|
    ensures ComponentColour(roots, a) == ComponentColour(roots, b) <==> roots[a] == roots[b]
  {
    if roots[a] < roots[b] {
      DrawsGrowPastRoot(roots, roots[a], roots[b]);
    } else if roots[b] < roots[a] {
      DrawsGrowPastRoot(roots, roots[b], roots[a]);
    }
  }

  /** What the loop needs at run `z`: a root's colour is the number of
      draws before it, any other run shares the colour of its earlier root,
      and only a root adds a draw. */
  lemma ComponentColourStep(roots: seq<int>, z: int)
    requires IsRootMap(roots) && 0 <= z < |roots|
    ensures roots[z] == z ==> ComponentColour(roots, z) == Draws(roots, z)
    ensures roots[z] != z ==> roots[z] < z && ComponentColour(roots, z) == ComponentColour(roots, roots[z])
    ensures Draws(roots, z + 1) == Draws(roots, z) + if roots[z] == z then 1 else 0
  {
  }

  /** `colours` holds the region colour of each of the runs `0 .. n - 1`,
      and `draws` colours have been drawn for them. */
  ghost predicate ColouredUpTo(colours: seq<int>, draws: int, roots: seq<int>, n: int)
    requires IsRootMap(roots)
  {
    |colours| == n <= |roots| && draws == Draws(roots, n) &&
    forall k :: 0 <= k < n ==> colours[k] == ComponentColour(roots, k)
  }

  /** The step of the corrected loop at run `n` with root `r`: a root takes
      the next draw, any other run the colour already given to its root. */
  lemma ColourChoice(colours: seq<int>, draws: int, roots: seq<int>, n: int, r: int)
    requires IsRootMap(roots) && ColouredUpTo(colours, draws, roots, n) && n < |roots| && r == roots[n]
    ensures 0 <= r <= n && (r < n ==> colours[r] == ComponentColour(roots, n))
    ensures r == n ==> ColouredUpTo(colours + [draws], draws + 1, roots, n + 1) && draws == ComponentColour(roots, n)
    ensures r < n ==> ColouredUpTo(colours + [colours[r]], draws, roots, n + 1)
  {
    ComponentColourStep(roots, n);
  }

  /** The colour of run `z` whose root is `r`: a root takes the next draw,
      any other run the colour already given to its root. */
  method RegionColour(colours: seq<int>, draws: int, ghost roots: seq<int>, z: int, r: int)
    returns (colour: int, drawn: int)
    requires IsRootMap(roots) && ColouredUpTo(colours, draws, roots, z) && z < |roots| && r == roots[z]
    ensures colour == ComponentColour(roots, z)
    ensures ColouredUpTo(colours + [colour], drawn, roots, z + 1)
  {
    ColourChoice(colours, draws, roots, z, r);
    if z == r {
      colour, drawn := draws, draws + 1;
    } else {
      colour, drawn := colours[r], draws;
    }
  }

  /** The carried colour variable after runs `0 .. n - 1`: `draws` colours
      drawn, the last of them still held. */
  ghost predicate CarriedUpTo(colour: int, draws: int, roots: seq<int>, n: int)
    requires IsRootMap(roots)
  {
    0 <= n <= |roots| && draws == Draws(roots, n) && (n > 0 ==> colour == CarriedColour(roots, n - 1))
  }

  /** The step of the loop as written at run `n` with root `r`: a root
      draws, any other run keeps the colour held. */
  lemma CarriedChoice(colour: int, draws: int, roots: seq<int>, n: int, r: int)
    requires IsRootMap(roots) && CarriedUpTo(colour, draws, roots, n) && n < |roots| && r == roots[n]
    ensures r == n ==> CarriedUpTo(draws, draws + 1, roots, n + 1) && draws == CarriedColour(roots, n)
    ensures r != n ==> CarriedUpTo(colour, draws, roots, n + 1) && n > 0 && colour == CarriedColour(roots, n)
  {
    ComponentColourStep(roots, n);
    if n == 0 {
      assert roots[0] == 0;
    }
  }

  /** At a root the two colourings agree: the colour carried from the draw
      just made is the region's own colour. */
  lemma CarriedAgreesAtRoots(roots: seq<int>, z: int)
    requires IsRootMap(roots) && 0 <= z < |roots| && roots[z] == z
    ensures CarriedColour(roots, z) == ComponentColour(roots, z)
  {
  }

  // ---------------------------------------------------------------------
  // Painting
  // ---------------------------------------------------------------------

  /** A `height` by `width` raster in which nothing has been painted yet. */
  function Blank(height: nat, width: nat): (img: Image<Paint>)
    ensures |img| == height && IsImage(img, width)
    ensures forall y, x :: 0 <= y < height && 0 <= x < width ==> img[y][x] == Unpainted
  {
    seq(height, _ => seq(width, _ => Unpainted))
  }

  /** Run `r` lies inside a `height` by `width` raster. */
  predicate InFrame(r: Run, height: nat, width: nat) {
    0 <= r.y < height && 0 <= r.xStart <= r.xEnd <= width
  }

  /** The paint of pixel `(x, y)` after runs `0 .. n - 1` have been painted
      in order, run `k` with `colours[k]`: the last run covering the pixel wins. */
  ghost function PaintAt(runs: seq<Run>, colours: seq<int>, n: int, y: int, x: int): Paint
    requires 0 <= n <= |runs| && |colours| == |runs|
  {
    if n == 0 then Unpainted
    else if Covers(runs[n - 1], y, x) then Colour(colours[n - 1])
    else PaintAt(runs, colours, n - 1, y, x)
  }

  /** When no two runs overlap, a pixel carries the colour of the one run
      covering it, and a pixel no run covers stays unpainted. */
  lemma {:induction false} PaintAtCovering(runs: seq<Run>, colours: seq<int>, n: int, y: int, x: int)
    requires 0 <= n <= |runs| && |colours| == |runs|
    requires forall k, l :: 0 <= k < |runs| && 0 <= l < |runs| && Covers(runs[k], y, x) && Covers(runs[l], y, x) ==> k == l
    ensures forall k :: 0 <= k < n && Covers(runs[k], y, x) ==> PaintAt(runs, colours, n, y, x) == Colour(colours[k])
    ensures (forall k :: 0 <= k < n ==> !Covers(runs[k], y, x)) ==> PaintAt(runs, colours, n, y, x) == Unpainted
    decreases n
  {
    if n > 0 {
      PaintAtCovering(runs, colours, n - 1, y, x);
    }
  }

  /** `seg` is the `height` by `width` raster after runs `0 .. n - 1` have been painted. */
  ghost predicate PaintedUpTo(seg: Image<Paint>, height: nat, width: nat, runs: seq<Run>, colours: seq<int>, n: int) {
    |seg| == height && IsImage(seg, width) && |colours| == |runs| && 0 <= n <= |runs| &&
    forall y, x :: 0 <= y < height && 0 <= x < width ==> seg[y][x] == PaintAt(runs, colours, n, y, x)
  }

  /** Painting run `n` over the raster of runs `0 .. n - 1` yields the raster of runs `0 .. n`. */
  lemma PaintedStep(seg: Image<Paint>, painted: Image<Paint>, height: nat, width: nat, runs: seq<Run>, colours: seq<int>, n: int)
    requires PaintedUpTo(seg, height, width, runs, colours, n) && n < |runs|
    requires |painted| == height && IsImage(painted, width)
    requires forall y, x :: 0 <= y < height && 0 <= x < width ==>
      painted[y][x] == if Covers(runs[n], y, x) then Colour(colours[n]) else seg[y][x]
    ensures PaintedUpTo(painted, height, width, runs, colours, n + 1)
  {
  }

  /** Paints the pixels of run `n`, left to right, with colour `colours[n]`,
      over the raster in which runs `0 .. n - 1` have been painted. */
  method PaintRun(seg: Image<Paint>, height: nat, width: nat, ghost runs: seq<Run>, ghost colours: seq<int>,
                  n: int, r: Run, c: int) returns (painted: Image<Paint>)
    requires PaintedUpTo(seg, height, width, runs, colours, n) && n < |runs|
    requires r == runs[n] && c == colours[n] && InFrame(r, height, width)
    ensures PaintedUpTo(painted, height, width, runs, colours, n + 1)
  {
    painted := seg;
    var a := r.xStart;
    while a < r.xEnd
      invariant r.xStart <= a <= r.xEnd
      invariant |painted| == height && IsImage(painted, width)
      invariant forall y, x :: 0 <= y < height && 0 <= x < width ==>
        painted[y][x] == if r.y == y && r.xStart <= x < a then Colour(c) else seg[y][x]
    {
      painted := painted[r.y := painted[r.y][a := Colour(c)]];
      a := a + 1;
    }
    PaintedStep(seg, painted, height, width, runs, colours, n);
  }

  /** The colouring loop as written: the colour variable is only replaced
      at a root, so every other run takes the colour drawn last, whichever
      region it came from. */
  method ColourizeAsWritten(f: RunForest, height: nat, width: nat) returns (seg: Image<Paint>)
    requires f.Valid() && forall k :: 0 <= k < |f.runs| ==> InFrame(f.runs[k], height, width)
    modifies f.parent
    ensures f.Valid() && Roots(f.parent[..]) == old(Roots(f.parent[..]))
    ensures IsRootMap(Roots(f.parent[..]))
    ensures PaintedUpTo(seg, height, width, f.runs, CarriedColours(Roots(f.parent[..])), |f.runs|)
  {
    ghost var roots := Roots(f.parent[..]);
    RootsAreRootMap(f.parent[..]);
    ghost var colours := CarriedColours(roots);
    seg := Blank(height, width);
    var colour := -1; // the initial WHITE, never used: run 0 is always a root
    var draws := 0; // calls of the colour generator so far
    var z := 0;
    while z < |f.runs|
      invariant 0 <= z <= |f.runs|
      invariant f.Valid() && Roots(f.parent[..]) == roots
      invariant CarriedUpTo(colour, draws, roots, z)
      invariant PaintedUpTo(seg, height, width, f.runs, colours, z)
    {
      var r := f.GetRoot(z);
      CarriedChoice(colour, draws, roots, z, r);
      if z == r {
        colour := draws;
        draws := draws + 1;
      }
      seg := PaintRun(seg, height, width, f.runs, colours, z, f.runs[z], colour);
      z := z + 1;
    }
  }

  /** The colouring loop with the evident intent: a root draws a fresh
      colour, every other run reuses the colour of its root, which the scan
      has already visited. */
  method Colourize(f: RunForest, height: nat, width: nat) returns (seg: Image<Paint>)
    requires f.Valid() && forall k :: 0 <= k < |f.runs| ==> InFrame(f.runs[k], height, width)
    modifies f.parent
    ensures f.Valid() && Roots(f.parent[..]) == old(Roots(f.parent[..]))
    ensures IsRootMap(Roots(f.parent[..]))
    ensures PaintedUpTo(seg, height, width, f.runs, ComponentColours(Roots(f.parent[..])), |f.runs|)
  {
    ghost var roots := Roots(f.parent[..]);
    RootsAreRootMap(f.parent[..]);
    ghost var target := ComponentColours(roots);
    seg := Blank(height, width);
    var colours: seq<int> := [];
    var draws := 0;
    var z := 0;
    while z < |f.runs|
      invariant 0 <= z <= |f.runs|
      invariant f.Valid() && Roots(f.parent[..]) == roots
      invariant ColouredUpTo(colours, draws, roots, z)
      invariant PaintedUpTo(seg, height, width, f.runs, target, z)
    {
      var r := f.GetRoot(z);
      var colour;
      colour, draws := RegionColour(colours, draws, roots, z, r);
      colours := colours + [colour];
      seg := PaintRun(seg, height, width, f.runs, target, z, f.runs[z], colour);
      z := z + 1;
    }
  }

  // ---------------------------------------------------------------------
  // A region the loop as written paints with a foreign colour
  // ---------------------------------------------------------------------

  /** Two rows of three pixels: white, black, white over white, black, black. */
  function Notch(): Image<Tone> {
    [[White, Black, White], [White, Black, Black]]
  }

  /** Its runs in scan order: two on the top row, one below the first. */
  function NotchRuns(): seq<Run> {
    [Run(0, 1, 0), Run(2, 3, 0), Run(0, 1, 1)]
  }

  lemma NotchRunsAreItsRuns()
    ensures IsImage(Notch(), 3) && ScanOrdered(NotchRuns())
    ensures forall k :: 0 <= k < 3 ==> IsRunOf(Notch(), 3, NotchRuns()[k])
    ensures forall y, x :: 0 <= y < 2 && 0 <= x < 3 && Notch()[y][x] == White ==>
      Covered(NotchRuns(), y, x)
  {
    var runs := NotchRuns();
    assert Covers(runs[0], 0, 0) && Covers(runs[1], 0, 2) && Covers(runs[2], 1, 0);
    forall y, x | 0 <= y < 2 && 0 <= x < 3 && Notch()[y][x] == White
      ensures Covered(runs, y, x)
    {
      assert (y, x) in {(0, 0), (0, 2), (1, 0)};
    }
  }

  /** Run 1 of the notch meets no other run: a walk from it never leaves it. */
  lemma NotchRegions()
    ensures Connected(NotchRuns(), 0, 2)
    ensures !Connected(NotchRuns(), 0, 1) && !Connected(NotchRuns(), 1, 2)
  {
    var runs := NotchRuns();
    assert IsWalk(runs, [0, 2], 0, 2);
    var labels := [0, 1, 0];
    assert RootOf(labels, 0) == 0 && RootOf(labels, 1) == 1 && RootOf(labels, 2) == 0;
    if w :| IsWalk(runs, w, 0, 1) {
      WalkKeepsRoot(runs, labels, w, 0, 1);
    }
    if w :| IsWalk(runs, w, 1, 2) {
      WalkKeepsRoot(runs, labels, w, 1, 2);
    }
  }

  /** Any forest in which sharing a root means being connected, as the merge
      sweep leaves it, has the roots `[0, 1, 0]` on the notch runs. */
  lemma NotchRoots(parent: seq<int>)
    requires IsForest(parent) && |parent| == 3
    requires forall a, b :: 0 <= a < 3 && 0 <= b < 3 ==>
      (RootOf(parent, a) == RootOf(parent, b) <==> Connected(NotchRuns(), a, b))
    ensures Roots(parent) == [0, 1, 0]
  {
    NotchRegions();
    assert RootOf(parent, 0) == 0;
    assert RootOf(parent, 2) == RootOf(parent, 0);
    assert RootOf(parent, 1) != RootOf(parent, 0);
  }

  /** On the notch the loop as written paints the lower-left run, which
      belongs to the region of run 0, with the colour of run 1, a different
      region; the corrected loop paints it with the colour of run 0. */
  lemma {:induction false} CarriedColourCrossesRegions(parent: seq<int>)
    requires IsForest(parent) && |parent| == 3
    requires forall a, b :: 0 <= a < 3 && 0 <= b < 3 ==>
      (RootOf(parent, a) == RootOf(parent, b) <==> Connected(NotchRuns(), a, b))
    ensures IsRootMap(Roots(parent))
    ensures CarriedColours(Roots(parent)) == [0, 1, 1]
    ensures ComponentColours(Roots(parent)) == [0, 1, 0]
    ensures CarriedColour(Roots(parent), 2) != CarriedColour(Roots(parent), 0)
  {
    NotchRoots(parent);
    NotchRegions();
    RootsAreRootMap(parent);
    var roots := Roots(parent);
    assert Draws(roots, 1) == 1 && Draws(roots, 2) == 2 && Draws(roots, 3) == 2;
  }
}
