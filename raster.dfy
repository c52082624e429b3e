/** Pixel grids shared by every stage of the segmentation pipeline. */
module Raster {

  /** A row-major pixel grid: `img[y][x]` is the pixel in column `x` of row `y`. */
  type Image<T> = seq<seq<T>>

  /** Every row of `img` holds exactly `width` pixels: the grid is a rectangle. */
  ghost predicate IsImage<T>(img: Image<T>, width: nat) {
    forall y :: 0 <= y < |img| ==> |img[y]| == width
  }

  /** The low byte of a packed pixel value, as `v & 255` computes it on a
      two's-complement int. Dafny's `%` is Euclidean, so this is the same
      residue for negative `v` too. */
  function Low8(v: int): int {
    v % 256
  }

  /** A pixel of the binary image. */
  datatype Tone = Black | White

  /** A pixel of the segmented image: untouched (the black of a fresh
      RGB raster) or painted with the colour drawn as the `index`-th
      call of the colour generator. */
  datatype Paint = Unpainted | Colour(index: int)
}
