/** Pixels, images and the fixed banner canvas shared by the pipeline stages. */
module Raster {

  /** The banner canvas every layer is resized or drawn to, in pixels. */
  const CanvasWidth: int := 2000
  const CanvasHeight: int := 133

  /** Largest value of an 8-bit unsigned channel. */
  const MaxChannel: int := 255

  predicate IsByte(v: int) {
    0 <= v <= MaxChannel
  }

  /** One pixel of a 3-channel image. Channels are unbounded integers here;
      a decoded image keeps every channel inside [0, 255]. */
  datatype Rgb = Rgb(red: int, green: int, blue: int)

  predicate ValidPixel(p: Rgb) {
    IsByte(p.red) && IsByte(p.green) && IsByte(p.blue)
  }

  /** A pixel of an "L" image expanded back to RGB: all channels equal. */
  predicate IsGray(p: Rgb) {
    p.red == p.green && p.green == p.blue
  }

  /** Two images (rows top to bottom, each row left to right) with the same
      number of rows and the same length for every row. */
  predicate SameShape<A, B>(a: seq<seq<A>>, b: seq<seq<B>>) {
    |a| == |b| && forall y :: 0 <= y < |a| ==> |a[y]| == |b[y]|
  }

  predicate HasShape<A>(a: seq<seq<A>>, width: nat, height: nat) {
    |a| == height && forall y :: 0 <= y < |a| ==> |a[y]| == width
  }

  predicate ValidImage(g: seq<seq<Rgb>>) {
    forall y, x :: 0 <= y < |g| && 0 <= x < |g[y]| ==> ValidPixel(g[y][x])
  }

  predicate GrayImage(g: seq<seq<Rgb>>) {
    forall y, x :: 0 <= y < |g| && 0 <= x < |g[y]| ==> IsGray(g[y][x])
  }

  /** Applies `f` to every pixel, keeping the image's shape. */
  function Map2D<A, B>(g: seq<seq<A>>, f: A -> B): (r: seq<seq<B>>)
    ensures SameShape(g, r)
    ensures forall y, x :: 0 <= y < |g| && 0 <= x < |g[y]| ==> r[y][x] == f(g[y][x])
  {
    seq(|g|, y requires 0 <= y < |g| => seq(|g[y]|, x requires 0 <= x < |g[y]| => f(g[y][x])))
  }
}
