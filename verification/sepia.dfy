/** The sepia tint of the bottom image layer (py.py lines 29-34): the image is
    copied into a float32 array, the red plane is scaled by 1.2, the green by
    1.0 and the blue by 0.8, every value is clipped to [0, 255] and the array is
    cast back to uint8, which truncates. */
module Sepia {
  import opened Raster

  /** The float32 values nearest to 1.2 and 0.8; 1.0 is exact in float32. */
  const RedFactor: real := 10066330.0 / 8388608.0
  const GreenFactor: real := 1.0
  const BlueFactor: real := 13421773.0 / 16777216.0

  /** Half a unit in the last place of a float32 below 512, the largest
      distance round-to-nearest can move a product of a byte and a factor. */
  const HalfUlp: real := 1.0 / 65536.0

  function Min(a: int, b: int): int {
    if a <= b then a else b
  }

  // ---------------------------------------------------------------------------
  // Closed form on integers

  /** What the tint does to one 8-bit pixel, in exact integer arithmetic. */
  function SepiaPixel(p: Rgb): (q: Rgb)
    requires ValidPixel(p)
    ensures ValidPixel(q)
    ensures q.green == p.green
    ensures q.blue <= p.blue && (p.blue == 0 ==> q.blue == 0)
    ensures p.red <= q.red
  {
    Rgb(Min(MaxChannel, 6 * p.red / 5), p.green, 4 * p.blue / 5)
  }

  /** Red grows by a fifth, rounded down, until it saturates: every red value
      from 213 up ends at 255, and every value up to 212 stays below it. */
  lemma RedSaturates(p: Rgb)
    requires ValidPixel(p)
    ensures p.red <= 212 ==> SepiaPixel(p).red == 6 * p.red / 5 < MaxChannel
    ensures p.red >= 213 ==> SepiaPixel(p).red == MaxChannel
    ensures SepiaPixel(p).red == MaxChannel <==> p.red >= 213
  {
  }

  /** On a gray pixel the tint orders the channels red >= green >= blue. */
  lemma GrayPixelOrdered(p: Rgb)
    requires ValidPixel(p) && IsGray(p)
    ensures SepiaPixel(p).red >= SepiaPixel(p).green >= SepiaPixel(p).blue
  {
  }

  /** The closed form lifted over one row, pixel by pixel. */
  function SepiaRow(row: seq<Rgb>): (r: seq<Rgb>)
    requires forall x :: 0 <= x < |row| ==> ValidPixel(row[x])
    ensures |r| == |row|
    ensures forall x :: 0 <= x < |row| ==> r[x] == SepiaPixel(row[x])
  {
    if row == [] then [] else [SepiaPixel(row[0])] + SepiaRow(row[1..])
  }

  /** The closed form lifted over an image, row by row. */
  function SepiaImage(g: seq<seq<Rgb>>): (s: seq<seq<Rgb>>)
    requires ValidImage(g)
    ensures SameShape(g, s)
    ensures forall y, x :: 0 <= y < |g| && 0 <= x < |g[y]| ==> s[y][x] == SepiaPixel(g[y][x])
  {
    if g == [] then [] else [SepiaRow(g[0])] + SepiaImage(g[1..])
  }

  // ---------------------------------------------------------------------------
  // The float32 working array, stage by stage

  /** One pixel of the float32 array. */
  datatype RgbF = RgbF(red: real, green: real, blue: real)

  datatype Channel = Red | Green | Blue

  /** np.array(..., dtype=np.float32): every byte is exactly representable. */
  function ToFloat(p: Rgb): RgbF {
    RgbF(p.red as real, p.green as real, p.blue as real)
  }

  /** sepia[:, :, c] *= k on one pixel: only channel c changes. */
  function ScaleChannel(p: RgbF, c: Channel, k: real): (q: RgbF)
    ensures c == Red ==> q.red == p.red * k
    ensures c == Green ==> q.green == p.green * k
    ensures c == Blue ==> q.blue == p.blue * k
    ensures c != Red ==> q.red == p.red
    ensures c != Green ==> q.green == p.green
    ensures c != Blue ==> q.blue == p.blue
  {
    match c
    case Red => p.(red := p.red * k)
    case Green => p.(green := p.green * k)
    case Blue => p.(blue := p.blue * k)
  }

  /** np.clip(v, 0, 255): the nearest point of [0, 255]. */
  function Clip(v: real): (c: real)
    ensures 0.0 <= c <= MaxChannel as real
    ensures 0.0 <= v <= MaxChannel as real ==> c == v
    ensures v < 0.0 ==> c == 0.0
    ensures v > MaxChannel as real ==> c == MaxChannel as real
  {
    if v < 0.0 then 0.0 else if v > MaxChannel as real then MaxChannel as real else v
  }

  /** .astype(np.uint8) on a value already clipped to [0, 255]: the floor.
      Only such values reach the cast; the branch for negative values makes
      the function total and models nothing of the cast. */
  function Truncate(v: real): (n: int)
    ensures v >= 0.0 ==> n as real <= v < n as real + 1.0
    ensures v < 0.0 ==> n as real - 1.0 < v <= n as real
  {
    if v >= 0.0 then v.Floor else -((-v).Floor)
  }

  function ClipPixel(p: RgbF): RgbF {
    RgbF(Clip(p.red), Clip(p.green), Clip(p.blue))
  }

  function TruncatePixel(p: RgbF): Rgb {
    Rgb(Truncate(p.red), Truncate(p.green), Truncate(p.blue))
  }

  /** The float32 products before clipping, with the products kept exact. */
  function TintedPixel(p: Rgb): RgbF {
    ScaleChannel(ScaleChannel(ScaleChannel(ToFloat(p), Red, RedFactor), Green, GreenFactor), Blue, BlueFactor)
  }

  /** The whole block on an image: the three plane scalings, the clip and the
      cast, each applied to the whole array in turn. */
  function SepiaArray(g: seq<seq<Rgb>>): (s: seq<seq<Rgb>>)
    ensures SameShape(g, s)
  {
    var floats := Map2D(g, ToFloat);
    var reds := Map2D(floats, (p: RgbF) => ScaleChannel(p, Red, RedFactor));
    var greens := Map2D(reds, (p: RgbF) => ScaleChannel(p, Green, GreenFactor));
    var blues := Map2D(greens, (p: RgbF) => ScaleChannel(p, Blue, BlueFactor));
    Map2D(Map2D(blues, ClipPixel), TruncatePixel)
  }

  // ---------------------------------------------------------------------------
  // The float32 array agrees with the closed form

  /** Truncating the clipped red product gives the integer closed form for any
      float32 rounding of the product: one that moves it by at most half an
      ulp and never below an integer the exact product reaches (round to
      nearest is monotone and such integers are representable). */
  lemma {:induction false} RedChannelExact(v: int, p: real)
    requires IsByte(v)
    requires (v as real * RedFactor).Floor as real <= p <= v as real * RedFactor + HalfUlp
    ensures Truncate(Clip(p)) == Min(MaxChannel, 6 * v / 5)
  {
    var q, r := 6 * v / 5, 6 * v % 5;
    assert 6 * v == 5 * q + r && 0 <= r < 5;
    var exact := v as real * RedFactor;
    assert v as real * 1.2 == q as real + r as real / 5.0;
    assert v as real * 1.2 <= exact < v as real * 1.2 + 0.0001;
    assert exact.Floor == q;
    assert q as real <= p < q as real + 0.9;
  }

  /** The same for the blue channel, which never reaches the clip bound. */
  lemma {:induction false} BlueChannelExact(v: int, p: real)
    requires IsByte(v)
    requires (v as real * BlueFactor).Floor as real <= p <= v as real * BlueFactor + HalfUlp
    ensures Truncate(Clip(p)) == 4 * v / 5
  {
    var q, r := 4 * v / 5, 4 * v % 5;
    assert 4 * v == 5 * q + r && 0 <= r < 5;
    var exact := v as real * BlueFactor;
    assert v as real * 0.8 == q as real + r as real / 5.0;
    assert v as real * 0.8 <= exact < v as real * 0.8 + 0.0001;
    assert exact.Floor == q;
    assert q as real <= p < q as real + 0.9;
  }

  /** One pixel through the float32 stages equals the closed form. */
  lemma StagedPixelExact(p: Rgb)
    requires ValidPixel(p)
    ensures TruncatePixel(ClipPixel(TintedPixel(p))) == SepiaPixel(p)
  {
    RedChannelExact(p.red, p.red as real * RedFactor);
    BlueChannelExact(p.blue, p.blue as real * BlueFactor);
  }

  /** The staged array computation equals the closed form lifted over the
      image: the tint is pixel-local and keeps the image's shape. */
  lemma SepiaArrayIsPixelwise(g: seq<seq<Rgb>>)
    requires ValidImage(g)
    ensures SepiaArray(g) == SepiaImage(g)
  {
    var s, t := SepiaArray(g), SepiaImage(g);
    forall y | 0 <= y < |g|
      ensures s[y] == t[y]
    {
      forall x | 0 <= x < |g[y]|
        ensures s[y][x] == t[y][x]
      {
        StagedPixelExact(g[y][x]);
      }
    }
  }

  /** Every channel of the tinted image is a byte, and a canvas-sized image
      stays canvas-sized. */
  lemma SepiaArrayInRange(g: seq<seq<Rgb>>)
    requires ValidImage(g)
    ensures ValidImage(SepiaArray(g))
    ensures HasShape(g, CanvasWidth, CanvasHeight) ==> HasShape(SepiaArray(g), CanvasWidth, CanvasHeight)
  {
    SepiaArrayIsPixelwise(g);
  }

  /** Only the pixel at the same position decides an output pixel. */
  lemma SepiaIsLocal(g1: seq<seq<Rgb>>, g2: seq<seq<Rgb>>, y: int, x: int)
    requires 0 <= y < |g1| && 0 <= x < |g1[y]|
    requires 0 <= y < |g2| && 0 <= x < |g2[y]|
    requires g1[y][x] == g2[y][x]
    ensures SepiaArray(g1)[y][x] == SepiaArray(g2)[y][x]
  {
  }

  /** On a gray image (as line 14 produces) every tinted pixel has
      red >= green >= blue, and green is the gray level itself. */
  lemma SepiaGrayOrdered(g: seq<seq<Rgb>>)
    requires ValidImage(g) && GrayImage(g)
    ensures forall y, x :: 0 <= y < |g| && 0 <= x < |g[y]| ==>
      SepiaArray(g)[y][x].red >= SepiaArray(g)[y][x].green == g[y][x].green >= SepiaArray(g)[y][x].blue
  {
    SepiaArrayIsPixelwise(g);
    forall y, x | 0 <= y < |g| && 0 <= x < |g[y]|
      ensures SepiaArray(g)[y][x].red >= SepiaArray(g)[y][x].green >= SepiaArray(g)[y][x].blue
    {
      GrayPixelOrdered(g[y][x]);
    }
  }
}
