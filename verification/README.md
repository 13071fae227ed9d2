# Banner image processor: sepia tint, font fallback and text centering

`process_image` in `py.py` turns an uploaded photo into a 2000 x 133 banner.
It resizes the photo, makes it gray, and adjusts brightness and contrast.
It then makes two copies: a blurred-and-blended top layer and a sepia-tinted
bottom layer. Finally it draws an advertisement string, centered, on a
transparent text layer. Almost every stage is a call into the imaging
library. Three pieces of arithmetic are written in the script itself, and
this project models those three:

- **Sepia tint** (`Sepia`). The bottom layer is copied into a float32 array.
  The red plane is multiplied by 1.2, the green by 1.0 and the blue by 0.8.
  The values are clipped to [0, 255] and cast back to uint8, and that cast
  truncates. `SepiaArray` follows those stages over an image held as rows
  of pixels. It uses the float32 values of the factors (1.2000000477… and
  0.8000000119…) as exact reals. `SepiaPixel` is the closed form in integers:
  R' = min(255, ⌊6R/5⌋), G' = G, B' = ⌊4B/5⌋. `SepiaImage` lifts it over the
  image pixel by pixel. `SepiaArrayIsPixelwise` proves
  that the two agree on every 8-bit image. `RedChannelExact` and
  `BlueChannelExact` show that float32 rounding of the products cannot change
  the truncated result. The only assumption is that rounding moves a product
  by at most half an ulp (2^-16 below 512) and never below an integer the
  exact product reaches. Round-to-nearest has both properties.
- **Font fallback** (`Fonts`). The script tries to load `DejaVuSans-Bold.ttf`
  at size 95. On any exception it uses the built-in font. The font backend is
  stood in for by the set of font files it can load.
- **Centering** (`Layout`, `Banner`). The text is measured at (0, 0). The
  measured box gives its width and height. The origin is
  `((2000 - w) // 2, (133 - h) // 2)` with Python's floor division.
  `CenteredOrigin` is characterised as the unique point whose right margin
  equals the left one or exceeds it by one pixel (likewise vertically). The
  box's measurement is a parameter, because it comes from the font backend.

The canvas size 2000 x 133 is `Raster.CanvasWidth` / `Raster.CanvasHeight`.

Two details of the code shape the model. `astype(np.uint8)` truncates
rather than rounds. `//` floors, so an odd amount of spare room puts the
extra pixel on the right and bottom.

## Model

| member | source | states |
|---|---|---|
| Sepia.SepiaPixel | py.py:29-33 | An 8-bit pixel stays 8-bit after the tint. Green is unchanged. Blue never increases and 0 stays 0. Red never decreases. |
| Sepia.RedSaturates | py.py:30-33 | Red becomes ⌊6R/5⌋ (below 255) for R ≤ 212. It saturates at 255 exactly when R ≥ 213. |
| Sepia.GrayPixelOrdered | py.py:29-33 | On a gray pixel (R = G = B, as line 14 produces) the tint gives red ≥ green ≥ blue. |
| Raster.Map2D | py.py:30-33 | Applying an operation to the whole array keeps the image's shape and applies it to each pixel in place, as numpy's whole-array operations do. |
| Sepia.ScaleChannel | py.py:30-32 | Scaling one colour plane multiplies that channel by the factor and leaves the other two untouched. |
| Sepia.Clip | py.py:33 | np.clip to [0, 255]: the result is in range, equals the input when that is in range, and is the nearer bound otherwise. |
| Sepia.Truncate | py.py:33 | On the clipped values in [0, 255] that reach it, the uint8 cast is the floor. The branch for negative values only makes the function total. |
| Sepia.SepiaArray | py.py:29-34 | The staged array computation keeps the image's shape: same number of rows, same row lengths. |
| Sepia.RedChannelExact | py.py:30-33 | For any byte R and any rounding of R·float32(1.2) within half an ulp that does not drop below the exact product's floor, clip-then-truncate gives min(255, ⌊6R/5⌋). |
| Sepia.BlueChannelExact | py.py:32-33 | The same for blue: clip-then-truncate of a rounded B·float32(0.8) gives ⌊4B/5⌋. |
| Sepia.StagedPixelExact | py.py:29-33 | One pixel pushed through the float stages equals the integer closed form. |
| Sepia.SepiaRow | py.py:29-33 | Tinting a row keeps its length, and each output pixel is the closed form of the input pixel at the same position. |
| Sepia.SepiaImage | py.py:29-34 | Tinting an image keeps its shape, and each output pixel is the closed form of the input pixel at the same position. |
| Sepia.SepiaArrayIsPixelwise | py.py:29-34 | On every 8-bit image, the staged float computation equals the closed form lifted pixel by pixel. |
| Sepia.SepiaArrayInRange | py.py:33-34 | Every channel of the tinted image lies in [0, 255], and a 2000 x 133 image stays 2000 x 133. |
| Sepia.SepiaIsLocal | py.py:29-34 | Two images that agree at one position give tinted images that agree at that position. |
| Sepia.SepiaGrayOrdered | py.py:14-34 | On a gray 8-bit image every tinted pixel has red ≥ green ≥ blue, and green is the gray level. |
| Layout.FloorDiv | py.py:51 | Python's `//` by a positive divisor is the floor: d·q ≤ a < d·q + d, negative numerators included. |
| Layout.CenteredOrigin | py.py:49-51 | The spare room minus twice the origin coordinate is 0 or 1 on each axis. |
| Layout.CenteredOriginUnique | py.py:51 | Any point whose margins differ that way is the computed origin. |
| Layout.CenteredOriginExample | py.py:50-51 | A 40 x 20 box is placed at (980, 56), wherever its measured corner lies. |
| Layout.CenteredOriginTranslation | py.py:49-51 | The origin depends only on the box's width and height, not on its corner. |
| Layout.CenteredBoxFits | py.py:51 | A box no wider than 2000 and no taller than 133 gets a non-negative origin and ends inside the canvas. Its opposite margins differ by 0 or 1, the extra pixel going right and bottom. |
| Layout.CenteredOriginNonNegative | py.py:51 | On each axis the origin is non-negative exactly when the box fits the canvas on that axis. |
| Fonts.LoadTrueType | py.py:44 | The loader yields the requested face and size exactly when the backend can load the file. |
| Fonts.SelectFont | py.py:43-46 | The choice is DejaVuSans-Bold at 95 exactly when that file loads, and the built-in font exactly when it does not. It never fails. |
| Banner.PlaceText | py.py:40-51 | The advertisement string is drawn in the font the fallback chooses: TrueType exactly when the preferred file loads. On each axis its origin leaves a far margin equal to the near one or one pixel larger. The origin is non-negative on an axis exactly when the measured box fits there, and a fitting box ends inside the canvas. |

## Left out

- Decoding and the Lanczos resize to 2000 x 133 (py.py:10-11): imaging-library calls whose code is not part of this model.
- The gray conversion (py.py:14), brightness 1.1 and contrast 0.9 (py.py:17-18): imaging-library float arithmetic. `Sepia.SepiaGrayOrdered` takes gray input as a precondition. Brightness and contrast scale all three channels alike, so they keep R = G = B, but the model does not prove this.
- The layer copies, Gaussian blur of radius 10 and the 0.48 blend (py.py:20-26): imaging-library float arithmetic.
- Creating the transparent text layer, glyph measurement and drawing the text (py.py:37-38, 49, 54): the font backend. Its bounding box is a parameter of `Banner.PlaceText`. The drawn ink is offset from the origin by the box's left/top corner, which the centering does not subtract; the model states the centering of the box's size only.
- The two `alpha_composite` calls (py.py:57-58): imaging-library calls. As written they pair an RGBA layer with RGB layers, which that call does not accept, so no working "over" compositing is modelled.
- The user interface, saving `output.png` and the download button (py.py:62-84): I/O.
- Sepia.SepiaArray: multiplies by the float32 factors in exact real arithmetic rather than rounding each product to float32; `Sepia.RedChannelExact` and `Sepia.BlueChannelExact` show that such rounding does not change the result.
- Fonts.LoadTrueType: a font file that exists but fails to parse is treated like a missing one, because the script's bare `except` makes both fall back.
