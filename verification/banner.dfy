/** The text layer of `process_image` (py.py lines 40-54): which string is
    drawn, in which font, at which origin. Glyph measurement belongs to the
    font backend and is a parameter. */
module Banner {
  import opened Raster
  import opened Layout
  import opened Fonts

  const AdText: string := "FLUORINES COOL CLOTHING SHOP!!"

  datatype TextPlacement = TextPlacement(font: Font, text: string, origin: Point)

  /** Pick the font, measure the text with it at (0, 0) and centre the
      measured box on the canvas. */
  function PlaceText(loadable: set<string>, measure: (Font, string) -> BBox): (t: TextPlacement)
    ensures t.text == AdText
    ensures t.font == SelectFont(loadable)
    ensures t.font.TrueType? <==> PreferredFile in loadable
    ensures 0 <= (CanvasWidth - Width(measure(t.font, AdText))) - 2 * t.origin.x <= 1
    ensures 0 <= (CanvasHeight - Height(measure(t.font, AdText))) - 2 * t.origin.y <= 1
    ensures 0 <= t.origin.x <==> Width(measure(t.font, AdText)) <= CanvasWidth
    ensures 0 <= t.origin.y <==> Height(measure(t.font, AdText)) <= CanvasHeight
    ensures Width(measure(t.font, AdText)) <= CanvasWidth ==> t.origin.x + Width(measure(t.font, AdText)) <= CanvasWidth
    ensures Height(measure(t.font, AdText)) <= CanvasHeight ==> t.origin.y + Height(measure(t.font, AdText)) <= CanvasHeight
  {
    var font := SelectFont(loadable);
    var box := measure(font, AdText);
    CenteredOriginNonNegative(box);
    TextPlacement(font, AdText, CenteredOrigin(box))
  }
}
