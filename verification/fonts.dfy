/** Choosing the font for the advertisement text (py.py lines 43-46). */
module Fonts {

  datatype Option<T> = None | Some(value: T)

  /** A font handle: a TrueType face loaded from a file at a point size, or
      the backend's built-in bitmap font. */
  datatype Font = TrueType(file: string, size: nat) | BuiltinDefault

  const PreferredFile: string := "DejaVuSans-Bold.ttf"
  const PreferredSize: nat := 95

  /** The font backend's loader. `loadable` is the set of font files it can
      open and parse; any other file makes it fail. */
  function LoadTrueType(loadable: set<string>, file: string, size: nat): (r: Option<Font>)
    ensures r.Some? <==> file in loadable
    ensures r.Some? ==> r.value == TrueType(file, size)
  {
    if file in loadable then Some(TrueType(file, size)) else None
  }

  /** Try the preferred face; on any failure fall back to the built-in font.
      The choice never fails. */
  function SelectFont(loadable: set<string>): (f: Font)
    ensures f == TrueType(PreferredFile, PreferredSize) <==> PreferredFile in loadable
    ensures f == BuiltinDefault <==> PreferredFile !in loadable
  {
    match LoadTrueType(loadable, PreferredFile, PreferredSize)
    case Some(font) => font
    case None => BuiltinDefault
  }
}
