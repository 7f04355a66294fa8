/** The records and constants every other module shares: a watermark's settings,
    a loaded image, a font, the default watermark and the built-in system fonts. */
module Types {

  datatype Option<+T> = None | Some(value: T)

  /** A result, or the error that took its place. */
  datatype Result<+T, +E> = Success(value: T) | Failure(error: E)

  /** The discriminant of a watermark: what is drawn. */
  datatype Kind = Text | Image

  datatype Alignment = Left | Center | Right

  /** One placed watermark. `x`, `y` are percentages of the preview viewport,
      `fontSize` is pixels for text and a percentage scale for an image watermark,
      `rotation` is in degrees. Only the image source and its label are optional. */
  datatype WatermarkSettings = WatermarkSettings(
    kind: Kind,
    text: string,
    fontFamily: string,
    fontSize: real,
    color: string,
    opacity: real,
    rotation: real,
    x: real,
    y: real,
    alignment: Alignment,
    imageUrl: Option<string>,
    imageName: Option<string>)

  /** A file offered by a file picker: its name and its MIME type. */
  datatype InputFile = InputFile(name: string, mimeType: string)

  /** A loaded image: a fresh id, the picked file, an object URL and a display name. */
  datatype ImageFile = ImageFile(id: string, file: InputFile, url: string, name: string)

  datatype FontInfo = FontInfo(name: string, family: string, file: string)

  /** The index of the last '.' in `s`, if any. */
  function LastDot(s: string): (r: Option<nat>)
    ensures r.None? <==> '.' !in s
    ensures r.Some? ==> r.value < |s| && s[r.value] == '.' && '.' !in s[r.value + 1..]
  {
    if s == [] then None
    else if s[|s| - 1] == '.' then Some(|s| - 1)
    else
      var r := LastDot(s[..|s| - 1]);
      assert s[..|s| - 1] + [s[|s| - 1]] == s;
      if r.Some? then
        assert s[r.value + 1..] == s[..|s| - 1][r.value + 1..] + [s[|s| - 1]];
        r
      else
        assert forall i :: 0 <= i < |s| - 1 ==> s[i] == s[..|s| - 1][i];
        r
  }

  /** Concatenation regrouped. */
  lemma AppendAssoc<T>(a: seq<T>, b: seq<T>, c: seq<T>)
    ensures (a + b) + c == a + (b + c)
  {
  }

  /** The fonts that are always offered, before any custom font loads. */
  const SystemFonts: seq<FontInfo> := [
    FontInfo("Inter", "Inter", ""),
    FontInfo("Arial", "Arial", ""),
    FontInfo("Georgia", "Georgia", ""),
    FontInfo("Times New Roman", "Times New Roman", ""),
    FontInfo("Courier New", "Courier New", ""),
    FontInfo("Verdana", "Verdana", "")
  ]

  /** The settings every new watermark starts from. */
  const DefaultWatermark: WatermarkSettings := WatermarkSettings(
    Text, "Watermark", "Inter", 48.0, "#ffffff", 0.7, 0.0, 50.0, 50.0, Center, None, None)

  /** The slider ranges of the settings panel, shared by the checks below. */
  const TextSizeMin: real := 8.0
  const ImageScaleMin: real := 10.0
  const SizeMax: real := 200.0
  const RotationMin: real := -180.0
  const RotationMax: real := 180.0

  /** A watermark whose normalised fields lie in the ranges the settings panel offers. */
  predicate InPanelRanges(w: WatermarkSettings)
  {
    && 0.0 <= w.opacity <= 1.0
    && RotationMin <= w.rotation <= RotationMax
    && (if w.kind == Text then TextSizeMin else ImageScaleMin) <= w.fontSize <= SizeMax
  }

  /** The default is centred, unrotated, a text watermark, and inside every panel range
      (its size 48 is valid both as text pixels and as an image percentage). */
  lemma DefaultWatermarkInRanges()
    ensures DefaultWatermark.kind == Text && DefaultWatermark.text == "Watermark"
    ensures DefaultWatermark.x == 50.0 && DefaultWatermark.y == 50.0
    ensures DefaultWatermark.rotation == 0.0 && DefaultWatermark.alignment == Center
    ensures InPanelRanges(DefaultWatermark)
    ensures InPanelRanges(DefaultWatermark.(kind := Image))
  {
  }

  /** Six system fonts, each its own family and none backed by a file. */
  lemma SystemFontsWellFormed()
    ensures |SystemFonts| == 6
    ensures forall i :: 0 <= i < |SystemFonts| ==>
      SystemFonts[i].name == SystemFonts[i].family && SystemFonts[i].file == ""
  {
  }
}
