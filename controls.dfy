/** The settings panel: the list of the current image's watermarks, the copy-to-all
    button, and the settings of the selected watermark. The panel holds no state; each
    control reports one event, and each settings control a partial update of exactly
    one field of the selected watermark. */
module Controls {
  import opened Types
  import Store

  /** What the panel asks the editor to do. */
  datatype Event =
    | AddWatermark(kind: Kind)
    | SelectRow(index: int)
    | DeleteRow(index: int)
    | CopyToAll
    | PickWatermarkImage
    | Update(index: int, patch: Store.Patch)

  /** `watermarks[selectedIndex]` when a selection exists; an index outside the list reads
      `undefined`, which hides the settings as a missing selection does. */
  function SelectedWatermark(ws: seq<WatermarkSettings>, selected: Option<int>): (r: Option<WatermarkSettings>)
    ensures r.Some? <==> selected.Some? && 0 <= selected.value < |ws|
    ensures r.Some? ==> r.value == ws[selected.value]
  {
    if selected.Some? && 0 <= selected.value < |ws| then Some(ws[selected.value]) else None
  }

  // ---------------------------------------------------------------- what is shown

  /** A settings control, in the order the panel shows them. */
  datatype Control =
    | TextInput | FontList | TextSize                      // text watermarks
    | SelectImage | ImageScale                             // image watermarks
    | ColorPicker | ColorInput                             // text watermarks
    | OpacitySlider | RotationSlider                       // both

  /** The settings controls of a watermark of the given kind: the text, font, size and
      colour controls for text, the image picker and scale for an image, and the opacity
      and rotation sliders last for both. */
  function ControlsFor(kind: Kind): (cs: seq<Control>)
    ensures |cs| >= 2 && cs[|cs| - 2..] == [OpacitySlider, RotationSlider]
    ensures TextInput in cs <==> kind == Text
    ensures FontList in cs <==> kind == Text
    ensures TextSize in cs <==> kind == Text
    ensures ColorPicker in cs <==> kind == Text
    ensures ColorInput in cs <==> kind == Text
    ensures SelectImage in cs <==> kind == Image
    ensures ImageScale in cs <==> kind == Image
  {
    match kind
    case Text => [TextInput, FontList, TextSize, ColorPicker, ColorInput, OpacitySlider, RotationSlider]
    case Image => [SelectImage, ImageScale, OpacitySlider, RotationSlider]
  }

  /** One row of the watermark list. */
  datatype Row = Row(kind: Kind, caption: string, highlighted: bool)

  /** A row's label: the text of a text watermark, else its image name, and `Image` when
      the name is missing or empty. */
  function RowLabel(w: WatermarkSettings): (caption: string)
    ensures w.kind == Text ==> caption == w.text
    ensures w.kind == Image && w.imageName.Some? && w.imageName.value != "" ==> caption == w.imageName.value
    ensures w.kind == Image && (w.imageName.None? || w.imageName.value == "") ==> caption == "Image"
  {
    if w.kind == Text then w.text
    else if w.imageName.Some? && w.imageName.value != "" then w.imageName.value
    else "Image"
  }

  /** What the panel shows: one row per watermark (the selected one highlighted), whether
      copy-to-all is enabled, and the settings controls of the selected watermark. */
  datatype Panel = Panel(rows: seq<Row>, copyEnabled: bool, settings: Option<seq<Control>>)

  function View(ws: seq<WatermarkSettings>, selected: Option<int>): (p: Panel)
    ensures |p.rows| == |ws|
    ensures forall i :: 0 <= i < |ws| ==>
      p.rows[i] == Row(ws[i].kind, RowLabel(ws[i]), selected == Some(i))
    ensures p.copyEnabled <==> ws != []
    ensures p.settings.Some? <==> SelectedWatermark(ws, selected).Some?
    ensures p.settings.Some? ==> p.settings.value == ControlsFor(SelectedWatermark(ws, selected).value.kind)
  {
    var rows := seq(|ws|, i requires 0 <= i < |ws| => Row(ws[i].kind, RowLabel(ws[i]), selected == Some(i)));
    var settings := match SelectedWatermark(ws, selected)
      case None => None
      case Some(w) => Some(ControlsFor(w.kind));
    Panel(rows, |ws| != 0, settings)
  }

  /** Exactly one row is highlighted when the selection names an entry, none otherwise. */
  lemma {:induction false} OneRowHighlighted(ws: seq<WatermarkSettings>, selected: Option<int>, i: int, j: int)
    requires 0 <= i < |ws| && 0 <= j < |ws|
    requires View(ws, selected).rows[i].highlighted && View(ws, selected).rows[j].highlighted
    ensures i == j && SelectedWatermark(ws, selected) == Some(ws[i])
  {
    var rows := View(ws, selected).rows;
    assert rows[i] == Row(ws[i].kind, RowLabel(ws[i]), selected == Some(i));
    assert rows[j] == Row(ws[j].kind, RowLabel(ws[j]), selected == Some(j));
  }

  // ---------------------------------------------------------------- list events

  /** Clicking a row selects it. */
  function RowClick(index: int): (es: seq<Event>)
    ensures es == [SelectRow(index)]
  {
    [SelectRow(index)]
  }

  /** The delete button stops the click from reaching its row: only the delete is
      reported, the row is not selected first. */
  function DeleteClick(index: int): (es: seq<Event>)
    ensures |es| == 1 && es[0].DeleteRow? && es[0].index == index
    ensures forall e :: e in es ==> !e.SelectRow?
  {
    [DeleteRow(index)]
  }

  /** Copy-to-all reports only when there is something to copy. */
  function CopyClick(ws: seq<WatermarkSettings>): (es: seq<Event>)
    ensures es != [] <==> View(ws, None).copyEnabled
    ensures es != [] ==> es == [CopyToAll]
  {
    if ws == [] then [] else [CopyToAll]
  }

  /** Deleting through the panel leaves no selection behind, so no settings are shown
      for a row that has moved. */
  lemma DeleteClearsSettings(s: Store.EditorState, index: int)
    requires Store.CurrentImage(s).Some?
    ensures
      var r := Store.DeleteWatermark(s, DeleteClick(index)[0].index);
      View(Store.CurrentWatermarks(r), r.selected).settings.None?
  {
  }

  // ---------------------------------------------------------------- the sliders

  /** A slider reports only values inside its range. */
  function Slide(min: real, max: real, v: real): (r: real)
    requires min <= max
    ensures min <= r <= max
    ensures min <= v <= max ==> r == v
  {
    if v < min then min else if v > max then max else v
  }

  /** The size slider's range: pixels for text, a percentage scale for images. */
  function SizeRange(kind: Kind): (range: (real, real))
    ensures range.0 == (if kind == Text then TextSizeMin else ImageScaleMin)
    ensures range.1 == SizeMax
  {
    if kind == Text then (TextSizeMin, SizeMax) else (ImageScaleMin, SizeMax)
  }

  /** Where the opacity slider sits: the opacity as a percentage. */
  function OpacityPosition(w: WatermarkSettings): (v: real)
    ensures 0.0 <= w.opacity <= 1.0 ==> 0.0 <= v <= 100.0
  {
    w.opacity * 100.0
  }

  // ---------------------------------------------------------------- settings events

  function OnText(index: int, value: string): Event
  {
    Update(index, Store.Patch(text := Some(value)))
  }

  function OnFont(index: int, family: string): Event
  {
    Update(index, Store.Patch(fontFamily := Some(family)))
  }

  function OnSize(kind: Kind, index: int, v: real): Event
  {
    var range := SizeRange(kind);
    Update(index, Store.Patch(fontSize := Some(Slide(range.0, range.1, v))))
  }

  function OnColor(index: int, value: string): Event
  {
    Update(index, Store.Patch(color := Some(value)))
  }

  /** The opacity slider works in percent and reports a fraction. */
  function OnOpacity(index: int, v: real): Event
  {
    Update(index, Store.Patch(opacity := Some(Slide(0.0, 100.0, v) / 100.0)))
  }

  function OnRotation(index: int, v: real): Event
  {
    Update(index, Store.Patch(rotation := Some(Slide(RotationMin, RotationMax, v))))
  }

  /** Every settings control updates the selected watermark, and merging its patch
      changes exactly the one field it controls. */
  lemma ControlsChangeOneField(w: WatermarkSettings, index: int, s: string, v: real)
    ensures OnText(index, s).index == index && Store.Merge(w, OnText(index, s).patch) == w.(text := s)
    ensures OnFont(index, s).index == index && Store.Merge(w, OnFont(index, s).patch) == w.(fontFamily := s)
    ensures OnColor(index, s).index == index && Store.Merge(w, OnColor(index, s).patch) == w.(color := s)
    ensures OnSize(w.kind, index, v).index == index
    ensures Store.Merge(w, OnSize(w.kind, index, v).patch)
         == w.(fontSize := Slide(SizeRange(w.kind).0, SizeMax, v))
    ensures OnOpacity(index, v).index == index
    ensures Store.Merge(w, OnOpacity(index, v).patch) == w.(opacity := Slide(0.0, 100.0, v) / 100.0)
    ensures OnRotation(index, v).index == index
    ensures Store.Merge(w, OnRotation(index, v).patch) == w.(rotation := Slide(RotationMin, RotationMax, v))
  {
  }

  /** Whatever the controls report, the updated watermark stays inside the panel's
      ranges: each slider keeps its own field in range and the others leave theirs. */
  lemma ControlsKeepRanges(w: WatermarkSettings, index: int, s: string, v: real)
    requires InPanelRanges(w)
    ensures InPanelRanges(Store.Merge(w, OnText(index, s).patch))
    ensures InPanelRanges(Store.Merge(w, OnFont(index, s).patch))
    ensures InPanelRanges(Store.Merge(w, OnColor(index, s).patch))
    ensures InPanelRanges(Store.Merge(w, OnSize(w.kind, index, v).patch))
    ensures InPanelRanges(Store.Merge(w, OnOpacity(index, v).patch))
    ensures InPanelRanges(Store.Merge(w, OnRotation(index, v).patch))
  {
    ControlsChangeOneField(w, index, s, v);
  }

  /** Moving the opacity slider to where it already sits reports the stored opacity. */
  lemma OpacityRoundTrip(w: WatermarkSettings, index: int)
    requires 0.0 <= w.opacity <= 1.0
    ensures Store.Merge(w, OnOpacity(index, OpacityPosition(w)).patch) == w
  {
    ControlsChangeOneField(w, index, "", OpacityPosition(w));
  }

  /** A panel update reaches the selected watermark of the current image and nothing else:
      whichever settings control reports it, the selected entry is merged with its patch
      (which changes the one field that control owns), every other entry, every other
      image's list and the selection stay. */
  lemma {:induction false} PanelUpdateEditsSelected(s: Store.EditorState, e: Event, t: string, v: real)
    requires Store.CurrentImage(s).Some?
    requires SelectedWatermark(Store.CurrentWatermarks(s), s.selected).Some?
    requires
      var i := s.selected.value;
      e in [OnText(i, t), OnFont(i, t), OnColor(i, t), OnSize(Store.CurrentWatermarks(s)[i].kind, i, v),
            OnOpacity(i, v), OnRotation(i, v)]
    ensures e.Update? && e.index == s.selected.value
    ensures
      var i, ws, id := s.selected.value, Store.CurrentWatermarks(s), Store.CurrentImage(s).value.id;
      var r := Store.UpdateWatermark(s, e.index, e.patch);
      && Store.CurrentImage(r) == Store.CurrentImage(s) && r.selected == s.selected
      && |Store.CurrentWatermarks(r)| == |ws|
      && Store.CurrentWatermarks(r)[i] == Store.Merge(ws[i], e.patch)
      && (forall j :: 0 <= j < |ws| && j != i ==> Store.CurrentWatermarks(r)[j] == ws[j])
      && (forall k :: k in s.watermarks && k != id ==> r.watermarks[k] == s.watermarks[k])
  {
    var i := s.selected.value;
    assert e.Update? && e.index == i;
    var r := Store.UpdateWatermark(s, e.index, e.patch);
    assert Store.CurrentImage(r) == Store.CurrentImage(s);
  }

  // ---------------------------------------------------------------- fonts

  /** `customFonts.some(f => f.family === fontFamily)`. */
  function IsCustomFont(fonts: seq<FontInfo>, family: string): (r: bool)
    ensures r <==> exists i :: 0 <= i < |fonts| && fonts[i].family == family
    decreases |fonts|
  {
    if fonts == [] then false
    else if fonts[|fonts| - 1].family == family then true
    else
      var before := IsCustomFont(fonts[..|fonts| - 1], family);
      assert forall i :: 0 <= i < |fonts| - 1 ==> fonts[..|fonts| - 1][i] == fonts[i];
      before
  }

  /** The font list offers the custom fonts first, then the system fonts; each button
      reports its own family. */
  function FontButtons(custom: seq<FontInfo>): (fonts: seq<FontInfo>)
    ensures fonts == custom + SystemFonts
  {
    custom + SystemFonts
  }

  /** The custom-font mark shows for a non-empty family that some custom font carries. */
  function ShowsCustomMark(w: WatermarkSettings, custom: seq<FontInfo>): (shown: bool)
    ensures shown <==> w.fontFamily != "" && exists i :: 0 <= i < |custom| && custom[i].family == w.fontFamily
  {
    w.fontFamily != "" && IsCustomFont(custom, w.fontFamily)
  }

  /** Every family the font list offers is either custom (and marked) or a system font. */
  lemma {:induction false} FontButtonsAreCustomOrSystem(custom: seq<FontInfo>, k: int)
    requires 0 <= k < |FontButtons(custom)|
    ensures
      var f := FontButtons(custom)[k].family;
      k < |custom| ==> IsCustomFont(custom, f)
    ensures k >= |custom| ==> FontButtons(custom)[k] == SystemFonts[k - |custom|]
  {
    var fonts := FontButtons(custom);
    if k < |custom| {
      assert fonts[k] == custom[k];
    }
  }
}
