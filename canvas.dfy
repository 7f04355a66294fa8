/** The interactive preview: a canvas holding the fitted background image and one object
    per drawable watermark, a registry from list index to object, the active (selected)
    object, and a flag that mutes the canvas's events while the objects are rebuilt.
    Events report selections and drags back to the editor as indices and partial updates. */
module PreviewCanvas {
  import opened Types
  import opened Geometry
  import Compositor
  import Store

  /** What a watermark object shows: a text run in its font, or a decoded picture. */
  datatype Look =
    | Label(text: string, family: string, fontSize: real, fill: string, align: Alignment)
    | Picture(url: string)

  /** A watermark object, centred on (`left`, `top`), tagged with its list index. */
  datatype CanvasObject = CanvasObject(
    watermarkIndex: int,
    look: Look,
    left: real,
    top: real,
    angle: real,
    opacity: real,
    scaleX: real,
    scaleY: real)

  /** The fitted background image, centred on the viewport. */
  datatype Backdrop = Backdrop(url: string, left: real, top: real, scale: real)

  /** What an event tells the editor. */
  datatype Report = NoReport | Selected(selection: Option<int>) | Modified(index: int, patch: Store.Patch)

  /** A watermark the rebuild draws: text always; an image once its source has loaded. */
  predicate Drawn(w: WatermarkSettings, loaded: bool)
  {
    w.kind == Text || (Compositor.HasSource(w) && loaded)
  }

  /** The object the rebuild creates for watermark `index`: centred on its percentages of
      the viewport (zero extents fall back to 800 x 600), at its rotation and opacity; a
      text at its font size, an image scaled by its size percentage. */
  function Placed(w: WatermarkSettings, index: int, canvasW: Extent, canvasH: Extent): (o: CanvasObject)
    requires w.kind == Text || Compositor.HasSource(w)
    ensures o.watermarkIndex == index
    ensures o.left == PercentToPixel(w.x, OrElse(canvasW, DefaultViewWidth))
    ensures o.top == PercentToPixel(w.y, OrElse(canvasH, DefaultViewHeight))
    ensures o.angle == w.rotation && o.opacity == w.opacity
    ensures w.kind == Text ==> o.look.Label? && o.look.fontSize == w.fontSize && o.scaleX == o.scaleY == 1.0
    ensures w.kind == Image ==> o.look == Picture(w.imageUrl.value) && o.scaleX == o.scaleY == w.fontSize / 100.0
  {
    var left := PercentToPixel(w.x, OrElse(canvasW, DefaultViewWidth));
    var top := PercentToPixel(w.y, OrElse(canvasH, DefaultViewHeight));
    if w.kind == Text then
      CanvasObject(index, Label(w.text, w.fontFamily, w.fontSize, w.color, w.alignment),
                   left, top, w.rotation, w.opacity, 1.0, 1.0)
    else
      CanvasObject(index, Picture(w.imageUrl.value), left, top, w.rotation, w.opacity,
                   w.fontSize / 100.0, w.fontSize / 100.0)
  }

  /** The text objects of the first `n` watermarks, added in list order. */
  function TextLayer(ws: seq<WatermarkSettings>, n: nat, canvasW: Extent, canvasH: Extent): (layer: seq<CanvasObject>)
    requires n <= |ws|
  {
    if n == 0 then []
    else
      TextLayer(ws, n - 1, canvasW, canvasH)
        + (if ws[n - 1].kind == Text then [Placed(ws[n - 1], n - 1, canvasW, canvasH)] else [])
  }

  /** Every object of the text layer is the placement of a text watermark, under its own
      index. */
  lemma {:induction false} TextLayerIsPlaced(ws: seq<WatermarkSettings>, n: nat, canvasW: Extent, canvasH: Extent)
    requires n <= |ws|
    ensures forall o :: o in TextLayer(ws, n, canvasW, canvasH) ==>
      && 0 <= o.watermarkIndex < n && ws[o.watermarkIndex].kind == Text
      && o == Placed(ws[o.watermarkIndex], o.watermarkIndex, canvasW, canvasH)
  {
    if n > 0 {
      TextLayerIsPlaced(ws, n - 1, canvasW, canvasH);
    }
  }

  /** The image objects of the first `n` watermarks whose source loaded, each brought to
      the front as it arrives (taken here in list order). */
  function ImageLayer(ws: seq<WatermarkSettings>, loads: seq<bool>, n: nat, canvasW: Extent, canvasH: Extent)
    : (layer: seq<CanvasObject>)
    requires n <= |ws| == |loads|
  {
    if n == 0 then []
    else
      var w := ws[n - 1];
      ImageLayer(ws, loads, n - 1, canvasW, canvasH)
        + (if w.kind == Image && Drawn(w, loads[n - 1]) then [Placed(w, n - 1, canvasW, canvasH)] else [])
  }

  /** Every object of the image layer is the placement of an image watermark whose source
      loaded, under its own index. */
  lemma {:induction false} ImageLayerIsPlaced(ws: seq<WatermarkSettings>, loads: seq<bool>, n: nat, canvasW: Extent, canvasH: Extent)
    requires n <= |ws| == |loads|
    ensures forall o :: o in ImageLayer(ws, loads, n, canvasW, canvasH) ==>
      && 0 <= o.watermarkIndex < n && ws[o.watermarkIndex].kind == Image
      && Drawn(ws[o.watermarkIndex], loads[o.watermarkIndex])
      && o == Placed(ws[o.watermarkIndex], o.watermarkIndex, canvasW, canvasH)
  {
    if n > 0 {
      ImageLayerIsPlaced(ws, loads, n - 1, canvasW, canvasH);
    }
  }

  /** Whether the rebuild has drawn watermark `j` once the image callbacks of the
      watermarks before `imagesUpTo` have run. */
  predicate Included(w: WatermarkSettings, loaded: bool, j: int, imagesUpTo: nat)
  {
    w.kind == Text || (j < imagesUpTo && Drawn(w, loaded))
  }

  /** `objects` without the ones in `gone`, in order. */
  function Without(objects: seq<CanvasObject>, gone: set<CanvasObject>): (r: seq<CanvasObject>)
    ensures forall o :: o in r <==> o in objects && o !in gone
    ensures (forall o :: o in objects ==> o in gone) ==> r == []
  {
    if objects == [] then []
    else
      var last := objects[|objects| - 1];
      Without(objects[..|objects| - 1], gone) + (if last in gone then [] else [last])
  }

  /** The preview canvas. */
  class Canvas {
    const width: Extent
    const height: Extent
    var background: Option<Backdrop>
    /** The watermark objects, bottom to top. */
    var objects: seq<CanvasObject>
    /** `watermarkObjectsRef`: list index to the object drawn for it. */
    var registry: map<int, CanvasObject>
    var active: Option<CanvasObject>
    /** `isUpdatingRef`: set while the objects are being rebuilt. */
    var updating: bool

    /** Every watermark object on the canvas is the one registered under its index, and
        the active object is on the canvas. */
    ghost predicate Valid()
      reads this
    {
      && (forall o :: o in objects ==> o.watermarkIndex in registry && registry[o.watermarkIndex] == o)
      && (active.Some? ==> active.value in objects)
    }

    /** The object that should be active: the registered object of the selected index,
        if there is one. */
    ghost function ActiveFor(selected: Option<int>): Option<CanvasObject>
      reads this
    {
      if selected.Some? && selected.value in registry then Some(registry[selected.value]) else None
    }

    constructor (w: Extent, h: Extent)
      ensures width == w && height == h
      ensures background == None && objects == [] && registry == map[] && active == None && !updating
      ensures Valid()
    {
      width, height := w, h;
      background, objects, registry, active, updating := None, [], map[], None, false;
    }

    /** A decoded background replaces the previous one, fitted and centred on the viewport
        (zero extents fall back to 800 x 600, a zero image extent to 1). */
    method SetBackground(url: string, imgW: Extent, imgH: Extent)
      modifies this
      ensures background == Some(Backdrop(url, OrElse(width, DefaultViewWidth) / 2.0,
                                          OrElse(height, DefaultViewHeight) / 2.0,
                                          BackgroundScale(width, height, imgW, imgH)))
      ensures objects == old(objects) && registry == old(registry)
      ensures active == old(active) && updating == old(updating)
    {
      var viewW, viewH := OrElse(width, DefaultViewWidth), OrElse(height, DefaultViewHeight);
      background := Some(Backdrop(url, viewW / 2.0, viewH / 2.0, BackgroundScale(width, height, imgW, imgH)));
    }

    /** Removes every registered object and clears the registry; removing the active
        object discards the selection. */
    method Clear()
      requires Valid()
      modifies this
      ensures objects == [] && registry == map[] && active == None
      ensures Valid() && updating == old(updating) && background == old(background)
    {
      var gone := registry.Values;
      assert forall o :: o in objects ==> o in gone by {
        forall o | o in objects ensures o in gone {
          assert registry[o.watermarkIndex] == o;
        }
      }
      objects := Without(objects, gone);
      if active.Some? && active.value in gone {
        active := None;
      }
      registry := map[];
    }

    /** The update effect: with events muted, the old objects go, then one object per text
        watermark is added in list order, then one per image watermark whose source loads;
        the object of the selected index becomes active. */
    method Rebuild(ws: seq<WatermarkSettings>, selected: Option<int>, loads: seq<bool>)
      requires |loads| == |ws| && Valid()
      modifies this
      ensures Valid() && updating && background == old(background)
      ensures objects == TextLayer(ws, |ws|, width, height) + ImageLayer(ws, loads, |ws|, width, height)
      ensures forall j :: 0 <= j < |ws| && Drawn(ws[j], loads[j]) ==> j in registry
      ensures forall j :: j in registry ==>
        0 <= j < |ws| && Drawn(ws[j], loads[j]) && registry[j] == Placed(ws[j], j, width, height)
      ensures active == ActiveFor(selected)
    {
      updating := true;
      Clear();
      AddTextObjects(ws, selected);
      AddImageObjects(ws, selected, loads);
      assert forall j :: 0 <= j < |ws| ==> (Included(ws[j], loads[j], j, |ws|) <==> Drawn(ws[j], loads[j]));
    }

    /** The synchronous pass: one object per text watermark, in list order. */
    method AddTextObjects(ws: seq<WatermarkSettings>, selected: Option<int>)
      requires Valid() && objects == [] && registry == map[] && active == None
      modifies this
      ensures Valid() && updating == old(updating) && background == old(background)
      ensures objects == TextLayer(ws, |ws|, width, height)
      ensures forall j :: 0 <= j < |ws| && ws[j].kind == Text ==> j in registry
      ensures forall j :: j in registry ==>
        0 <= j < |ws| && ws[j].kind == Text && registry[j] == Placed(ws[j], j, width, height)
      ensures active == ActiveFor(selected)
    {
      for i := 0 to |ws|
        invariant TextsPlaced(ws, selected, i)
        invariant updating == old(updating) && background == old(background)
      {
        AddText(ws, selected, i);
      }
    }

    /** The state after the synchronous pass has reached `upTo`: the objects of the text
        watermarks before it, in order, each registered under its index, and the selected
        one active. */
    ghost predicate TextsPlaced(ws: seq<WatermarkSettings>, selected: Option<int>, upTo: nat)
      requires upTo <= |ws|
      reads this
    {
      && Valid() && objects == TextLayer(ws, upTo, width, height)
      && (forall j :: 0 <= j < upTo && ws[j].kind == Text ==> j in registry)
      && (forall j :: j in registry ==>
            0 <= j < upTo && ws[j].kind == Text && registry[j] == Placed(ws[j], j, width, height))
      && active == ActiveFor(selected)
    }

    /** One step of the synchronous pass: a text watermark gets its object; any other
        adds nothing yet. */
    method AddText(ws: seq<WatermarkSettings>, selected: Option<int>, i: nat)
      requires i < |ws| && TextsPlaced(ws, selected, i)
      modifies this
      ensures TextsPlaced(ws, selected, i + 1)
      ensures updating == old(updating) && background == old(background)
    {
      if ws[i].kind == Text {
        AddObject(Placed(ws[i], i, width, height), selected);
      }
    }

    /** The registry holds, under its own index, the object of every watermark `j` for
        which `included(j)`, and nothing else. */
    ghost predicate RegistryOf(ws: seq<WatermarkSettings>, loads: seq<bool>, imagesUpTo: nat)
      requires |loads| == |ws|
      reads this
    {
      && (forall j :: 0 <= j < |ws| && Included(ws[j], loads[j], j, imagesUpTo) ==> j in registry)
      && (forall j :: j in registry ==>
            && 0 <= j < |ws| && Included(ws[j], loads[j], j, imagesUpTo)
            && registry[j] == Placed(ws[j], j, width, height))
    }

    /** The state after the load callbacks of the watermarks before `imagesUpTo`: the
        registry is complete up to there and the selected object is active. */
    ghost predicate Resolved(ws: seq<WatermarkSettings>, loads: seq<bool>, selected: Option<int>, imagesUpTo: nat)
      requires |loads| == |ws|
      reads this
    {
      Valid() && RegistryOf(ws, loads, imagesUpTo) && active == ActiveFor(selected)
    }

    /** The load callbacks: one object per image watermark with a source that loads, each
        put on top. */
    method AddImageObjects(ws: seq<WatermarkSettings>, selected: Option<int>, loads: seq<bool>)
      requires |loads| == |ws| && Resolved(ws, loads, selected, 0)
      modifies this
      ensures Resolved(ws, loads, selected, |ws|)
      ensures updating == old(updating) && background == old(background)
      ensures objects == old(objects) + ImageLayer(ws, loads, |ws|, width, height)
    {
      for i := 0 to |ws|
        invariant Resolved(ws, loads, selected, i)
        invariant updating == old(updating) && background == old(background)
        invariant objects == old(objects) + ImageLayer(ws, loads, i, width, height)
      {
        ResolveImage(ws, selected, loads, i, old(objects));
      }
    }

    /** The load callback of watermark `i`: an image watermark whose source loads is
        registered, put on top, and made active when selected; any other watermark adds
        nothing. */
    method ResolveImage(ws: seq<WatermarkSettings>, selected: Option<int>, loads: seq<bool>, i: nat,
                        ghost below: seq<CanvasObject>)
      requires |loads| == |ws| && i < |ws| && Resolved(ws, loads, selected, i)
      requires objects == below + ImageLayer(ws, loads, i, width, height)
      modifies this
      ensures Resolved(ws, loads, selected, i + 1)
      ensures updating == old(updating) && background == old(background)
      ensures objects == below + ImageLayer(ws, loads, i + 1, width, height)
    {
      ghost var layer := ImageLayer(ws, loads, i, width, height);
      if ws[i].kind == Image && Drawn(ws[i], loads[i]) {
        var o := Placed(ws[i], i, width, height);
        AddObject(o, selected);
        assert ImageLayer(ws, loads, i + 1, width, height) == layer + [o];
        AppendAssoc(below, layer, [o]);
      } else {
        assert ImageLayer(ws, loads, i + 1, width, height) == layer;
      }
    }

    /** Registers a new object under its index, puts it on top, and makes it active when
        its index is the selected one. */
    method AddObject(o: CanvasObject, selected: Option<int>)
      requires Valid() && o.watermarkIndex !in registry
      modifies this
      ensures Valid()
      ensures objects == old(objects) + [o] && registry == old(registry)[o.watermarkIndex := o]
      ensures active == (if selected == Some(o.watermarkIndex) then Some(o) else old(active))
      ensures updating == old(updating) && background == old(background)
    {
      registry := registry[o.watermarkIndex := o];
      objects := objects + [o];
      if selected == Some(o.watermarkIndex) {
        active := Some(o);
      }
    }

    /** The debounce ends: events are heard again. */
    method Settle()
      modifies this
      ensures !updating
      ensures objects == old(objects) && registry == old(registry) && active == old(active)
      ensures background == old(background)
    {
      updating := false;
    }

    /** `selection:created` / `selection:updated`: the first selected object's index. */
    function OnSelection(selection: seq<CanvasObject>): (r: Report)
      reads this
      ensures r != NoReport <==> !updating && selection != []
      ensures r != NoReport ==> r == Selected(Some(selection[0].watermarkIndex))
    {
      if updating || selection == [] then NoReport else Selected(Some(selection[0].watermarkIndex))
    }

    /** `selection:cleared`: no selection. */
    function OnDeselection(): (r: Report)
      reads this
      ensures r != NoReport <==> !updating
      ensures r != NoReport ==> r == Selected(None)
    {
      if updating then NoReport else Selected(None)
    }

    /** `object:modified`: the moved object's index and its new placement. */
    function OnModified(target: Option<CanvasObject>): (r: Report)
      reads this
      ensures r != NoReport <==> !updating && target.Some?
      ensures r != NoReport ==> r == Modified(target.value.watermarkIndex, DragPatch(target.value, width, height))
    {
      if updating || target.None? then NoReport
      else Modified(target.value.watermarkIndex, DragPatch(target.value, width, height))
    }
  }

  // ---------------------------------------------------------------- the drag report

  /** The corrected size report: `fontSize * (scaleX || 1)` for a text object with a
      non-zero font size; nothing for any other object, so the stored size is kept. (As
      written, the key is always present; see `ReportedSizeAsWritten`.) */
  function ReportedSize(o: CanvasObject): (r: Option<real>)
    ensures r.Some? <==> o.look.Label? && o.look.fontSize != 0.0
    ensures o.look.Label? && o.look.fontSize != 0.0 && o.scaleX != 0.0 ==> r == Some(o.look.fontSize * o.scaleX)
    ensures o.look.Label? && o.look.fontSize != 0.0 && o.scaleX == 0.0 ==> r == Some(o.look.fontSize)
  {
    match o.look
    case Label(_, _, fontSize, _, _) =>
      if fontSize == 0.0 then None
      else Some(fontSize * (if o.scaleX == 0.0 then 1.0 else o.scaleX))
    case Picture(_) => None
  }

  /** The update a drag reports, with the corrected size report: the object's centre as
      percentages of the canvas (zero extents fall back to 1), its angle as the rotation,
      and the scaled text size; nothing else. */
  function DragPatch(o: CanvasObject, canvasW: Extent, canvasH: Extent): (p: Store.Patch)
    ensures p.x.Some? && PercentToPixel(p.x.value, OrElse(canvasW, 1.0)) == o.left
    ensures p.y.Some? && PercentToPixel(p.y.value, OrElse(canvasH, 1.0)) == o.top
    ensures p.rotation == Some(o.angle)
    ensures p.fontSize == ReportedSize(o)
    ensures p.text.None? && p.kind.None? && p.opacity.None? && p.imageUrl.None? && p.imageName.None?
    ensures p.fontFamily.None? && p.color.None?
  {
    Store.Patch(
      x := Some(PixelToPercent(o.left, OrElse(canvasW, 1.0))),
      y := Some(PixelToPercent(o.top, OrElse(canvasH, 1.0))),
      rotation := Some(o.angle),
      fontSize := ReportedSize(o))
  }

  /** An object that ends a drag where the rebuild placed it reports back exactly the
      watermark it was built from. */
  lemma {:induction false} UnmovedDragChangesNothing(w: WatermarkSettings, index: int, canvasW: Extent, canvasH: Extent)
    requires canvasW > 0.0 && canvasH > 0.0
    requires w.kind == Text || Compositor.HasSource(w)
    ensures Store.Merge(w, DragPatch(Placed(w, index, canvasW, canvasH), canvasW, canvasH)) == w
  {
    var o := Placed(w, index, canvasW, canvasH);
    PercentRoundTrip(w.x, canvasW);
    PercentRoundTrip(w.y, canvasH);
    assert w.kind == Text && w.fontSize != 0.0 ==> w.fontSize * 1.0 == w.fontSize;
  }

  /** After a drag, the rebuilt object sits where it was dropped: the reported update
      places its centre on the drop point. */
  lemma {:induction false} DroppedObjectStaysPut(w: WatermarkSettings, o: CanvasObject, canvasW: Extent, canvasH: Extent)
    requires canvasW > 0.0 && canvasH > 0.0
    requires w.kind == Text || Compositor.HasSource(w)
    ensures
      var moved := Store.Merge(w, DragPatch(o, canvasW, canvasH));
      var rebuilt := Placed(moved, o.watermarkIndex, canvasW, canvasH);
      rebuilt.left == o.left && rebuilt.top == o.top && rebuilt.angle == o.angle
  {
    var p := DragPatch(o, canvasW, canvasH);
    assert OrElse(canvasW, 1.0) == canvasW == OrElse(canvasW, DefaultViewWidth);
    assert OrElse(canvasH, 1.0) == canvasH == OrElse(canvasH, DefaultViewHeight);
  }

  /** A drag of an image watermark keeps its scale. */
  lemma DragKeepsImageScale(w: WatermarkSettings, o: CanvasObject, canvasW: Extent, canvasH: Extent)
    requires o.look.Picture?
    ensures Store.Merge(w, DragPatch(o, canvasW, canvasH)).fontSize == w.fontSize
  {
  }

  // ---------------------------------------------------------------- the drag report as written

  /** A number as a spread can leave it: a number, or `undefined` written over it. */
  datatype JsNumber = Number(value: real) | Undefined

  /** The `fontSize` key of the drag report as written: always present, `undefined` for
      an object without a (non-zero) font size. */
  function ReportedSizeAsWritten(o: CanvasObject): (r: JsNumber)
    ensures r.Undefined? <==> ReportedSize(o).None?
    ensures r.Number? ==> r.value == ReportedSize(o).value
  {
    match o.look
    case Label(_, _, fontSize, _, _) =>
      if fontSize == 0.0 then Undefined
      else Number(fontSize * (if o.scaleX == 0.0 then 1.0 else o.scaleX))
    case Picture(_) => Undefined
  }

  /** The stored `fontSize` after `{ ...w, ...report }` with the report as written: a key
      that is present overwrites, even when its value is `undefined`. */
  function MergedSizeAsWritten(w: WatermarkSettings, o: CanvasObject): (r: JsNumber)
    ensures ReportedSize(o).Some? ==> r == Number(Store.Merge(w, DragPatch(o, 1.0, 1.0)).fontSize)
  {
    ReportedSizeAsWritten(o)
  }

  /** As written, dragging an image watermark replaces its stored scale with `undefined`
      (the next rebuild and the export then scale it by NaN), although the corrected
      report keeps it. */
  lemma {:induction false} ImageDragLosesScaleAsWritten(w: WatermarkSettings, index: int, canvasW: Extent, canvasH: Extent)
    requires w.kind == Image && Compositor.HasSource(w)
    ensures MergedSizeAsWritten(w, Placed(w, index, canvasW, canvasH)) == Undefined
    ensures Store.Merge(w, DragPatch(Placed(w, index, canvasW, canvasH), canvasW, canvasH)).fontSize == w.fontSize
  {
    var o := Placed(w, index, canvasW, canvasH);
    assert o.look.Picture?;
  }

  /** The concrete case: the default watermark turned into an image watermark at 48%. */
  lemma DefaultImageDragExample()
    ensures
      var w := DefaultWatermark.(kind := Image, imageUrl := Some("blob:logo"));
      && MergedSizeAsWritten(w, Placed(w, 0, 800.0, 600.0)) == Undefined
      && w.fontSize == 48.0
  {
    var w := DefaultWatermark.(kind := Image, imageUrl := Some("blob:logo"));
    ImageDragLosesScaleAsWritten(w, 0, 800.0, 600.0);
  }

  // ---------------------------------------------------------------- the registry

  /** Every object the rebuild leaves on the canvas names an entry of the list it was
      built from, so a selection reported from it keeps the editor's selection valid. */
  lemma {:induction false} SelectionNamesAnEntry(s: Store.EditorState, loads: seq<bool>, canvasW: Extent, canvasH: Extent,
                                                 o: CanvasObject)
    requires Store.Valid(s) && |loads| == |Store.CurrentWatermarks(s)|
    requires Store.CurrentImage(s).Some?
    requires
      var ws := Store.CurrentWatermarks(s);
      o in TextLayer(ws, |ws|, canvasW, canvasH) + ImageLayer(ws, loads, |ws|, canvasW, canvasH)
    ensures 0 <= o.watermarkIndex < |Store.CurrentWatermarks(s)|
    ensures Store.Valid(Store.Select(s, Some(o.watermarkIndex)))
  {
    var ws := Store.CurrentWatermarks(s);
    assert o in TextLayer(ws, |ws|, canvasW, canvasH) || o in ImageLayer(ws, loads, |ws|, canvasW, canvasH);
    TextLayerIsPlaced(ws, |ws|, canvasW, canvasH);
    ImageLayerIsPlaced(ws, loads, |ws|, canvasW, canvasH);
  }
}
