/** The export renderer: one image at its native size, the base image first, then each
    watermark in list order inside its own save / translate / rotate / restore.
    Pixels are abstracted to the ordered list of draw commands the 2D context receives.
    Two variants exist: the fit variant inverts the preview's fit-to-viewport transform,
    the native variant takes the percentages of the native size directly. */
module Compositor {
  import opened Types
  import opened Geometry

  datatype TransformOp = Translate(dx: real, dy: real) | Rotate(degrees: real)

  /** What is drawn at the current origin. */
  datatype Shape =
    | BaseImage(width: real, height: real)
    | TextRun(text: string, size: real, family: string, color: string, align: Alignment)
    | Picture(url: string, left: real, top: real, width: real, height: real)

  /** One draw call together with the transform and alpha in force when it was made. */
  datatype DrawCommand = Draw(transform: seq<TransformOp>, alpha: real, shape: Shape)

  /** A finished, encoded output image. */
  datatype Raster = Raster(width: real, height: real, commands: seq<DrawCommand>)

  /** The part of the 2D context's state that save and restore keep. */
  datatype GState = GState(transform: seq<TransformOp>, alpha: real)

  const Identity: GState := GState([], 1.0)

  /** The 2D context of an export canvas. */
  class Context2D {
    const width: real
    const height: real
    var state: GState
    var saved: seq<GState>
    var commands: seq<DrawCommand>

    constructor (w: real, h: real)
      ensures width == w && height == h
      ensures state == Identity && saved == [] && commands == []
    {
      width, height := w, h;
      state, saved, commands := Identity, [], [];
    }

    method Save()
      modifies this
      ensures saved == old(saved) + [old(state)]
      ensures state == old(state) && commands == old(commands)
    {
      saved := saved + [state];
    }

    /** Restoring with nothing saved does nothing. */
    method Restore()
      modifies this
      ensures old(saved) == [] ==> saved == [] && state == old(state)
      ensures old(saved) != [] ==>
        state == old(saved)[|old(saved)| - 1] && saved == old(saved)[..|old(saved)| - 1]
      ensures commands == old(commands)
    {
      if saved != [] {
        state := saved[|saved| - 1];
        saved := saved[..|saved| - 1];
      }
    }

    /** Setting `globalAlpha` outside [0, 1] is ignored. */
    method SetGlobalAlpha(a: real)
      modifies this
      ensures state == if 0.0 <= a <= 1.0 then old(state).(alpha := a) else old(state)
      ensures saved == old(saved) && commands == old(commands)
    {
      if 0.0 <= a <= 1.0 {
        state := state.(alpha := a);
      }
    }

    method Transform(op: TransformOp)
      modifies this
      ensures state == old(state).(transform := old(state).transform + [op])
      ensures saved == old(saved) && commands == old(commands)
    {
      state := state.(transform := state.transform + [op]);
    }

    method DrawShape(shape: Shape)
      modifies this
      ensures commands == old(commands) + [Draw(old(state).transform, old(state).alpha, shape)]
      ensures state == old(state) && saved == old(saved)
    {
      commands := commands + [Draw(state.transform, state.alpha, shape)];
    }
  }

  datatype Variant = FitToPreview | NativePercent

  /** A decoded image's natural size. */
  datatype NativeSize = NativeSize(width: Dim, height: Dim)

  /** What the browser does for one image: whether its URL decodes (and to what size),
      whether a 2D context is obtained, and whether encoding to PNG succeeds. */
  datatype ImageEnv = ImageEnv(decoded: Option<NativeSize>, contextOk: bool, encodeOk: bool)

  datatype RenderError = LoadFailed | CanvasUnavailable | NoContext | EncodeFailed

  /** The preview geometry the fit variant replays: viewport and preview scale. */
  datatype Frame = Frame(viewW: Dim, viewH: Dim, scale: real)

  predicate ValidFrame(f: Frame)
  {
    f.scale > 0.0
  }

  /** The frame of the fit variant, from the preview canvas's extents. */
  function FrameOf(canvasW: Extent, canvasH: Extent, img: NativeSize): (f: Frame)
    ensures ValidFrame(f)
    ensures img.width * f.scale <= Margin * f.viewW && img.height * f.scale <= Margin * f.viewH
  {
    Frame(OrElse(canvasW, DefaultViewWidth), OrElse(canvasH, DefaultViewHeight),
          PreviewScale(canvasW, canvasH, img.width, img.height))
  }

  /** The native pixel a watermark is anchored at. */
  function Anchor(v: Variant, f: Frame, img: NativeSize, w: WatermarkSettings): (p: (real, real))
    requires ValidFrame(f)
    ensures w.x == 50.0 && w.y == 50.0 ==> p == (img.width / 2.0, img.height / 2.0)
  {
    match v
    case FitToPreview => (ExportPointFit(w.x, f.viewW, f.scale, img.width), ExportPointFit(w.y, f.viewH, f.scale, img.height))
    case NativePercent => (ExportPointNative(w.x, img.width), ExportPointNative(w.y, img.height))
  }

  /** A preview size carried to the output: divided by the preview scale in the fit
      variant, unchanged in the native variant. */
  function OutputSize(v: Variant, f: Frame, size: real): (r: real)
    requires ValidFrame(f)
    ensures v == NativePercent ==> r == size
    ensures v == FitToPreview ==> r * f.scale == size
  {
    match v
    case FitToPreview => ExportSizeFit(size, f.scale)
    case NativePercent => size
  }

  /** `watermark.imageUrl` is truthy. */
  predicate HasSource(w: WatermarkSettings)
  {
    w.imageUrl.Some? && w.imageUrl.value != ""
  }

  /** What one watermark draws, if anything: text always; an image only when it has a
      source that decodes (`overlays` holds the natural size of every source that does),
      centred on the origin. */
  function ShapeOf(v: Variant, f: Frame, w: WatermarkSettings, overlays: map<string, NativeSize>): (r: Option<Shape>)
    requires ValidFrame(f)
    ensures w.kind == Text ==> r.Some? && r.value.TextRun? && r.value.size == OutputSize(v, f, w.fontSize)
    ensures w.kind == Image ==> (r.Some? <==> HasSource(w) && w.imageUrl.value in overlays)
    ensures r.Some? && r.value.Picture? ==>
      r.value.left == -r.value.width / 2.0 && r.value.top == -r.value.height / 2.0
    ensures w.kind == Image && r.Some? ==>
      r.value == PictureOf(w.imageUrl.value, overlays[w.imageUrl.value], OutputSize(v, f, w.fontSize / 100.0))
  {
    if w.kind == Text then
      Some(TextRun(w.text, OutputSize(v, f, w.fontSize), w.fontFamily, w.color, w.alignment))
    else if HasSource(w) && w.imageUrl.value in overlays then
      Some(PictureOf(w.imageUrl.value, overlays[w.imageUrl.value], OutputSize(v, f, w.fontSize / 100.0)))
    else None
  }

  /** An overlay image of natural size `natural` drawn at `scale`, centred on the origin. */
  function PictureOf(url: string, natural: NativeSize, scale: real): (p: Shape)
    ensures p.Picture? && p.width == natural.width * scale && p.height == natural.height * scale
  {
    var wd, ht := natural.width * scale, natural.height * scale;
    Picture(url, -wd / 2.0, -ht / 2.0, wd, ht)
  }

  /** The alpha in force after `globalAlpha = opacity` on a context at full alpha. */
  function AlphaOf(opacity: real): (a: real)
    ensures 0.0 <= a <= 1.0
    ensures 0.0 <= opacity <= 1.0 ==> a == opacity
  {
    if 0.0 <= opacity <= 1.0 then opacity else 1.0
  }

  /** The draw commands one watermark contributes: none, or one draw under exactly its
      own translation and rotation, at its own alpha. */
  function CommandsOf(v: Variant, f: Frame, img: NativeSize, w: WatermarkSettings, overlays: map<string, NativeSize>)
    : (cs: seq<DrawCommand>)
    requires ValidFrame(f)
    ensures |cs| == (if ShapeOf(v, f, w, overlays).Some? then 1 else 0)
  {
    var a := Anchor(v, f, img, w);
    match ShapeOf(v, f, w, overlays)
    case None => []
    case Some(shape) => [Draw([Translate(a.0, a.1), Rotate(w.rotation)], AlphaOf(w.opacity), shape)]
  }

  /** The draw commands the watermarks contribute, in list order. */
  function WatermarkCommands(v: Variant, f: Frame, img: NativeSize, ws: seq<WatermarkSettings>, overlays: map<string, NativeSize>)
    : (cs: seq<DrawCommand>)
    requires ValidFrame(f)
    ensures |cs| <= |ws|
    decreases |ws|
  {
    if ws == [] then []
    else WatermarkCommands(v, f, img, ws[..|ws| - 1], overlays) + CommandsOf(v, f, img, ws[|ws| - 1], overlays)
  }

  /** The output the renderer produces for one image, or the error that stops it. */
  function RenderSpec(v: Variant, preview: Option<(Extent, Extent)>, env: ImageEnv,
                      ws: seq<WatermarkSettings>, overlays: map<string, NativeSize>): Result<Raster, RenderError>
  {
    if env.decoded.None? then Failure(LoadFailed)
    else if v == FitToPreview && preview.None? then Failure(CanvasUnavailable)
    else if !env.contextOk then Failure(NoContext)
    else if !env.encodeOk then Failure(EncodeFailed)
    else
      var img := env.decoded.value;
      var f := if v == FitToPreview then FrameOf(preview.value.0, preview.value.1, img) else Frame(1.0, 1.0, 1.0);
      Success(Raster(img.width, img.height,
                     [Draw([], 1.0, BaseImage(img.width, img.height))] + WatermarkCommands(v, f, img, ws, overlays)))
  }

  /** `renderImageWithWatermarks`: allocates a canvas of the native size, draws the base
      image, then each watermark between a save and a restore. */
  method RenderImage(v: Variant, preview: Option<(Extent, Extent)>, env: ImageEnv,
                     ws: seq<WatermarkSettings>, overlays: map<string, NativeSize>)
    returns (r: Result<Raster, RenderError>)
    ensures r == RenderSpec(v, preview, env, ws, overlays)
  {
    if env.decoded.None? {
      return Failure(LoadFailed);
    }
    if v == FitToPreview && preview.None? {
      return Failure(CanvasUnavailable);
    }
    var img := env.decoded.value;
    var f := if v == FitToPreview then FrameOf(preview.value.0, preview.value.1, img) else Frame(1.0, 1.0, 1.0);
    var ctx := new Context2D(img.width, img.height);
    if !env.contextOk {
      return Failure(NoContext);
    }
    ctx.DrawShape(BaseImage(img.width, img.height));
    for i := 0 to |ws|
      invariant ctx.state == Identity && ctx.saved == []
      invariant ctx.commands == [Draw([], 1.0, BaseImage(img.width, img.height))] + WatermarkCommands(v, f, img, ws[..i], overlays)
    {
      DrawWatermark(ctx, v, f, img, ws[i], overlays);
      assert ws[..i + 1] == ws[..i] + [ws[i]];
      CommandsAppend(v, f, img, ws[..i], [ws[i]], overlays);
      AppendAssoc([Draw([], 1.0, BaseImage(img.width, img.height))], WatermarkCommands(v, f, img, ws[..i], overlays),
                  WatermarkCommands(v, f, img, [ws[i]], overlays));
    }
    assert ws[..|ws|] == ws;
    if !env.encodeOk {
      return Failure(EncodeFailed);
    }
    r := Success(Raster(ctx.width, ctx.height, ctx.commands));
  }

  /** One pass of the draw loop: save, set alpha, translate to the anchor, rotate, draw
      the shape (if any), restore. The context is back in its initial state afterwards. */
  method DrawWatermark(ctx: Context2D, v: Variant, f: Frame, img: NativeSize, w: WatermarkSettings,
                       overlays: map<string, NativeSize>)
    requires ValidFrame(f) && ctx.state == Identity && ctx.saved == []
    modifies ctx
    ensures ctx.state == Identity && ctx.saved == []
    ensures ctx.commands == old(ctx.commands) + WatermarkCommands(v, f, img, [w], overlays)
  {
    var a := Anchor(v, f, img, w);
    ctx.Save();
    ctx.SetGlobalAlpha(w.opacity);
    ctx.Transform(Translate(a.0, a.1));
    ctx.Transform(Rotate(w.rotation));
    assert ctx.state == GState([Translate(a.0, a.1), Rotate(w.rotation)], AlphaOf(w.opacity));
    var shape := ShapeOf(v, f, w, overlays);
    if shape.Some? {
      ctx.DrawShape(shape.value);
    }
    ctx.Restore();
    DrawnCommands(v, f, img, w, overlays, shape);
  }

  /** The commands of a watermark that draws `shape`: one draw under its own translation
      and rotation, at its own alpha, or none. */
  lemma DrawnCommands(v: Variant, f: Frame, img: NativeSize, w: WatermarkSettings,
                      overlays: map<string, NativeSize>, shape: Option<Shape>)
    requires ValidFrame(f) && ShapeOf(v, f, w, overlays) == shape
    ensures WatermarkCommands(v, f, img, [w], overlays)
         == if shape.Some? then [Draw([Translate(Anchor(v, f, img, w).0, Anchor(v, f, img, w).1), Rotate(w.rotation)], AlphaOf(w.opacity), shape.value)] else []
  {
    assert [w][..0] == [];
  }

  // ---------------------------------------------------------------- properties

  /** A watermark's commands depend on that watermark alone: rendering a concatenation
      is concatenating the renders, so no transform carries from one to the next. */
  lemma {:induction false} CommandsAppend(v: Variant, f: Frame, img: NativeSize, a: seq<WatermarkSettings>,
                                          b: seq<WatermarkSettings>, overlays: map<string, NativeSize>)
    requires ValidFrame(f)
    ensures WatermarkCommands(v, f, img, a + b, overlays)
         == WatermarkCommands(v, f, img, a, overlays) + WatermarkCommands(v, f, img, b, overlays)
    decreases |b|
  {
    if b == [] {
      assert a + b == a;
    } else {
      var b', last := b[..|b| - 1], b[|b| - 1];
      assert (a + b)[..|a + b| - 1] == a + b';
      assert (a + b)[|a + b| - 1] == last;
      calc {
        WatermarkCommands(v, f, img, a + b, overlays);
        WatermarkCommands(v, f, img, a + b', overlays) + CommandsOf(v, f, img, last, overlays);
        { CommandsAppend(v, f, img, a, b', overlays); }
        (WatermarkCommands(v, f, img, a, overlays) + WatermarkCommands(v, f, img, b', overlays))
          + CommandsOf(v, f, img, last, overlays);
        { AppendAssoc(WatermarkCommands(v, f, img, a, overlays), WatermarkCommands(v, f, img, b', overlays),
                      CommandsOf(v, f, img, last, overlays)); }
        WatermarkCommands(v, f, img, a, overlays) + WatermarkCommands(v, f, img, b, overlays);
      }
    }
  }

  /** The watermarks that draw something. */
  function Drawable(v: Variant, f: Frame, ws: seq<WatermarkSettings>, overlays: map<string, NativeSize>): seq<WatermarkSettings>
    requires ValidFrame(f)
    decreases |ws|
  {
    if ws == [] then []
    else Drawable(v, f, ws[..|ws| - 1], overlays) + (if ShapeOf(v, f, ws[|ws| - 1], overlays).Some? then [ws[|ws| - 1]] else [])
  }

  /** Every command is drawn under exactly the translation to its own watermark's anchor
      and that watermark's rotation, at that watermark's alpha, never under a transform
      left by an earlier watermark: command `k` belongs to the `k`-th watermark that
      draws something. */
  lemma {:induction false} CommandsAreIsolated(v: Variant, f: Frame, img: NativeSize, ws: seq<WatermarkSettings>,
                                               overlays: map<string, NativeSize>)
    requires ValidFrame(f)
    ensures forall c :: c in WatermarkCommands(v, f, img, ws, overlays) ==>
      |c.transform| == 2 && c.transform[0].Translate? && c.transform[1].Rotate? && 0.0 <= c.alpha <= 1.0
    ensures
      var cs, ds := WatermarkCommands(v, f, img, ws, overlays), Drawable(v, f, ws, overlays);
      && |cs| == |ds|
      && forall k :: 0 <= k < |ds| ==>
           && ShapeOf(v, f, ds[k], overlays) == Some(cs[k].shape)
           && cs[k].transform == [Translate(Anchor(v, f, img, ds[k]).0, Anchor(v, f, img, ds[k]).1), Rotate(ds[k].rotation)]
           && cs[k].alpha == AlphaOf(ds[k].opacity)
    decreases |ws|
  {
    if ws != [] {
      var ws', last := ws[..|ws| - 1], ws[|ws| - 1];
      CommandsAreIsolated(v, f, img, ws', overlays);
      var cs', ds' := WatermarkCommands(v, f, img, ws', overlays), Drawable(v, f, ws', overlays);
      var cs, ds := WatermarkCommands(v, f, img, ws, overlays), Drawable(v, f, ws, overlays);
      assert cs == cs' + CommandsOf(v, f, img, last, overlays);
      forall k | 0 <= k < |ds|
        ensures ShapeOf(v, f, ds[k], overlays) == Some(cs[k].shape)
        ensures cs[k].transform == [Translate(Anchor(v, f, img, ds[k]).0, Anchor(v, f, img, ds[k]).1), Rotate(ds[k].rotation)]
        ensures cs[k].alpha == AlphaOf(ds[k].opacity)
      {
        if k < |ds'| {
          assert ds[k] == ds'[k] && cs[k] == cs'[k];
        } else {
          assert ds[k] == last && cs[k] == CommandsOf(v, f, img, last, overlays)[0];
        }
      }
    }
  }

  /** One command per drawable watermark; an undecodable or missing image source draws
      nothing and removing that watermark changes nothing. */
  lemma {:induction false} OneCommandPerDrawable(v: Variant, f: Frame, img: NativeSize, ws: seq<WatermarkSettings>,
                                                 overlays: map<string, NativeSize>)
    requires ValidFrame(f)
    ensures |WatermarkCommands(v, f, img, ws, overlays)| == |Drawable(v, f, ws, overlays)|
    decreases |ws|
  {
    if ws != [] {
      OneCommandPerDrawable(v, f, img, ws[..|ws| - 1], overlays);
    }
  }

  /** An image watermark without a decoded source contributes no command. */
  lemma SkippedDrawsNothing(v: Variant, f: Frame, img: NativeSize, w: WatermarkSettings, overlays: map<string, NativeSize>)
    requires ValidFrame(f)
    requires w.kind == Image && !(HasSource(w) && w.imageUrl.value in overlays)
    ensures WatermarkCommands(v, f, img, [w], overlays) == []
  {
    assert [w][..0] == [];
  }

  lemma SkippedWatermarkDrawsNothing(v: Variant, f: Frame, img: NativeSize, a: seq<WatermarkSettings>,
                                     w: WatermarkSettings, b: seq<WatermarkSettings>, overlays: map<string, NativeSize>)
    requires ValidFrame(f)
    requires w.kind == Image && !(HasSource(w) && w.imageUrl.value in overlays)
    ensures WatermarkCommands(v, f, img, a + [w] + b, overlays) == WatermarkCommands(v, f, img, a + b, overlays)
  {
    SkippedDrawsNothing(v, f, img, w, overlays);
    SilentWatermarkRemovable(v, f, img, a, w, b, overlays);
  }

  /** A watermark that contributes no command can be removed from any list. */
  lemma SilentWatermarkRemovable(v: Variant, f: Frame, img: NativeSize, a: seq<WatermarkSettings>,
                                 w: WatermarkSettings, b: seq<WatermarkSettings>, overlays: map<string, NativeSize>)
    requires ValidFrame(f) && WatermarkCommands(v, f, img, [w], overlays) == []
    ensures WatermarkCommands(v, f, img, a + [w] + b, overlays) == WatermarkCommands(v, f, img, a + b, overlays)
  {
    var before, after := WatermarkCommands(v, f, img, a, overlays), WatermarkCommands(v, f, img, b, overlays);
    CommandsAppend(v, f, img, a + [w], b, overlays);
    CommandsAppend(v, f, img, a, [w], overlays);
    assert WatermarkCommands(v, f, img, a + [w], overlays) == before + [] == before;
    CommandsAppend(v, f, img, a, b, overlays);
  }

  /** A successful render is the native size, starts with the base image drawn untransformed
      at full alpha, and holds one command per drawable watermark after it; without
      watermarks the output is the base image alone. */
  lemma {:induction false} RenderShapeOfOutput(v: Variant, preview: Option<(Extent, Extent)>, env: ImageEnv,
                                               ws: seq<WatermarkSettings>, overlays: map<string, NativeSize>)
    ensures RenderSpec(v, preview, env, ws, overlays).Success? <==>
      env.decoded.Some? && env.contextOk && env.encodeOk && (v == FitToPreview ==> preview.Some?)
    ensures RenderSpec(v, preview, env, ws, overlays).Success? ==>
      var r := RenderSpec(v, preview, env, ws, overlays).value;
      && r.width == env.decoded.value.width && r.height == env.decoded.value.height
      && |r.commands| >= 1
      && r.commands[0] == Draw([], 1.0, BaseImage(r.width, r.height))
      && (forall c :: c in r.commands[1..] ==> |c.transform| == 2)
      && (ws == [] ==> r.commands == [Draw([], 1.0, BaseImage(r.width, r.height))])
  {
    var res := RenderSpec(v, preview, env, ws, overlays);
    if res.Success? {
      var img := env.decoded.value;
      var f := if v == FitToPreview then FrameOf(preview.value.0, preview.value.1, img) else Frame(1.0, 1.0, 1.0);
      CommandsAreIsolated(v, f, img, ws, overlays);
      assert res.value.commands[1..] == WatermarkCommands(v, f, img, ws, overlays);
    }
  }

  /** In the fit variant a text watermark at (50, 50) is drawn at the native centre with
      its font size divided by the preview scale; in the native variant at the same
      centre with its font size unchanged. */
  lemma CentredTextLandsOnCentre(v: Variant, f: Frame, img: NativeSize, w: WatermarkSettings, overlays: map<string, NativeSize>)
    requires ValidFrame(f) && w.kind == Text && w.x == 50.0 && w.y == 50.0 && 0.0 <= w.opacity <= 1.0
    ensures WatermarkCommands(v, f, img, [w], overlays) ==
      [Draw([Translate(img.width / 2.0, img.height / 2.0), Rotate(w.rotation)], w.opacity,
            TextRun(w.text, OutputSize(v, f, w.fontSize), w.fontFamily, w.color, w.alignment))]
  {
    assert [w][..0] == [];
  }
}
