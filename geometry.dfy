/** The coordinate engine: the fit-to-viewport scale of the preview, the placement of a
    watermark from its percentages, the drag-end inverse, and the two export-time maps
    into native pixels (one per editor variant). All arithmetic is exact over `real`. */
module Geometry {

  /** A decoded image's native width or height. */
  type Dim = r: real | r > 0.0 witness 1.0

  /** A canvas width or height as the canvas library reports it (0 when unset). */
  type Extent = r: real | r >= 0.0 witness 0.0

  /** The share of the viewport the fitted image may use on each axis. */
  const Margin: real := 0.9

  const DefaultViewWidth: real := 800.0
  const DefaultViewHeight: real := 600.0

  /** `v || fallback` on a number: a zero extent falls back. */
  function OrElse(v: Extent, fallback: Dim): (r: Dim)
    ensures v > 0.0 ==> r == v
    ensures v == 0.0 ==> r == fallback
  {
    if v == 0.0 then fallback else v
  }

  function Min(a: real, b: real): (m: real)
    ensures m <= a && m <= b && (m == a || m == b)
  {
    if a <= b then a else b
  }

  /** The uniform scale that fits an image of `imgW` x `imgH` into 90% of a
      `viewW` x `viewH` viewport: the largest scale that overflows neither axis. */
  function Fit(viewW: Dim, viewH: Dim, imgW: Dim, imgH: Dim): (s: real)
    ensures s > 0.0
    ensures imgW * s <= Margin * viewW && imgH * s <= Margin * viewH
    ensures imgW * s == Margin * viewW || imgH * s == Margin * viewH
  {
    var sw, sh := Margin * viewW / imgW, Margin * viewH / imgH;
    assert imgW * sw == Margin * viewW && imgH * sh == Margin * viewH;
    MulMono(imgW, Min(sw, sh), sw);
    MulMono(imgH, Min(sw, sh), sh);
    Min(sw, sh)
  }

  lemma MulMono(k: real, a: real, b: real)
    requires k > 0.0 && a <= b
    ensures k * a <= k * b
  {
  }

  /** No larger scale keeps both axes inside the margin: `Fit` is the maximum. */
  lemma {:induction false} FitIsLargest(viewW: Dim, viewH: Dim, imgW: Dim, imgH: Dim, t: real)
    requires imgW * t <= Margin * viewW && imgH * t <= Margin * viewH
    ensures t <= Fit(viewW, viewH, imgW, imgH)
  {
    var s := Fit(viewW, viewH, imgW, imgH);
    if imgW * s == Margin * viewW {
      ScaleLe(imgW, t, s);
    } else {
      ScaleLe(imgH, t, s);
    }
  }

  lemma ScaleLe(k: real, t: real, s: real)
    requires k > 0.0 && k * t <= k * s
    ensures t <= s
  {
    if t > s {
      MulMono(k, s, t);
    }
  }

  /** The scale the export of the fit variant recomputes from the preview canvas
      (a zero extent falls back to 800 x 600). */
  function PreviewScale(canvasW: Extent, canvasH: Extent, imgW: Dim, imgH: Dim): (s: real)
    ensures s > 0.0
    ensures imgW * s <= Margin * OrElse(canvasW, DefaultViewWidth)
    ensures imgH * s <= Margin * OrElse(canvasH, DefaultViewHeight)
  {
    Fit(OrElse(canvasW, DefaultViewWidth), OrElse(canvasH, DefaultViewHeight), imgW, imgH)
  }

  /** The scale of the preview's background image: the viewport falls back to
      800 x 600 and a zero image extent to 1. */
  function BackgroundScale(canvasW: Extent, canvasH: Extent, imgW: Extent, imgH: Extent): (s: real)
    ensures s > 0.0
  {
    Fit(OrElse(canvasW, DefaultViewWidth), OrElse(canvasH, DefaultViewHeight),
        OrElse(imgW, 1.0), OrElse(imgH, 1.0))
  }

  /** The preview and the export derive the same scale for every decoded image. */
  lemma BackgroundMatchesPreviewScale(canvasW: Extent, canvasH: Extent, imgW: Dim, imgH: Dim)
    ensures BackgroundScale(canvasW, canvasH, imgW, imgH) == PreviewScale(canvasW, canvasH, imgW, imgH)
  {
  }

  /** A percentage of an extent, in pixels. */
  function PercentToPixel(p: real, extent: real): (px: real)
    ensures p == 50.0 ==> px == extent / 2.0
    ensures p == 0.0 ==> px == 0.0
    ensures p == 100.0 ==> px == extent
  {
    p / 100.0 * extent
  }

  /** A pixel position as a percentage of an extent (the drag-end inverse). */
  function PixelToPercent(px: real, extent: real): (p: real)
    requires extent != 0.0
    ensures PercentToPixel(p, extent) == px
  {
    px / extent * 100.0
  }

  /** Placement followed by the drag-end inverse gives back the percentage. */
  lemma PercentRoundTrip(p: real, extent: real)
    requires extent != 0.0
    ensures PixelToPercent(PercentToPixel(p, extent), extent) == p
  {
    var px := PercentToPixel(p, extent);
    assert px / extent == p / 100.0;
  }

  /** Where the fitted background shows native pixel `n` of an axis: the image is
      scaled by `s` and centred on the viewport's centre. */
  function NativeToPreview(n: real, view: real, s: real, img: real): (px: real)
    ensures n == img / 2.0 ==> px == view / 2.0
  {
    view / 2.0 + (n - img / 2.0) * s
  }

  /** The fit variant's export map of one axis: the viewport pixel of the percentage,
      taken relative to the viewport centre, divided by the preview scale and moved to
      the native image's centre. */
  function ExportPointFit(p: real, view: real, s: real, img: real): (n: real)
    requires s != 0.0
    ensures p == 50.0 ==> n == img / 2.0
    ensures NativeToPreview(n, view, s, img) == PercentToPixel(p, view)
  {
    var rel := PercentToPixel(p, view) - view / 2.0;
    assert rel * (1.0 / s) * s == rel;
    rel * (1.0 / s) + img / 2.0
  }

  /** The export map is the inverse of the preview's display of native pixels:
      a native pixel shown in the preview maps back to itself. */
  lemma ExportInvertsPreview(n: real, view: real, s: real, img: real)
    requires s != 0.0 && view != 0.0
    ensures ExportPointFit(PixelToPercent(NativeToPreview(n, view, s, img), view), view, s, img) == n
  {
    var px := NativeToPreview(n, view, s, img);
    var p := PixelToPercent(px, view);
    assert PercentToPixel(p, view) == px;
    var rel := px - view / 2.0;
    assert rel == (n - img / 2.0) * s;
    assert rel * (1.0 / s) == n - img / 2.0;
  }

  /** The ui variant's export map of one axis: a percentage of the native extent. */
  function ExportPointNative(p: real, img: real): (n: real)
    ensures p == 50.0 ==> n == img / 2.0
  {
    PercentToPixel(p, img)
  }

  /** A preview size (text pixels or image scale) carried to native pixels by the
      fit variant: it shows at its preview size once the preview scale is applied. */
  function ExportSizeFit(size: real, s: real): (r: real)
    requires s > 0.0
    ensures r * s == size
    ensures size > 0.0 ==> r > 0.0
  {
    assert size * (1.0 / s) * s == size;
    size * (1.0 / s)
  }

  /** The two variants agree on an axis exactly at the centre (50%), whenever the
      fitted image is narrower than the viewport, which the margin guarantees. */
  lemma {:induction false} AxisAgreesIffCentre(p: real, view: Dim, s: real, img: Dim)
    requires s > 0.0 && img * s < view
    ensures ExportPointFit(p, view, s, img) == ExportPointNative(p, img) <==> p == 50.0
  {
    var d := p / 100.0 - 0.5;
    var fit := ExportPointFit(p, view, s, img);
    var native := ExportPointNative(p, img);
    assert fit == d * view * (1.0 / s) + img / 2.0;
    assert native == d * img + img / 2.0;
    assert fit - native == d * (view * (1.0 / s) - img);
    assert view * (1.0 / s) > img by {
      assert view * (1.0 / s) * s == view;
      if view * (1.0 / s) <= img {
        MulMono(s, view * (1.0 / s), img);
      }
    }
    if fit == native {
      assert d * (view * (1.0 / s) - img) == 0.0;
      assert d == 0.0;
    }
  }

  /** The two export variants place a watermark at the same native pixel exactly when
      it sits at (50, 50), for every viewport and every decoded image. */
  lemma {:induction false} VariantsAgreeIffCentred(x: real, y: real, canvasW: Extent, canvasH: Extent, imgW: Dim, imgH: Dim)
    ensures
      var s := PreviewScale(canvasW, canvasH, imgW, imgH);
      var vw, vh := OrElse(canvasW, DefaultViewWidth), OrElse(canvasH, DefaultViewHeight);
      (ExportPointFit(x, vw, s, imgW) == ExportPointNative(x, imgW) &&
       ExportPointFit(y, vh, s, imgH) == ExportPointNative(y, imgH))
      <==> (x == 50.0 && y == 50.0)
  {
    var s := PreviewScale(canvasW, canvasH, imgW, imgH);
    var vw, vh := OrElse(canvasW, DefaultViewWidth), OrElse(canvasH, DefaultViewHeight);
    AxisAgreesIffCentre(x, vw, s, imgW);
    AxisAgreesIffCentre(y, vh, s, imgH);
  }

  /** The worked example: an 800 x 600 viewport and a 1600 x 1200 image give scale 0.45;
      the centre lands on native (800, 600) and a 48 px font becomes 48 / 0.45 px. */
  lemma WorkedExample()
    ensures PreviewScale(800.0, 600.0, 1600.0, 1200.0) == 0.45
    ensures ExportPointFit(50.0, 800.0, 0.45, 1600.0) == 800.0
    ensures ExportPointFit(50.0, 600.0, 0.45, 1200.0) == 600.0
    ensures ExportSizeFit(48.0, 0.45) == 48.0 / 0.45
    ensures ExportPointFit(0.0, 800.0, 0.45, 1600.0) != ExportPointNative(0.0, 1600.0)
  {
    assert 0.9 * 800.0 / 1600.0 == 0.45;
    assert 0.9 * 600.0 / 1200.0 == 0.45;
  }
}
