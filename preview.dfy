/** The sizes chosen before drawing: the preview image shown behind the canvas,
    and the canvas itself, whose raster becomes the mask. */
module Preview {
  import opened Raster

  /** `display_width`: the fixed width of the drawing canvas. */
  const DisplayWidth: nat := 800

  datatype Size = Size(w: nat, h: nat)

  /** `display_height` for an image wider than the canvas: the original height scaled
      by DisplayWidth / origW and truncated, in exact rational arithmetic. */
  function ScaledHeight(origW: nat, origH: nat): (h: nat)
    requires origW > DisplayWidth
    ensures h * origW <= origH * DisplayWidth < (h + 1) * origW
    ensures h <= origH && (origH > 0 ==> h < origH)
  {
    var q := (origH * DisplayWidth) / origW;
    assert q * origW <= origH * DisplayWidth < (q + 1) * origW;
    assert origH > 0 ==> q < origH by {
      if origH > 0 && q >= origH {
        MulLeq(origH, q, origW);
        MulLt(DisplayWidth, origW, origH);
      }
    }
    q
  }

  /** The size of the drawing canvas, and so of the mask raster: always DisplayWidth wide
      (the narrow-image branch leaves display_width at 800); the height is scaled only
      for images wider than the canvas. */
  function CanvasSize(origW: nat, origH: nat): (s: Size)
    ensures s.w == DisplayWidth
    ensures s.h <= origH
    ensures origW <= DisplayWidth ==> s.h == origH
    ensures origW > DisplayWidth ==> s.h * origW <= origH * DisplayWidth < (s.h + 1) * origW
  {
    if origW > DisplayWidth then Size(DisplayWidth, ScaledHeight(origW, origH))
    else Size(DisplayWidth, origH)
  }

  /** The size of the preview image drawn behind the canvas: the original when it is
      at most DisplayWidth wide, otherwise a copy shrunk to the canvas size. */
  function PreviewSize(origW: nat, origH: nat): (s: Size)
    ensures s.w <= DisplayWidth && s.w <= origW && s.h <= origH
    ensures origW <= DisplayWidth ==> s == Size(origW, origH)
    ensures origW > DisplayWidth ==> s == CanvasSize(origW, origH)
  {
    if origW > DisplayWidth then Size(DisplayWidth, ScaledHeight(origW, origH))
    else Size(origW, origH)
  }

  /** Only for images wider than the canvas does the canvas fit inside the original,
      so that resizing the mask back is an enlargement in both directions. */
  lemma {:induction false} CanvasFitsIffWide(origW: nat, origH: nat)
    ensures var s := CanvasSize(origW, origH);
      (s.w <= origW && s.h <= origH) <==> origW >= DisplayWidth
  {
  }
}
