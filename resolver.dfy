/** The mask resolver: the canvas raster is cast to bytes, resized to the original
    size, classified by colour, and written into the alpha channel of a copy of the
    original image — removal (red) first, then restoration (green), which wins. */
module Resolver {
  import opened Raster
  import opened Nearest
  import opened Preview

  /** `is_red`: red channel set and green channel clear — marked for removal. */
  predicate IsRemoval(m: Pixel) {
    m.r > 0 && m.g == 0
  }

  /** `is_green`: green channel set, whatever the red channel — marked for restoration. */
  predicate IsRestoration(m: Pixel) {
    m.g > 0
  }

  /** No mask pixel is both marked for removal and for restoration. */
  lemma ClassesDisjoint(m: Pixel)
    ensures !(IsRemoval(m) && IsRestoration(m))
  {
  }

  /** The final value of one pixel of the image under one pixel of the resized mask:
      the removal assignment followed by the restoration assignment. */
  function Composite(src: Pixel, m: Pixel): (p: Pixel)
    ensures p.r == src.r && p.g == src.g && p.b == src.b
    ensures IsRemoval(m) ==> p.a == 0
    ensures IsRestoration(m) ==> p.a == 255
    ensures !IsRemoval(m) && !IsRestoration(m) ==> p.a == src.a
  {
    var removed := if IsRemoval(m) then src.(a := 0) else src;
    if IsRestoration(m) then removed.(a := 255) else removed
  }

  /** Because the two classes are disjoint, applying restoration before removal
      gives the same pixel as the source's order. */
  lemma CompositeOrderIrrelevant(src: Pixel, m: Pixel)
    ensures Composite(src, m) ==
      var restored := if IsRestoration(m) then src.(a := 255) else src;
      if IsRemoval(m) then restored.(a := 0) else restored
  {
  }

  /** Compositing an already composited pixel under the same mask pixel changes nothing. */
  lemma CompositeIdempotent(src: Pixel, m: Pixel)
    ensures Composite(Composite(src, m), m) == Composite(src, m)
  {
  }

  /** The whole image composited under the resized mask, pixel by pixel. */
  function Composited(src: seq<seq<Pixel>>, mask: seq<seq<Pixel>>, W: nat, H: nat): (r: seq<seq<Pixel>>)
    requires IsGrid(src, W, H) && IsGrid(mask, W, H)
    ensures IsGrid(r, W, H)
    ensures forall y, x :: 0 <= y < H && 0 <= x < W ==> r[y][x] == Composite(src[y][x], mask[y][x])
  {
    seq(H, y requires 0 <= y < H =>
      seq(W, x requires 0 <= x < W => Composite(src[y][x], mask[y][x])))
  }

  /** A mask with no red and no green anywhere leaves the image as it was. */
  lemma {:induction false} EmptyMaskIsIdentity(src: seq<seq<Pixel>>, mask: seq<seq<Pixel>>, W: nat, H: nat)
    requires IsGrid(src, W, H) && IsGrid(mask, W, H)
    requires forall y, x :: 0 <= y < H && 0 <= x < W ==> mask[y][x].r == 0 && mask[y][x].g == 0
    ensures Composited(src, mask, W, H) == src
  {
    var r := Composited(src, mask, W, H);
    forall y | 0 <= y < H ensures r[y] == src[y] {
      assert |r[y]| == |src[y]|;
      forall x | 0 <= x < W ensures r[y][x] == src[y][x] {
        assert !IsRemoval(mask[y][x]) && !IsRestoration(mask[y][x]);
      }
    }
  }

  /** Resolving the resolved image again under the same mask gives the same image. */
  lemma {:induction false} CompositedIdempotent(src: seq<seq<Pixel>>, mask: seq<seq<Pixel>>, W: nat, H: nat)
    requires IsGrid(src, W, H) && IsGrid(mask, W, H)
    ensures Composited(Composited(src, mask, W, H), mask, W, H) == Composited(src, mask, W, H)
  {
    var r := Composited(src, mask, W, H);
    var rr := Composited(r, mask, W, H);
    forall y | 0 <= y < H ensures rr[y] == r[y] {
      assert |rr[y]| == |r[y]|;
      forall x | 0 <= x < W ensures rr[y][x] == r[y][x] {
        CompositeIdempotent(src[y][x], mask[y][x]);
      }
    }
  }

  /** The resized mask the resolver classifies: the canvas raster cast to bytes and
      resized from `w` x `h` to the original `W` x `H`. */
  function FullMask(canvas: seq<seq<RawPixel>>, w: nat, h: nat, W: nat, H: nat): (full: seq<seq<Pixel>>)
    requires IsGrid(canvas, w, h)
    requires W > 0 && H > 0 ==> w > 0 && h > 0
    ensures IsGrid(full, W, H)
  {
    Upscale(CastRaster(canvas), w, h, W, H)
  }

  /** Every pixel of the resized mask is the cast of some pixel of the canvas raster. */
  lemma {:induction false} FullMaskFromCanvas(canvas: seq<seq<RawPixel>>, w: nat, h: nat, W: nat, H: nat, y: nat, x: nat)
    returns (sy: nat, sx: nat)
    requires IsGrid(canvas, w, h)
    requires W > 0 && H > 0 ==> w > 0 && h > 0
    requires y < H && x < W
    ensures sy < h && sx < w && FullMask(canvas, w, h, W, H)[y][x] == CastPixel(canvas[sy][sx])
  {
    sy, sx := NearestIndex(y, h, H), NearestIndex(x, w, W);
    assert CastRaster(canvas)[sy][sx] == CastPixel(canvas[sy][sx]);
  }

  /** `is_red` as a boolean array over the resized mask. */
  function RemovalSelection(full: seq<seq<Pixel>>, W: nat, H: nat): (sel: seq<seq<bool>>)
    requires IsGrid(full, W, H)
    ensures IsGrid(sel, W, H)
    ensures forall y, x :: 0 <= y < H && 0 <= x < W ==> (sel[y][x] <==> full[y][x].r > 0 && full[y][x].g == 0)
  {
    seq(H, y requires 0 <= y < H => seq(W, x requires 0 <= x < W => IsRemoval(full[y][x])))
  }

  /** `is_green` as a boolean array over the resized mask. */
  function RestorationSelection(full: seq<seq<Pixel>>, W: nat, H: nat): (sel: seq<seq<bool>>)
    requires IsGrid(full, W, H)
    ensures IsGrid(sel, W, H)
    ensures forall y, x :: 0 <= y < H && 0 <= x < W ==> (sel[y][x] <==> full[y][x].g > 0)
  {
    seq(H, y requires 0 <= y < H => seq(W, x requires 0 <= x < W => IsRestoration(full[y][x])))
  }

  /** `np.array(original_image)`: a fresh mutable copy of the original pixels. */
  method CopyToArray(src: seq<seq<Pixel>>, W: nat, H: nat) returns (img: array2<Pixel>)
    requires IsGrid(src, W, H)
    ensures fresh(img)
    ensures img.Length0 == H && img.Length1 == W
    ensures forall y, x :: 0 <= y < H && 0 <= x < W ==> img[y, x] == src[y][x]
  {
    img := new Pixel[H, W]((y, x) requires 0 <= y < H && 0 <= x < W => src[y][x]);
  }

  /** `img_array[sel, 3] = alpha`: the alpha channel of every selected pixel becomes
      `alpha`; every other channel and every unselected pixel keeps its value. */
  method SetAlphaWhere(img: array2<Pixel>, sel: seq<seq<bool>>, alpha: Byte)
    requires IsGrid(sel, img.Length1, img.Length0)
    modifies img
    ensures forall y, x :: 0 <= y < img.Length0 && 0 <= x < img.Length1 ==>
      img[y, x] == if sel[y][x] then old(img[y, x]).(a := alpha) else old(img[y, x])
  {
    var y := 0;
    while y < img.Length0
      invariant 0 <= y <= img.Length0
      invariant forall i, j :: 0 <= i < y && 0 <= j < img.Length1 ==>
        img[i, j] == if sel[i][j] then old(img[i, j]).(a := alpha) else old(img[i, j])
      invariant forall i, j :: y <= i < img.Length0 && 0 <= j < img.Length1 ==> img[i, j] == old(img[i, j])
    {
      var x := 0;
      while x < img.Length1
        invariant 0 <= x <= img.Length1
        invariant forall i, j :: 0 <= i < y && 0 <= j < img.Length1 ==>
          img[i, j] == if sel[i][j] then old(img[i, j]).(a := alpha) else old(img[i, j])
        invariant forall j :: 0 <= j < x ==>
          img[y, j] == if sel[y][j] then old(img[y, j]).(a := alpha) else old(img[y, j])
        invariant forall j :: x <= j < img.Length1 ==> img[y, j] == old(img[y, j])
        invariant forall i, j :: y < i < img.Length0 && 0 <= j < img.Length1 ==> img[i, j] == old(img[i, j])
      {
        if sel[y][x] {
          img[y, x] := img[y, x].(a := alpha);
        }
        x := x + 1;
      }
      y := y + 1;
    }
  }

  /** The resolve pass: the final image is the original composited under the resized
      canvas raster, in a new array; the original is left as it was. */
  method Resolve(src: seq<seq<Pixel>>, W: nat, H: nat, canvas: seq<seq<RawPixel>>, w: nat, h: nat)
    returns (img: array2<Pixel>)
    requires IsGrid(src, W, H) && IsGrid(canvas, w, h)
    requires W > 0 && H > 0 ==> w > 0 && h > 0
    ensures fresh(img)
    ensures img.Length0 == H && img.Length1 == W
    ensures forall y, x :: 0 <= y < H && 0 <= x < W ==>
      img[y, x] == Composited(src, FullMask(canvas, w, h, W, H), W, H)[y][x]
  {
    var full := FullMask(canvas, w, h, W, H);
    img := CopyToArray(src, W, H);
    var isRed := RemovalSelection(full, W, H);
    SetAlphaWhere(img, isRed, 0);
    var isGreen := RestorationSelection(full, W, H);
    SetAlphaWhere(img, isGreen, 255);
  }

  /** For an image at least as large as the canvas, every mark on the canvas reaches
      the final image where it was drawn: the returned output pixel samples canvas
      pixel (cx, cy), and it ends fully transparent under a removal mark and fully
      opaque under a restoration mark. */
  lemma {:induction false} CanvasMarksSurvive(src: seq<seq<Pixel>>, W: nat, H: nat,
                                              canvas: seq<seq<RawPixel>>, w: nat, h: nat, cy: nat, cx: nat)
    returns (y: nat, x: nat)
    requires IsGrid(src, W, H) && IsGrid(canvas, w, h)
    requires 0 < w <= W && 0 < h <= H
    requires cy < h && cx < w
    ensures y < H && x < W && NearestIndex(y, h, H) == cy && NearestIndex(x, w, W) == cx
    ensures var r := Composited(src, FullMask(canvas, w, h, W, H), W, H);
      (IsRemoval(CastPixel(canvas[cy][cx])) ==> r[y][x].a == 0) &&
      (IsRestoration(CastPixel(canvas[cy][cx])) ==> r[y][x].a == 255)
  {
    y := NearestCovers(cy, h, H);
    x := NearestCovers(cx, w, W);
    var full := FullMask(canvas, w, h, W, H);
    assert full[y][x] == CastRaster(canvas)[cy][cx] == CastPixel(canvas[cy][cx]);
  }

  /** On a fully opaque original, a pixel ends fully transparent exactly where the
      resized mask marks it for removal, and stays fully opaque everywhere else. */
  lemma {:induction false} OpaqueSourceAlpha(src: seq<seq<Pixel>>, mask: seq<seq<Pixel>>, W: nat, H: nat, y: nat, x: nat)
    requires IsGrid(src, W, H) && IsGrid(mask, W, H)
    requires forall i, j :: 0 <= i < H && 0 <= j < W ==> src[i][j].a == 255
    requires y < H && x < W
    ensures var p := Composited(src, mask, W, H)[y][x];
      (p.a == 0 <==> IsRemoval(mask[y][x])) && (p.a == 255 <==> !IsRemoval(mask[y][x]))
  {
    var p := Composited(src, mask, W, H)[y][x];
    assert p == Composite(src[y][x], mask[y][x]);
    ClassesDisjoint(mask[y][x]);
  }

  /** For an image wider than the canvas, the canvas chosen for it fits inside the
      image, so every mark drawn on it reaches the final image at the output pixel
      that samples the mark's canvas position. */
  lemma {:induction false} WideImageKeepsMarks(src: seq<seq<Pixel>>, W: nat, H: nat,
                                               canvas: seq<seq<RawPixel>>, cy: nat, cx: nat)
    returns (y: nat, x: nat)
    requires W > DisplayWidth
    requires var c := CanvasSize(W, H); IsGrid(src, W, H) && IsGrid(canvas, c.w, c.h)
    requires cy < CanvasSize(W, H).h && cx < DisplayWidth
    ensures var c := CanvasSize(W, H);
      y < H && x < W && NearestIndex(y, c.h, H) == cy && NearestIndex(x, c.w, W) == cx
    ensures var c := CanvasSize(W, H);
      var r := Composited(src, FullMask(canvas, c.w, c.h, W, H), W, H);
      (IsRemoval(CastPixel(canvas[cy][cx])) ==> r[y][x].a == 0) &&
      (IsRestoration(CastPixel(canvas[cy][cx])) ==> r[y][x].a == 255)
  {
    var c := CanvasSize(W, H);
    y, x := CanvasMarksSurvive(src, W, H, canvas, c.w, c.h, cy, cx);
  }

  /** For an image at most half as wide as the canvas, the canvas's first column never
      reaches the final image: canvases that differ only there resolve alike. */
  lemma {:induction false} NarrowImageIgnoresFirstColumn(src: seq<seq<Pixel>>, W: nat, H: nat,
                                                         c1: seq<seq<RawPixel>>, c2: seq<seq<RawPixel>>)
    requires 2 * W <= DisplayWidth && H > 0
    requires IsGrid(src, W, H) && IsGrid(c1, DisplayWidth, H) && IsGrid(c2, DisplayWidth, H)
    requires forall y, x :: 0 <= y < H && 1 <= x < DisplayWidth ==> c1[y][x] == c2[y][x]
    ensures CanvasSize(W, H) == Size(DisplayWidth, H)
    ensures Composited(src, FullMask(c1, DisplayWidth, H, W, H), W, H) ==
            Composited(src, FullMask(c2, DisplayWidth, H, W, H), W, H)
  {
    var m1, m2 := CastRaster(c1), CastRaster(c2);
    forall y, x | 0 <= y < H && 1 <= x < DisplayWidth ensures m1[y][x] == m2[y][x] {
      assert m1[y][x] == CastPixel(c1[y][x]);
      assert m2[y][x] == CastPixel(c2[y][x]);
    }
    UpscaleIgnoresFirstColumn(m1, m2, DisplayWidth, H, W, H);
  }
}
