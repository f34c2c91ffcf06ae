# Mask resolver of the background-removal tool

The tool shows an uploaded image behind a drawing canvas. The user draws red
rectangles to mark regions for removal and green freehand strokes to mark regions for
restoration. The canvas raster is then resolved into the alpha channel of the
full-resolution image, and the result is offered as a PNG.

This project models that resolve step and the size choice that comes before it:

- `Raster` (raster.dfy): uint8 channels, RGBA pixels, rasters indexed `[row][column]` as
  numpy arrays are, and numpy's cast of the canvas data to `uint8`.
- `Preview` (preview.dfy): the canvas size and the preview-image size chosen from
  the original size, with the fixed display width of 800.
- `Nearest` (nearest.dfy): nearest-neighbour resizing of the mask back to the
  original size. It is modelled as centre sampling: target index `t` of `N` takes
  source index `floor((t + 1/2) * n / N)`. Lemmas show that resizing adds no new
  colours, that enlarging loses none, and that resizing to the same size is the
  identity.
- `Resolver` (resolver.dfy): the colour classification (`is_red`, `is_green`), the
  per-pixel compositing rule, and the imperative resolve pass. That pass copies the
  original into a fresh `array2` and then runs the two masked alpha assignments in
  the source's order, removal then restoration. `Resolve` is proved to produce
  exactly the `Composited` image. The lemmas give the properties: restoration wins,
  RGB is untouched, an empty mask is the identity, re-applying the mask changes
  nothing, and for images wider than the canvas every mark reaches the output at
  the output pixel that samples the mark's canvas position.

Two behaviours of the code are worth stating directly:

- The canvas, and so the mask, is always 800 wide, even when the preview image is
  narrower. The narrow-image branch never resets `display_width` (app.py:20,
  app.py:61-62). For images narrower than 800, the final nearest-neighbour resize
  therefore shrinks the mask horizontally instead of enlarging it.
  `Preview.CanvasSize` states this. `Resolver.NarrowImageIgnoresFirstColumn` shows
  one consequence: for images at most 400 wide, a mark confined to the canvas's
  first column never reaches the output.
- The code performs no error checks. The model therefore has no error results.
  Instead, resizing requires a non-empty mask whenever the target is non-empty,
  because the resize itself needs one.

## Model

| member | source | states |
|---|---|---|
| Raster.ToUint8 | app.py:78 | the cast yields the unique byte congruent to the value modulo 256; in-range values are kept |
| Raster.ToUint8Unique | app.py:78 | any byte congruent to the value modulo 256 is the cast's result, so the cast is fully determined |
| Raster.CastPixel | app.py:78 | each of the four channels is cast to a byte congruent to the original modulo 256 |
| Raster.CastRaster | app.py:78 | the cast keeps the raster's shape and casts every pixel channel-wise |
| Preview.ScaledHeight | app.py:21-23 | the scaled height is the floor of origH * 800 / origW, and it is smaller than origH for non-empty images |
| Preview.CanvasSize | app.py:20-28 | the canvas is always 800 wide; its height is the original height for narrow images and the floor-scaled height for wide ones; it is never taller than the image |
| Preview.PreviewSize | app.py:20-28 | the preview is the original for images at most 800 wide, otherwise it is the canvas size; it never exceeds the original or 800 in width |
| Preview.CanvasFitsIffWide | app.py:20-28 | the canvas fits inside the image (so the final resize enlarges) exactly when the image is at least 800 wide |
| Nearest.NearestIndex | app.py:81 | the sampled source index is in bounds and is the source pixel containing the target pixel's centre |
| Nearest.NearestSameSize | app.py:81 | resizing to the same length samples each index onto itself |
| Nearest.NearestMonotone | app.py:81 | sampling is monotone, so contiguous runs (rectangles) stay contiguous |
| Nearest.NearestCovers | app.py:81 | when enlarging, every source index is sampled by some target index |
| Nearest.NarrowTargetSkipsFirst | app.py:81 | when shrinking to at most half the length, source index 0 is never sampled |
| Nearest.Upscale | app.py:81 | the resized mask has exactly the original width and height, and each pixel is the source pixel under its centre |
| Nearest.UpscaleNoNewColours | app.py:81 | every colour in the resized mask occurs in the canvas mask |
| Nearest.UpscaleKeepsEveryPixel | app.py:81 | when enlarging, every canvas pixel is sampled by some output position, which is returned, and the resized mask holds that pixel there |
| Nearest.UpscaleSameColours | app.py:81 | when enlarging, the resized mask has exactly the canvas mask's set of colours |
| Nearest.UpscaleSameSize | app.py:81 | resizing a raster to its own size returns it unchanged |
| Nearest.UpscaleIgnoresFirstColumn | app.py:81 | when the image is at most half the mask's width, masks differing only in column 0 resize to the same result |
| Resolver.ClassesDisjoint | app.py:91-95 | no mask pixel is both red (R>0, G==0) and green (G>0) |
| Resolver.Composite | app.py:91-96 | RGB is unchanged; alpha is 0 for red mask pixels, 255 for green ones whatever their red, and the source alpha otherwise |
| Resolver.CompositeOrderIrrelevant | app.py:91-96 | running the restoration before the removal gives the same pixel |
| Resolver.CompositeIdempotent | app.py:91-96 | compositing the result again under the same mask pixel changes nothing |
| Resolver.Composited | app.py:85-96 | the final image has the original's size and each pixel is the original pixel composited under the resized mask pixel |
| Resolver.EmptyMaskIsIdentity | app.py:85-96 | a mask with R and G zero everywhere yields exactly the original image |
| Resolver.CompositedIdempotent | app.py:85-96 | resolving the resolved image again under the same mask yields the same image |
| Resolver.OpaqueSourceAlpha | app.py:91-96 | on an opaque original, a pixel is transparent exactly where the mask is red, and opaque everywhere else |
| Resolver.FullMask | app.py:78-81 | the cast and resized mask has exactly the original width and height |
| Resolver.FullMaskFromCanvas | app.py:78-81 | every resized-mask pixel is the cast of some in-bounds canvas pixel |
| Resolver.RemovalSelection | app.py:91 | `is_red`, built from the per-pixel test `IsRemoval`, has the mask's shape and holds exactly where R>0 and G==0 |
| Resolver.RestorationSelection | app.py:95 | `is_green`, built from the per-pixel test `IsRestoration`, has the mask's shape and holds exactly where G>0 |
| Resolver.CopyToArray | app.py:85 | a fresh array of the original's size holding the original's pixels |
| Resolver.SetAlphaWhere | app.py:92-96 | selected pixels get the given alpha with RGB kept; unselected pixels are untouched |
| Resolver.Resolve | app.py:75-96 | the result is a fresh array of the original's size, equal to the original composited under the cast and resized canvas raster |
| Resolver.CanvasMarksSurvive | app.py:81-96 | when the image is at least the canvas size, each canvas pixel has a returned output position that samples it; there alpha is 0 if the canvas pixel is red and 255 if it is green |
| Resolver.WideImageKeepsMarks | app.py:20-96 | for images wider than 800, every red or green mark on the chosen canvas sets alpha (0 or 255) at a returned output pixel that samples the mark's canvas position |
| Resolver.NarrowImageIgnoresFirstColumn | app.py:20-81 | for images at most 400 wide, the canvas is 800 wide and its first column has no effect on the final image |

## Left out

- The Streamlit page: configuration, title, columns, tool radio, brush slider, image display and download button. This is presentation with no logic of its own.
- The drawing canvas widget and how it keeps strokes across tool switches. The widget is external code and its rasterisation is not visible. The model takes its output raster as an input of any shape.
- Decoding the upload and converting it to RGBA, converting the preview to RGB, and encoding the PNG. These are image-library I/O. The original image enters the model as a raster of RGBA bytes.
- The shrinking of the preview image itself (its resampling filter). Only its size is modelled, because only the size affects the mask.
- Preview.ScaledHeight: computes `int(orig_h / (orig_w / 800))` in exact rational arithmetic. The source uses floating point, which can land one below the exact quotient when that quotient is a whole number.
- Nearest.NearestIndex: models the image library's nearest-neighbour rounding as exact centre sampling. The library computes the same centre in floating point, so it may differ at exact pixel boundaries.
- Resolver.Resolve: holds the original image as an immutable value and the numpy copy as a fresh `array2`. The two numpy masked assignments are one loop method called twice. numpy's vectorised execution order inside each assignment is not modelled. Each pixel is written independently, so that order cannot affect the result.
- Error reporting for a zero-size canvas. The code has no check, and the failure would come from inside the image library. The model requires a non-empty canvas whenever the target image is non-empty.
