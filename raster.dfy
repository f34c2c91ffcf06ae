/** Pixels and rasters as the resolver sees them: numpy uint8 RGBA arrays
    indexed [row][column], and the cast of the canvas data to uint8. */
module Raster {

  /** A numpy uint8 channel value. */
  type Byte = x: int | 0 <= x < 256

  /** One RGBA pixel; the fields are channel indices 0, 1, 2 and 3 of the image array. */
  datatype Pixel = Pixel(r: Byte, g: Byte, b: Byte, a: Byte)

  /** One pixel of the canvas data before `astype('uint8')`: channels of any integer value. */
  datatype RawPixel = RawPixel(r: int, g: int, b: int, a: int)

  /** `g` is a raster of `h` rows of `w` pixels each (numpy shape (h, w)). */
  predicate IsGrid<T>(g: seq<seq<T>>, w: nat, h: nat) {
    |g| == h && forall y :: 0 <= y < h ==> |g[y]| == w
  }

  /** Multiplying both sides of an inequality by a natural number. */
  lemma MulLeq(a: nat, b: nat, c: nat)
    requires a <= b
    ensures a * c <= b * c
  {
  }

  lemma MulLt(a: nat, b: nat, c: nat)
    requires a < b && c > 0
    ensures a * c < b * c
  {
  }

  /** numpy's cast of an integer to uint8: the one byte congruent to `v` modulo 256. */
  function ToUint8(v: int): (b: Byte)
    ensures (v - b) % 256 == 0
    ensures 0 <= v < 256 ==> b == v
  {
    v % 256
  }

  /** Any two bytes congruent modulo 256 are equal, so ToUint8 is the only such cast. */
  lemma ToUint8Unique(v: int, c: Byte)
    requires (v - c) % 256 == 0
    ensures ToUint8(v) == c
  {
  }

  /** The channel-wise uint8 cast of one canvas pixel. */
  function CastPixel(p: RawPixel): (q: Pixel)
    ensures (p.r - q.r) % 256 == 0 && (p.g - q.g) % 256 == 0
    ensures (p.b - q.b) % 256 == 0 && (p.a - q.a) % 256 == 0
  {
    Pixel(ToUint8(p.r), ToUint8(p.g), ToUint8(p.b), ToUint8(p.a))
  }

  /** `Image.fromarray(mask_data.astype('uint8'))`: the canvas data cast pixel by pixel. */
  function CastRaster(raw: seq<seq<RawPixel>>): (m: seq<seq<Pixel>>)
    ensures forall w: nat, h: nat :: IsGrid(raw, w, h) ==> IsGrid(m, w, h)
    ensures |m| == |raw|
    ensures forall y, x :: 0 <= y < |raw| && 0 <= x < |raw[y]| ==>
      x < |m[y]| && m[y][x] == CastPixel(raw[y][x])
  {
    seq(|raw|, y requires 0 <= y < |raw| => seq(|raw[y]|, x requires 0 <= x < |raw[y]| => CastPixel(raw[y][x])))
  }
}
