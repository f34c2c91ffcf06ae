/** `resize(..., resample=Image.NEAREST)`: every target pixel takes the value of the
    source pixel under the centre of the target pixel, (t + 1/2) * n / N truncated. */
module Nearest {
  import opened Raster

  /** The source index sampled for target index `t` when `n` source pixels are
      resized to `N`: the one source pixel that contains the target pixel's centre. */
  function NearestIndex(t: nat, n: nat, N: nat): (s: nat)
    requires t < N && 0 < n
    ensures s < n
    ensures s * (2 * N) <= (2 * t + 1) * n < (s + 1) * (2 * N)
  {
    var v, d := (2 * t + 1) * n, 2 * N;
    MulLt(2 * t + 1, d, n);
    QuotientBelow(v, d, n);
    v / d
  }

  /** A value below d * n has a quotient by d below n. */
  lemma QuotientBelow(v: nat, d: nat, n: nat)
    requires d > 0 && v < d * n
    ensures v / d < n && (v / d) * d <= v < (v / d + 1) * d
  {
    QuotientBounds(v, d);
    if v / d >= n { MulLeq(n, v / d, d); }
  }

  /** The quotient q of v by d is the one with q * d <= v < (q + 1) * d. */
  lemma QuotientBounds(v: nat, d: nat)
    requires d > 0
    ensures (v / d) * d <= v < (v / d + 1) * d
  {
    var q, r := v / d, v % d;
    assert v == q * d + r;
    assert (q + 1) * d == q * d + d;
  }

  /** An odd multiple split into an even multiple and a remainder. */
  lemma OddMultiple(t: nat, n: nat)
    ensures (2 * t + 1) * n == t * (2 * n) + n
  {
  }

  /** A value that lies between q * d and (q + 1) * d has quotient q. */
  lemma {:induction false} DivBetween(v: nat, d: nat, q: nat)
    requires d > 0 && q * d <= v < (q + 1) * d
    ensures v / d == q
  {
    var r := v / d;
    QuotientBounds(v, d);
    if r < q { MulLeq(r + 1, q, d); }
    if r > q { MulLeq(q + 1, r, d); }
  }

  /** Resizing to the same length samples every index onto itself. */
  lemma {:induction false} NearestSameSize(t: nat, n: nat)
    requires t < n
    ensures NearestIndex(t, n, n) == t
  {
    OddMultiple(t, n);
    assert (t + 1) * (2 * n) == t * (2 * n) + 2 * n;
    DivBetween((2 * t + 1) * n, 2 * n, t);
  }

  /** Sampling preserves order, so a contiguous run of source pixels maps to a
      contiguous run of target pixels. */
  lemma {:induction false} NearestMonotone(t1: nat, t2: nat, n: nat, N: nat)
    requires t1 <= t2 < N && 0 < n
    ensures NearestIndex(t1, n, N) <= NearestIndex(t2, n, N)
  {
    var s1, s2 := NearestIndex(t1, n, N), NearestIndex(t2, n, N);
    MulLeq(2 * t1 + 1, 2 * t2 + 1, n);
    if s1 > s2 { MulLeq(s2 + 1, s1, 2 * N); }
  }

  /** When enlarging (n <= N), every source index is sampled by some target index. */
  lemma {:induction false} NearestCovers(s: nat, n: nat, N: nat) returns (t: nat)
    requires s < n <= N
    ensures t < N && NearestIndex(t, n, N) == s
  {
    var d, D := 2 * n, 2 * N;
    var k := s * D + n - 1;
    t := k / d;
    var v := (2 * t + 1) * n;
    assert t * d <= k < t * d + d by {
      QuotientBounds(k, d);
      assert (t + 1) * d == t * d + d;
    }
    assert v == t * d + n by { OddMultiple(t, n); }
    assert s * D <= v < s * D + D;
    assert v < (s + 1) * D by { assert (s + 1) * D == s * D + D; }
    assert t < N by {
      MulLeq(s + 1, n, D);
      if t >= N { MulLeq(D, 2 * t + 1, n); }
    }
    DivBetween(v, D, s);
  }

  /** When shrinking to at most half the length, index 0 is never sampled. */
  lemma {:induction false} NarrowTargetSkipsFirst(t: nat, n: nat, N: nat)
    requires t < N && 2 * N <= n
    ensures NearestIndex(t, n, N) >= 1
  {
    MulLeq(1, 2 * t + 1, n);
  }

  /** The mask raster of `w` x `h` pixels resized to the original `W` x `H`. */
  function Upscale(m: seq<seq<Pixel>>, w: nat, h: nat, W: nat, H: nat): (r: seq<seq<Pixel>>)
    requires IsGrid(m, w, h)
    requires W > 0 && H > 0 ==> w > 0 && h > 0
    ensures IsGrid(r, W, H)
    ensures forall y, x :: 0 <= y < H && 0 <= x < W ==>
      r[y][x] == m[NearestIndex(y, h, H)][NearestIndex(x, w, W)]
  {
    seq(H, y requires 0 <= y < H =>
      seq(W, x requires 0 <= x < W => m[NearestIndex(y, h, H)][NearestIndex(x, w, W)]))
  }

  /** The set of pixel values occurring in a raster. */
  function Colours(g: seq<seq<Pixel>>): set<Pixel> {
    set y, x | 0 <= y < |g| && 0 <= x < |g[y]| :: g[y][x]
  }

  /** Nearest-neighbour resizing introduces no new pixel values. */
  lemma {:induction false} UpscaleNoNewColours(m: seq<seq<Pixel>>, w: nat, h: nat, W: nat, H: nat)
    requires IsGrid(m, w, h)
    requires W > 0 && H > 0 ==> w > 0 && h > 0
    ensures Colours(Upscale(m, w, h, W, H)) <= Colours(m)
  {
    var r := Upscale(m, w, h, W, H);
    forall p | p in Colours(r) ensures p in Colours(m) {
      var y, x :| 0 <= y < |r| && 0 <= x < |r[y]| && r[y][x] == p;
      var sy, sx := NearestIndex(y, h, H), NearestIndex(x, w, W);
      assert m[sy][sx] == p;
    }
  }

  /** When enlarging, every pixel of the mask reaches the resized mask. */
  lemma {:induction false} UpscaleKeepsEveryPixel(m: seq<seq<Pixel>>, w: nat, h: nat, W: nat, H: nat, sy: nat, sx: nat)
    returns (y: nat, x: nat)
    requires IsGrid(m, w, h) && w <= W && h <= H
    requires sy < h && sx < w
    ensures y < H && x < W && NearestIndex(y, h, H) == sy && NearestIndex(x, w, W) == sx
    ensures Upscale(m, w, h, W, H)[y][x] == m[sy][sx]
  {
    y := NearestCovers(sy, h, H);
    x := NearestCovers(sx, w, W);
  }

  /** When enlarging, resizing neither adds nor loses pixel values. */
  lemma {:induction false} UpscaleSameColours(m: seq<seq<Pixel>>, w: nat, h: nat, W: nat, H: nat)
    requires IsGrid(m, w, h) && w <= W && h <= H
    requires W > 0 && H > 0 ==> w > 0 && h > 0
    ensures Colours(Upscale(m, w, h, W, H)) == Colours(m)
  {
    var r := Upscale(m, w, h, W, H);
    UpscaleNoNewColours(m, w, h, W, H);
    forall p | p in Colours(m) ensures p in Colours(r) {
      var sy, sx :| 0 <= sy < |m| && 0 <= sx < |m[sy]| && m[sy][sx] == p;
      var y, x := UpscaleKeepsEveryPixel(m, w, h, W, H, sy, sx);
      assert r[y][x] == p;
    }
  }

  /** Resizing to the raster's own size gives the raster back. */
  lemma {:induction false} UpscaleSameSize(m: seq<seq<Pixel>>, w: nat, h: nat)
    requires IsGrid(m, w, h)
    ensures Upscale(m, w, h, w, h) == m
  {
    var r := Upscale(m, w, h, w, h);
    forall y | 0 <= y < h ensures r[y] == m[y] {
      forall x | 0 <= x < w ensures r[y][x] == m[y][x] {
        NearestSameSize(y, h);
        NearestSameSize(x, w);
      }
    }
  }

  /** When the image is at most half as wide as the mask, the mask's first column
      never reaches the resized mask: two masks that differ only there resize alike. */
  lemma {:induction false} UpscaleIgnoresFirstColumn(m1: seq<seq<Pixel>>, m2: seq<seq<Pixel>>, w: nat, h: nat, W: nat, H: nat)
    requires IsGrid(m1, w, h) && IsGrid(m2, w, h)
    requires w > 0 && h > 0 && 2 * W <= w
    requires forall y, x :: 0 <= y < h && 1 <= x < w ==> m1[y][x] == m2[y][x]
    ensures Upscale(m1, w, h, W, H) == Upscale(m2, w, h, W, H)
  {
    var r1, r2 := Upscale(m1, w, h, W, H), Upscale(m2, w, h, W, H);
    forall y | 0 <= y < H ensures r1[y] == r2[y] {
      forall x | 0 <= x < W ensures r1[y][x] == r2[y][x] {
        NarrowTargetSkipsFirst(x, w, W);
      }
    }
  }
}
