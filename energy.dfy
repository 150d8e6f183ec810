/** The dual-gradient energy of a pixel: colour differences between the
    toroidally wrapped left/right and up/down neighbours, summed over R, G
    and B, square-rooted, truncated and divided by 10. */
module Energy {
  import opened Raster

  /** Largest energy value: isqrt(6 * 255 * 255) / 10 == 624 / 10. */
  const MaxEnergy: nat := 62

  /** Floor square root: what the C code gets from (int) sqrt(n) for the
      small non-negative n it passes (at most 6 * 255 * 255). The bounds are
      stated with Mul, so a caller sees no nonlinear fact. */
  function ISqrt(n: nat): (r: nat)
    ensures Mul(r, r) <= n < Mul(r + 1, r + 1)
  {
    if n < 4 then
      MulIsProduct(1, 1);
      MulIsProduct(2, 2);
      if n == 0 then 0 else 1
    else
      var q := ISqrt(n / 4);
      ISqrtStep(n, q);
      if Mul(2 * q + 1, 2 * q + 1) <= n then 2 * q + 1 else 2 * q
  }

  /** The root of n lies within one of twice the root of n / 4. */
  lemma ISqrtStep(n: nat, q: nat)
    requires Mul(q, q) <= n / 4 < Mul(q + 1, q + 1)
    ensures Mul(2 * q, 2 * q) <= n < Mul(2 * q + 2, 2 * q + 2)
  {
    MulIsProduct(q, q);
    MulIsProduct(q + 1, q + 1);
    MulIsProduct(2 * q, 2 * q);
    MulIsProduct(2 * q + 2, 2 * q + 2);
    assert (2 * q) * (2 * q) == 4 * (q * q);
    assert (2 * q + 2) * (2 * q + 2) == 4 * ((q + 1) * (q + 1));
  }

  /** Multiplication by a natural number is monotone. */
  lemma MulLe(a: nat, b: nat, c: nat)
    requires a <= b
    ensures a * c <= b * c
  {
    MulMonotone(a, b, c);
    MulIsProduct(a, c);
    MulIsProduct(b, c);
  }

  /** Squaring is monotone on the natural numbers. */
  lemma SquareMonotone(a: nat, b: nat)
    requires a <= b
    ensures a * a <= b * b
  {
    MulLe(a, b, a);
    MulLe(a, b, b);
  }

  /** Any natural number whose square does not exceed n is at most isqrt(n). */
  lemma ISqrtIsLargest(n: nat, m: nat)
    requires m * m <= n
    ensures m <= ISqrt(n)
  {
    var r := ISqrt(n);
    if m > r {
      MulIsProduct(r + 1, r + 1);
      SquareMonotone(r + 1, m);
    }
  }

  /** The largest squared gradient, 6 * 255 * 255, has floor square root 624. */
  lemma ISqrtBound(n: nat)
    requires n <= 6 * (255 * 255)
    ensures ISqrt(n) <= 624
  {
    var r := ISqrt(n);
    if r >= 625 {
      MulIsProduct(r, r);
      MulLe(625, r, r);
    }
  }

  lemma ModSmall(a: int, n: int)
    requires 0 <= a < n
    ensures a % n == a
  {
  }

  lemma ModShift(a: int, n: int)
    requires 0 < n <= a < 2 * n
    ensures a % n == a - n
  {
  }

  /** The neighbour before k in a ring of n: 0 wraps to n - 1 (k_left, k_up). */
  function WrapPrev(k: nat, n: nat): (p: nat)
    requires k < n
    ensures p < n
  {
    if k == 0 then n - 1 else k - 1
  }

  /** The neighbour after k in a ring of n: n - 1 wraps to 0 (k_right, k_down). */
  function WrapNext(k: nat, n: nat): (p: nat)
    requires k < n
    ensures p < n
  {
    if k == n - 1 then 0 else k + 1
  }

  /** The wrapped neighbours are the toroidal ones: k - 1 and k + 1 modulo n. */
  lemma WrapIsModular(k: nat, n: nat)
    requires k < n
    ensures WrapPrev(k, n) == (k + n - 1) % n
    ensures WrapNext(k, n) == (k + 1) % n
  {
    if k == 0 { ModSmall(n - 1, n); } else { ModShift(k + n - 1, n); }
    if k == n - 1 { ModShift(n, n); } else { ModSmall(k + 1, n); }
  }

  /** Squared colour difference of two channel values, written with Mul so that
      a caller that unfolds it meets no nonlinear term. */
  function Diff2(a: byte, b: byte): (s: nat)
    ensures s <= 255 * 255
    ensures s == 0 <==> a == b
  {
    var d := if a < b then b - a else a - b;
    MulMonotone(d, 255, d);
    MulIsProduct(255, d);
    Mul(d, d)
  }

  /** Diff2 is the square of the difference, as calc_energy computes it. */
  lemma Diff2IsSquare(a: byte, b: byte)
    ensures Diff2(a, b) == (a - b) * (a - b)
  {
    var d := if a < b then b - a else a - b;
    MulIsProduct(d, d);
    assert d * d == (a - b) * (a - b);
  }

  /** Sum over R, G and B of the squared differences between pixels (y, x) and (y', x'). */
  function ColourDist2(src: seq<byte>, width: nat, y: nat, x: nat, y': nat, x': nat): (s: nat)
    requires x < width && x' < width && Offset(width, y, x, 3) < |src| && Offset(width, y', x', 3) < |src|
    ensures s <= 3 * (255 * 255)
  {
    Diff2(GetPixel(src, width, y, x, 0), GetPixel(src, width, y', x', 0))
    + Diff2(GetPixel(src, width, y, x, 1), GetPixel(src, width, y', x', 1))
    + Diff2(GetPixel(src, width, y, x, 2), GetPixel(src, width, y', x', 2))
  }

  /** Squared dual gradient of pixel (j, i): the colour difference between the
      wrapped right and left neighbours plus that between the wrapped upper and
      lower neighbours. */
  function GradientSq(src: seq<byte>, height: nat, width: nat, j: nat, i: nat): (s: nat)
    requires |src| == Size(height, width) && j < height && i < width
    ensures s <= 6 * (255 * 255)
  {
    OffsetsInRaster(height, width);
    var left, right := WrapPrev(i, width), WrapNext(i, width);
    var up, down := WrapPrev(j, height), WrapNext(j, height);
    ColourDist2(src, width, j, right, j, left) + ColourDist2(src, width, up, i, down, i)
  }

  /** The normalised energy of pixel (j, i): isqrt of the squared gradient,
      divided by 10 with truncation. It always fits in a byte. */
  function PixelEnergy(src: seq<byte>, height: nat, width: nat, j: nat, i: nat): (e: nat)
    requires |src| == Size(height, width) && j < height && i < width
    ensures e <= MaxEnergy
  {
    var g := GradientSq(src, height, width, j, i);
    ISqrtBound(g);
    ISqrt(g) / 10
  }

  /** R, G and B of every pixel of dest hold the energy of that pixel of src:
      what both calc_energy variants write. */
  ghost predicate IsEnergyInRgb(dest: seq<byte>, src: seq<byte>, height: nat, width: nat)
    requires |src| == |dest| == Size(height, width)
  {
    OffsetsInRaster(height, width);
    forall j: nat, i: nat, c: nat {:trigger Offset(width, j, i, c)} :: j < height && i < width && c < 3 ==>
      dest[Offset(width, j, i, c)] == PixelEnergy(src, height, width, j, i)
  }

  /** dest is the energy raster the wasm calc_energy makes from src: R, G and B
      of every pixel hold its energy and alpha is 255. */
  ghost predicate IsEnergyRaster(dest: seq<byte>, src: seq<byte>, height: nat, width: nat)
    requires |src| == |dest| == Size(height, width)
  {
    OffsetsInRaster(height, width);
    IsEnergyInRgb(dest, src, height, width) &&
    forall j: nat, i: nat {:trigger Offset(width, j, i, 3)} :: j < height && i < width ==>
      dest[Offset(width, j, i, 3)] == 255
  }

  /** Colour distance is zero between pixels whose R, G and B agree. */
  lemma SameColourHasZeroDist(src: seq<byte>, width: nat, y: nat, x: nat, y': nat, x': nat)
    requires x < width && x' < width && Offset(width, y, x, 3) < |src| && Offset(width, y', x', 3) < |src|
    requires forall c: nat :: c < 3 ==> GetPixel(src, width, y, x, c) == GetPixel(src, width, y', x', c)
    ensures ColourDist2(src, width, y, x, y', x') == 0
  {
    assert GetPixel(src, width, y, x, 0) == GetPixel(src, width, y', x', 0);
    assert GetPixel(src, width, y, x, 1) == GetPixel(src, width, y', x', 1);
    assert GetPixel(src, width, y, x, 2) == GetPixel(src, width, y', x', 2);
  }

  /** Every pixel of the image has the R, G and B of pixel (0, 0). */
  ghost predicate Uniform(src: seq<byte>, height: nat, width: nat)
    requires |src| == Size(height, width) && 1 <= height && 1 <= width
  {
    OffsetsInRaster(height, width);
    forall y: nat, x: nat, c: nat {:trigger Offset(width, y, x, c)} :: y < height && x < width && c < 3 ==>
      src[Offset(width, y, x, c)] == src[Offset(width, 0, 0, c)]
  }

  /** R, G and B of every pixel agree between the two rasters. */
  ghost predicate SameRgb(s: seq<byte>, t: seq<byte>, height: nat, width: nat)
    requires |s| == |t| == Size(height, width)
  {
    OffsetsInRaster(height, width);
    forall y: nat, x: nat, c: nat {:trigger Offset(width, y, x, c)} :: y < height && x < width && c < 3 ==>
      s[Offset(width, y, x, c)] == t[Offset(width, y, x, c)]
  }

  /** An image in which every pixel has the colour of pixel (0, 0) has zero
      energy everywhere, whatever its alpha channel holds. */
  lemma UniformImageHasZeroEnergy(src: seq<byte>, height: nat, width: nat)
    requires |src| == Size(height, width) && 1 <= height && 1 <= width
    requires Uniform(src, height, width)
    ensures forall j: nat, i: nat :: j < height && i < width ==> PixelEnergy(src, height, width, j, i) == 0
  {
    OffsetsInRaster(height, width);
    forall j: nat, i: nat | j < height && i < width
      ensures PixelEnergy(src, height, width, j, i) == 0
    {
      var left, right := WrapPrev(i, width), WrapNext(i, width);
      var up, down := WrapPrev(j, height), WrapNext(j, height);
      forall c: nat | c < 3 ensures GetPixel(src, width, j, right, c) == GetPixel(src, width, j, left, c) {
        assert src[Offset(width, j, right, c)] == src[Offset(width, 0, 0, c)];
        assert src[Offset(width, j, left, c)] == src[Offset(width, 0, 0, c)];
      }
      SameColourHasZeroDist(src, width, j, right, j, left);
      forall c: nat | c < 3 ensures GetPixel(src, width, up, i, c) == GetPixel(src, width, down, i, c) {
        assert src[Offset(width, up, i, c)] == src[Offset(width, 0, 0, c)];
        assert src[Offset(width, down, i, c)] == src[Offset(width, 0, 0, c)];
      }
      SameColourHasZeroDist(src, width, up, i, down, i);
      assert GradientSq(src, height, width, j, i) == 0;
      assert ISqrt(0) == 0;
    }
  }

  /** Colour distance reads channels R, G and B only. */
  lemma DistIgnoresAlpha(s: seq<byte>, t: seq<byte>, width: nat, y: nat, x: nat, y': nat, x': nat)
    requires |s| == |t| && x < width && x' < width && Offset(width, y, x, 3) < |s| && Offset(width, y', x', 3) < |s|
    requires forall c: nat :: c < 3 ==> GetPixel(s, width, y, x, c) == GetPixel(t, width, y, x, c)
    requires forall c: nat :: c < 3 ==> GetPixel(s, width, y', x', c) == GetPixel(t, width, y', x', c)
    ensures ColourDist2(s, width, y, x, y', x') == ColourDist2(t, width, y, x, y', x')
  {
    assert GetPixel(s, width, y, x, 0) == GetPixel(t, width, y, x, 0);
    assert GetPixel(s, width, y, x, 1) == GetPixel(t, width, y, x, 1);
    assert GetPixel(s, width, y, x, 2) == GetPixel(t, width, y, x, 2);
    assert GetPixel(s, width, y', x', 0) == GetPixel(t, width, y', x', 0);
    assert GetPixel(s, width, y', x', 1) == GetPixel(t, width, y', x', 1);
    assert GetPixel(s, width, y', x', 2) == GetPixel(t, width, y', x', 2);
  }

  /** The energy depends on channels R, G and B only: two rasters that agree on
      those channels everywhere have the same energy map. */
  lemma EnergyIgnoresAlpha(s: seq<byte>, t: seq<byte>, height: nat, width: nat)
    requires |s| == |t| == Size(height, width)
    requires SameRgb(s, t, height, width)
    ensures forall j: nat, i: nat :: j < height && i < width ==>
      PixelEnergy(s, height, width, j, i) == PixelEnergy(t, height, width, j, i)
  {
    OffsetsInRaster(height, width);
    forall j: nat, i: nat | j < height && i < width
      ensures GradientSq(s, height, width, j, i) == GradientSq(t, height, width, j, i)
    {
      var left, right := WrapPrev(i, width), WrapNext(i, width);
      var up, down := WrapPrev(j, height), WrapNext(j, height);
      DistIgnoresAlpha(s, t, width, j, right, j, left);
      DistIgnoresAlpha(s, t, width, up, i, down, i);
    }
  }

  /** In an image at most two pixels wide the wrapped left and right neighbours of
      every pixel coincide, and likewise above and below in one at most two pixels
      high: so every image of at most 2 x 2 pixels has zero energy everywhere. */
  lemma TinyImageHasZeroEnergy(src: seq<byte>, height: nat, width: nat)
    requires |src| == Size(height, width) && height <= 2 && width <= 2
    ensures forall j: nat, i: nat :: j < height && i < width ==> PixelEnergy(src, height, width, j, i) == 0
  {
    forall j: nat, i: nat | j < height && i < width
      ensures PixelEnergy(src, height, width, j, i) == 0
    {
      assert WrapPrev(i, width) == WrapNext(i, width);
      assert WrapPrev(j, height) == WrapNext(j, height);
      assert GradientSq(src, height, width, j, i) == 0;
      assert ISqrt(0) == 0;
    }
  }
}
