/** Flat row-major buffers: the RGBA pixel raster (4 bytes per pixel) and the
    one-entry-per-pixel cost table, with the pixel accessors of the engine. */
module Raster {

  /** One channel of one pixel, the C code's uint8_t. */
  type byte = x: int | 0 <= x < 256

  /** a * b by repeated addition. The index arithmetic of the buffers is built on
      it so that the solver only unfolds a product when a proof asks for it;
      MulIsProduct ties it to ordinary multiplication. */
  function Mul(a: nat, b: nat): nat {
    if a == 0 then 0 else Mul(a - 1, b) + b
  }

  lemma {:induction false} MulIsProduct(a: nat, b: nat)
    ensures Mul(a, b) == a * b
  {
    if a > 0 {
      MulIsProduct(a - 1, b);
      assert (a - 1) * b + b == a * b;
    }
  }

  /** Mul is monotone in its first factor. */
  lemma {:induction false} MulMonotone(a: nat, a': nat, b: nat)
    requires a <= a'
    ensures Mul(a, b) <= Mul(a', b)
  {
    if a < a' {
      MulMonotone(a, a' - 1, b);
    }
  }

  /** Number of bytes in a height x width RGBA raster (height * width * 4). */
  function Size(height: nat, width: nat): nat {
    4 * Mul(height, width)
  }

  /** Row-major index of pixel (row y, column x) in a one-value-per-pixel table:
      y * width + x. */
  function Cell(width: nat, y: nat, x: nat): nat {
    Mul(y, width) + x
  }

  /** Byte index of channel col (0 = R, 1 = G, 2 = B, 3 = A) of pixel (y, x):
      4 * (y * width + x) + col. */
  function Offset(width: nat, y: nat, x: nat, col: nat): nat {
    4 * Cell(width, y, x) + col
  }

  lemma CellInTable(height: nat, width: nat, y: nat, x: nat)
    requires y < height && x < width
    ensures Cell(width, y, x) < Mul(height, width)
    ensures Cell(width, y, 0) + width <= Mul(height, width)
  {
    MulMonotone(y + 1, height, width);
  }

  /** Distinct pixels of a row-major table occupy distinct cells. */
  lemma CellInjective(width: nat, y: nat, x: nat, y': nat, x': nat)
    requires x < width && x' < width
    requires Cell(width, y, x) == Cell(width, y', x')
    ensures y == y' && x == x'
  {
    if y < y' {
      MulMonotone(y + 1, y', width);
    } else if y' < y {
      MulMonotone(y' + 1, y, width);
    }
  }

  /** Every index of a height x width table is the cell of some pixel. */
  lemma {:induction false} CellSurjective(height: nat, width: nat, k: nat) returns (y: nat, x: nat)
    requires k < Mul(height, width)
    ensures y < height && x < width && Cell(width, y, x) == k
  {
    if k < Mul(height - 1, width) {
      y, x := CellSurjective(height - 1, width, k);
    } else {
      y, x := height - 1, k - Mul(height - 1, width);
    }
  }

  /** Every channel of every pixel of a height x width image lies inside its raster. */
  lemma OffsetsInRaster(height: nat, width: nat)
    ensures forall y: nat, x: nat, col: nat {:trigger Offset(width, y, x, col)} ::
      y < height && x < width && col < 4 ==> Offset(width, y, x, col) < Size(height, width)
  {
    forall y: nat, x: nat, col: nat | y < height && x < width && col < 4
      ensures Offset(width, y, x, col) < Size(height, width)
    {
      CellInTable(height, width, y, x);
    }
  }

  /** Every cell of a height x width table lies inside the table. */
  lemma CellsInTable(height: nat, width: nat)
    ensures forall y: nat, x: nat {:trigger Cell(width, y, x)} ::
      y < height && x < width ==> Cell(width, y, x) < Mul(height, width)
  {
    forall y: nat, x: nat | y < height && x < width
      ensures Cell(width, y, x) < Mul(height, width)
    {
      CellInTable(height, width, y, x);
    }
  }

  /** Two channel offsets coincide only for the same pixel and the same channel. */
  lemma OffsetInjective(width: nat, y: nat, x: nat, col: nat, y': nat, x': nat, col': nat)
    requires x < width && x' < width && col < 4 && col' < 4
    requires Offset(width, y, x, col) == Offset(width, y', x', col')
    ensures y == y' && x == x' && col == col'
  {
    assert Cell(width, y, x) == Cell(width, y', x');
    CellInjective(width, y, x, y', x');
  }

  /** get_pixel: channel col of pixel (y, x) of a raster of the given width,
      the byte at the C index 4 * (y * width + x) + col. */
  function GetPixel(raster: seq<byte>, width: nat, y: nat, x: nat, col: nat): (v: byte)
    requires x < width && col < 4 && Offset(width, y, x, col) < |raster|
    ensures 4 * (y * width + x) + col < |raster| && v == raster[4 * (y * width + x) + col]
  {
    MulIsProduct(y, width);
    raster[Offset(width, y, x, col)]
  }

  /** after differs from before in at most the four bytes of pixel (y, x). */
  ghost predicate OnlyPixelChanged(before: seq<byte>, after: seq<byte>, width: nat, y: nat, x: nat) {
    |after| == |before| &&
    forall k :: 0 <= k < |after| && !(Offset(width, y, x, 0) <= k <= Offset(width, y, x, 3)) ==> after[k] == before[k]
  }

  /** set_pixel: writes the four channels of pixel (y, x) and no other byte. */
  method SetPixel(raster: array<byte>, width: nat, y: nat, x: nat, r: byte, g: byte, b: byte, a: byte)
    requires x < width && Offset(width, y, x, 3) < raster.Length
    modifies raster
    ensures OnlyPixelChanged(old(raster[..]), raster[..], width, y, x)
    ensures forall y': nat, x': nat, col: nat {:trigger Offset(width, y', x', col)} ::
      x' < width && col < 4 && Offset(width, y', x', col) < raster.Length ==>
        raster[Offset(width, y', x', col)] ==
          if y' == y && x' == x then (if col == 0 then r else if col == 1 then g else if col == 2 then b else a)
          else old(raster[Offset(width, y', x', col)])
  {
    raster[Offset(width, y, x, 0)] := r;
    raster[Offset(width, y, x, 1)] := g;
    raster[Offset(width, y, x, 2)] := b;
    raster[Offset(width, y, x, 3)] := a;
    forall y': nat, x': nat, col: nat | x' < width && col < 4 && Offset(width, y', x', col) < raster.Length && !(y' == y && x' == x)
      ensures Offset(width, y', x', col) !in {Offset(width, y, x, 0), Offset(width, y, x, 1), Offset(width, y, x, 2), Offset(width, y, x, 3)}
    {
      forall c: nat | c < 4 ensures Offset(width, y', x', col) != Offset(width, y, x, c) {
        if Offset(width, y', x', col) == Offset(width, y, x, c) {
          OffsetInjective(width, y', x', col, y, x, c);
        }
      }
    }
  }

  /** The pixel writer of the library variant (its c_img.h is not part of this
      model): same addressing, writes R, G and B and leaves every other byte. */
  method SetRgb(raster: array<byte>, width: nat, y: nat, x: nat, r: byte, g: byte, b: byte)
    requires x < width && Offset(width, y, x, 3) < raster.Length
    modifies raster
    ensures forall y': nat, x': nat, col: nat {:trigger Offset(width, y', x', col)} ::
      x' < width && col < 4 && Offset(width, y', x', col) < raster.Length ==>
        raster[Offset(width, y', x', col)] ==
          if y' == y && x' == x && col < 3 then (if col == 0 then r else if col == 1 then g else b)
          else old(raster[Offset(width, y', x', col)])
  {
    raster[Offset(width, y, x, 0)] := r;
    raster[Offset(width, y, x, 1)] := g;
    raster[Offset(width, y, x, 2)] := b;
    forall y': nat, x': nat, col: nat | x' < width && col < 4 && Offset(width, y', x', col) < raster.Length && !(y' == y && x' == x && col < 3)
      ensures Offset(width, y', x', col) !in {Offset(width, y, x, 0), Offset(width, y, x, 1), Offset(width, y, x, 2)}
    {
      forall c: nat | c < 3 ensures Offset(width, y', x', col) != Offset(width, y, x, c) {
        if Offset(width, y', x', col) == Offset(width, y, x, c) {
          OffsetInjective(width, y', x', col, y, x, c);
        }
      }
    }
  }
}
