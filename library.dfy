/** The library variant of the engine: an image record, calc_energy writing
    R, G and B only, dynamic_seam, the recover_path backtracker with its own
    candidate bookkeeping, and remove_seam. */
module SeamCarvingLib {
  import opened Raster
  import opened Energy
  import opened Seam
  import SeamCarvingWasm

  /** struct rgb_img: a height x width image with four bytes per pixel. */
  class RgbImage {
    const height: nat
    const width: nat
    const raster: array<byte>

    ghost predicate Valid() {
      raster.Length == Size(height, width)
    }

    /** create_img: a fresh image of the given size. What the allocator leaves
        in the new raster is not known, so nothing is said about it. */
    constructor (height: nat, width: nat)
      ensures this.height == height && this.width == width
      ensures Valid() && fresh(raster)
    {
      this.height := height;
      this.width := width;
      raster := new byte[Size(height, width)];
    }
  }

  /** calc_energy: a fresh image of the same size whose R, G and B hold the
      energy of every pixel of im. */
  method CalcEnergy(im: RgbImage) returns (grad: RgbImage)
    requires im.Valid() && 1 <= im.height && 1 <= im.width
    ensures fresh(grad) && fresh(grad.raster) && grad.Valid()
    ensures grad.height == im.height && grad.width == im.width
    ensures IsEnergyInRgb(grad.raster[..], im.raster[..], im.height, im.width)
  {
    var w := im.width;
    var h := im.height;
    grad := new RgbImage(h, w);
    OffsetsInRaster(h, w);
    for j := 0 to h
      invariant forall y: nat, x: nat, c: nat {:trigger Offset(w, y, x, c)} :: y < j && x < w && c < 3 ==>
        grad.raster[Offset(w, y, x, c)] == PixelEnergy(im.raster[..], h, w, y, x)
    {
      for i := 0 to w
        invariant forall y: nat, x: nat, c: nat {:trigger Offset(w, y, x, c)} :: (y < j || (y == j && x < i)) && x < w && c < 3 ==>
          grad.raster[Offset(w, y, x, c)] == PixelEnergy(im.raster[..], h, w, y, x)
      {
        WriteEnergy(im.raster, grad.raster, h, w, j, i);
      }
    }
  }

  /** Lines 42-88 of calc_energy, one pixel: R, G and B of pixel (j, i) of grad
      get the energy of that pixel of src; no other byte changes, its alpha
      included. */
  method WriteEnergy(src: array<byte>, grad: array<byte>, h: nat, w: nat, j: nat, i: nat)
    requires j < h && i < w && src.Length == grad.Length == Size(h, w) && src != grad
    modifies grad
    ensures forall y: nat, x: nat, c: nat {:trigger Offset(w, y, x, c)} :: y < h && x < w && c < 4 ==>
      Offset(w, y, x, c) < grad.Length &&
      grad[Offset(w, y, x, c)] ==
        if c < 3 && y == j && x == i then PixelEnergy(src[..], h, w, y, x) else old(grad[Offset(w, y, x, c)])
  {
    OffsetsInRaster(h, w);
    var grad2 := SeamCarvingWasm.GradientAt(src, h, w, j, i);
    var energy := ISqrt(grad2);
    ISqrtBound(grad2);
    var energyNorm := energy / 10;
    assert energyNorm == PixelEnergy(src[..], h, w, j, i);
    SetRgb(grad, w, j, i, energyNorm, energyNorm, energyNorm);
  }

  /** dynamic_seam: a fresh cost table of the energy held in channel 0 of grad.
      Its loops are line for line those of the wasm table fill, which is the
      method called here. */
  method DynamicSeam(grad: RgbImage) returns (best: array<nat>)
    requires grad.Valid() && 1 <= grad.height && 2 <= grad.width
    ensures fresh(best) && best.Length == Mul(grad.height, grad.width)
    ensures IsCostTable(best[..], EnergyValues(grad.raster[..], grad.height, grad.width), grad.height, grad.width)
  {
    best := new nat[Mul(grad.height, grad.width)];
    SeamCarvingWasm.FillTable(grad.raster, best, grad.height, grad.width);
  }

  /** The library chain from calc_energy to recover_path: a table that
      dynamic_seam fills from the energy image grad of im is the cost table of
      the energy grid of im, and for an image fewer than Sentinel / 62 rows high
      every entry lies below recover_path's starting minimum. */
  lemma TableOfEnergyImage(t: seq<nat>, im: seq<byte>, grad: seq<byte>, height: nat, width: nat)
    requires 1 <= height && 2 <= width && |im| == |grad| == Size(height, width) && |t| == Mul(height, width)
    requires IsEnergyInRgb(grad, im, height, width)
    requires IsCostTable(t, EnergyValues(grad, height, width), height, width)
    ensures IsCostTable(t, SeamCarvingWasm.EnergyGrid(im, height, width), height, width)
    ensures Mul(height, MaxEnergy) < Sentinel ==> BelowSentinel(t)
  {
    SeamCarvingWasm.EnergyValuesOfCalcEnergy(im, grad, height, width);
    if Mul(height, MaxEnergy) < Sentinel {
      EnergyTableBelowSentinel(t, im, height, width);
    }
  }

  /** The starting value of recover_path's running minimum; every table entry
      is taken to lie below it. */
  const Sentinel: nat := 10000000000000000

  ghost predicate BelowSentinel(t: seq<nat>) {
    forall k :: 0 <= k < |t| ==> t[k] < Sentinel
  }

  /** A cost table entry of row j is at most (j + 1) times the largest energy. */
  lemma {:induction false} CostIsBounded(g: seq<seq<nat>>, width: nat, j: nat, i: nat)
    requires IsGrid(g, width) && 2 <= width && j < |g| && i < width
    requires forall r, k :: 0 <= r < |g| && 0 <= k < width ==> g[r][k] <= MaxEnergy
    ensures Cost(g, width, j, i) <= Mul(j + 1, MaxEnergy)
  {
    if j > 0 {
      CostIsBounded(g, width, j - 1, i);
      assert NeighbourMin(CostRow(g, width, j - 1), i) <= CostRow(g, width, j - 1)[i];
    }
  }

  /** The cost table of any image fewer than Sentinel / 62 rows high stays below
      the sentinel, so recover_path's first comparison always succeeds on it. */
  lemma EnergyTableBelowSentinel(t: seq<nat>, src: seq<byte>, height: nat, width: nat)
    requires 1 <= height && 2 <= width && |src| == Size(height, width) && |t| == Mul(height, width)
    requires IsCostTable(t, SeamCarvingWasm.EnergyGrid(src, height, width), height, width)
    requires Mul(height, MaxEnergy) < Sentinel
    ensures BelowSentinel(t)
  {
    var g := SeamCarvingWasm.EnergyGrid(src, height, width);
    forall k | 0 <= k < |t| ensures t[k] < Sentinel {
      EntryBelowSentinel(t, g, height, width, k);
    }
  }

  /** One entry of a cost table of a grid of energies below the sentinel. */
  lemma EntryBelowSentinel(t: seq<nat>, g: seq<seq<nat>>, height: nat, width: nat, k: nat)
    requires 2 <= width && IsGrid(g, width) && |g| == height && |t| == Mul(height, width) && k < |t|
    requires forall r, i :: 0 <= r < height && 0 <= i < width ==> g[r][i] <= MaxEnergy
    requires IsCostTable(t, g, height, width)
    requires Mul(height, MaxEnergy) < Sentinel
    ensures t[k] < Sentinel
  {
    var y, x := CellSurjective(height, width, k);
    CostIsBounded(g, width, y, x);
    MulMonotone(y + 1, height, MaxEnergy);
  }

  /** One row of recover_path, from column x of the row below. The candidates
      are the centre (e1), the left neighbour, or the right one when x == 0 (e2),
      and the right neighbour when x has two neighbours (e3); a candidate that
      does not exist counts as cost 0 at column 0. A right cost of 0 is taken to
      mean "no right neighbour", so then only e1 and e2 are compared. Ties go to
      the centre, then to e2. */
  function RecoverStep(row: seq<nat>, x: nat): (c: nat)
    requires x < |row|
    ensures IsNeighbour(c, x, |row|)
    ensures c != x ==> row[c] < row[x]
    ensures c == x + 1 ==> x == 0 || row[x + 1] < row[x - 1]
    ensures x == 0 || x == |row| - 1 || row[x + 1] != 0 ==>
      forall k :: IsNeighbour(k, x, |row|) ==> row[c] <= row[k]
    ensures 0 < x < |row| - 1 && row[x + 1] == 0 ==>
      c != x + 1 && row[c] <= row[x] && row[c] <= row[x - 1]
  {
    var e1, i1 := row[x], x;
    var c2 := if x == 0 then 1 else x - 1;
    var e2, i2 := if c2 < |row| then row[c2] else 0, if c2 < |row| then c2 else 0;
    var e3, i3 := if 0 < x < |row| - 1 then row[x + 1] else 0, if 0 < x < |row| - 1 then x + 1 else 0;
    if e3 == 0 then
      (if Min2(e1, e2) == e1 then i1 else i2)
    else
      var m := Min3(e1, e2, e3);
      if m == e1 then i1 else if m == e2 then i2 else i3
  }

  /** Wherever a zero right cost does not hide the right neighbour, recover_path
      moves exactly as the wasm backtracker does. */
  lemma RecoverStepIsBacktrackStep(row: seq<nat>, x: nat)
    requires x < |row|
    requires x == 0 || x == |row| - 1 || row[x + 1] != 0
    ensures RecoverStep(row, x) == BacktrackStep(row, x)
  {
    BacktrackStepUnique(row, x, RecoverStep(row, x));
  }

  /** When the right neighbour costs 0 and is strictly the cheapest, recover_path
      misses it and lands on a costlier column than the wasm backtracker. */
  lemma RecoverStepMissesZeroRight(row: seq<nat>, x: nat)
    requires 0 < x < |row| - 1 && row[x + 1] == 0 && 0 < row[x] && 0 < row[x - 1]
    ensures BacktrackStep(row, x) == x + 1
    ensures row[BacktrackStep(row, x)] < row[RecoverStep(row, x)]
  {
  }

  /** recover_path: a fresh path in range whose bottom entry is the leftmost
      minimum of the bottom row and whose other entries each take one
      RecoverStep up from the entry below. */
  method RecoverPath(best: array<nat>, height: nat, width: nat) returns (path: array<int>)
    requires 1 <= height && 1 <= width && best.Length == Mul(height, width)
    requires BelowSentinel(best[..])
    ensures fresh(path) && path.Length == height
    ensures forall j :: 0 <= j < height ==> 0 <= path[j] < width
    ensures IsLeftmostMin(TableRow(best[..], height, width, height - 1), path[height - 1])
    ensures forall j :: 0 <= j < height - 1 ==> path[j] == RecoverStep(TableRow(best[..], height, width, j), path[j + 1])
  {
    ghost var t := best[..];
    path := new int[height];
    var xCont: int := 0;
    var j: int := height - 1;
    while j >= 0
      invariant -1 <= j <= height - 1
      invariant j < height - 1 ==> xCont == path[j + 1] && IsLeftmostMin(TableRow(t, height, width, height - 1), path[height - 1])
      invariant forall r :: j < r < height ==> 0 <= path[r] < width
      invariant forall r :: j < r < height - 1 ==> path[r] == RecoverStep(TableRow(t, height, width, r), path[r + 1])
    {
      if j == height - 1 {
        xCont := ScanBottomRow(best, path, height, width);
      } else {
        xCont := ScanRow(best, path, height, width, j, xCont);
      }
      j := j - 1;
    }
    assert best[..] == t;
  }

  /** A path built by RecoverStep from an in-range bottom entry is a connected
      vertical seam: every entry is in range and within one column of the next. */
  lemma RecoveredPathIsSeam(t: seq<nat>, height: nat, width: nat, p: seq<int>)
    requires 1 <= height && 1 <= width && |t| == Mul(height, width) && |p| == height
    requires forall j :: 0 <= j < height ==> 0 <= p[j] < width
    requires forall j :: 0 <= j < height - 1 ==> p[j] == RecoverStep(TableRow(t, height, width, j), p[j + 1])
    ensures IsSeam(p, width, height)
  {
    forall j | 0 <= j < height - 1 ensures IsNeighbour(p[j], p[j + 1], width) {
      assert p[j] == RecoverStep(TableRow(t, height, width, j), p[j + 1]);
    }
  }

  /** Lines 196-205 of recover_path, the bottom row: a strict > against the
      running minimum, which starts at the sentinel, keeps the leftmost minimum. */
  method ScanBottomRow(best: array<nat>, path: array<int>, height: nat, width: nat) returns (xCont: int)
    requires 1 <= height && 1 <= width && best.Length == Mul(height, width) && path.Length == height
    requires BelowSentinel(best[..])
    modifies path
    ensures xCont == path[height - 1] && IsLeftmostMin(TableRow(best[..], height, width, height - 1), xCont)
    ensures forall r :: 0 <= r < height - 1 ==> path[r] == old(path[r])
  {
    ghost var row := TableRow(best[..], height, width, height - 1);
    var j := height - 1;
    var min: nat := Sentinel;
    xCont := 0;
    for i := 0 to width
      invariant 0 <= xCont < width && (i == 0 ==> min == Sentinel && xCont == 0)
      invariant 0 < i ==> 0 <= xCont < i && min == row[xCont] && path[j] == xCont
      invariant forall k :: 0 <= k < i ==> min <= row[k]
      invariant forall k :: 0 <= k < xCont ==> min < row[k]
      invariant forall r :: 0 <= r < height - 1 ==> path[r] == old(path[r])
    {
      if min > best[Cell(width, j, i)] {
        path[j] := i;
        min := best[Cell(width, j, i)];
        xCont := i;
      }
    }
  }

  /** Lines 196-282 of recover_path, a row above the bottom one: records the
      costs of the centre column xCont and of its neighbours as they are met,
      then at the last column picks among them and moves xCont there. */
  method ScanRow(best: array<nat>, path: array<int>, height: nat, width: nat, j: nat, xCont: int) returns (next: int)
    requires 1 <= width && best.Length == Mul(height, width) && path.Length == height
    requires j + 1 < height && 0 <= xCont < width
    requires BelowSentinel(best[..])
    modifies path
    ensures next == path[j] == RecoverStep(TableRow(best[..], height, width, j), xCont)
    ensures forall r :: 0 <= r < height && r != j ==> path[r] == old(path[r])
  {
    ghost var row := TableRow(best[..], height, width, j);
    ghost var c2 := if xCont == 0 then 1 else xCont - 1;
    ghost var hasRight := 0 < xCont < width - 1;
    var min: nat := Sentinel;
    var e1Sum, e2Sum, e3Sum: nat := 0, 0, 0;
    var e1I, e2I, e3I := 0, 0, 0;
    next := xCont;
    for i := 0 to width
      invariant i < width ==> min == Sentinel && next == xCont
      invariant e1Sum == (if xCont < i then row[xCont] else 0) && e1I == (if xCont < i then xCont else 0)
      invariant e2Sum == (if c2 < i then row[c2] else 0) && e2I == (if c2 < i then c2 else 0)
      invariant e3Sum == (if hasRight && xCont + 1 < i then row[xCont + 1] else 0)
      invariant e3I == (if hasRight && xCont + 1 < i then xCont + 1 else 0)
      invariant i == width ==> next == path[j] == RecoverStep(row, xCont)
      invariant forall r :: 0 <= r < height && r != j ==> path[r] == old(path[r])
    {
      if min > best[Cell(width, j, i)] {
        if next == 0 {
          if i == next {
            e1Sum := best[Cell(width, j, i)];
            e1I := i;
          } else if i == next + 1 {
            e2Sum := best[Cell(width, j, i)];
            e2I := i;
          }
        } else if next == width - 1 {
          if i == next {
            e1Sum := best[Cell(width, j, i)];
            e1I := i;
          } else if i == next - 1 {
            e2Sum := best[Cell(width, j, i)];
            e2I := i;
          }
        } else {
          if i == next {
            e1Sum := best[Cell(width, j, i)];
            e1I := i;
          } else if i == next - 1 {
            e2Sum := best[Cell(width, j, i)];
            e2I := i;
          } else if i == next + 1 {
            e3Sum := best[Cell(width, j, i)];
            e3I := i;
          }
        }
      }

      if i == width - 1 {
        if e3Sum == 0 {
          min := Min2(e1Sum, e2Sum);
          if min == e1Sum {
            path[j] := e1I;
            next := e1I;
          } else {
            path[j] := e2I;
            next := e2I;
          }
        } else {
          min := Min3(e1Sum, e2Sum, e3Sum);
          if min == e1Sum {
            path[j] := e1I;
            next := e1I;
          } else if min == e2Sum {
            path[j] := e2I;
            next := e2I;
          } else {
            path[j] := e3I;
            next := e3I;
          }
        }
      }
    }
  }

  /** No zero right cost hides a neighbour anywhere along path p. */
  ghost predicate NoHiddenRight(g: seq<seq<nat>>, width: nat, p: seq<int>)
    requires IsGrid(g, width) && 2 <= width && |p| == |g|
  {
    forall j :: 0 <= j < |g| - 1 && 0 < p[j + 1] < width - 1 ==> CostRow(g, width, j)[p[j + 1] + 1] != 0
  }

  /** A path recover_path reads off the cost table of g is the carved seam of g,
      and so of minimum energy, whenever no zero right cost hides a neighbour
      along it. */
  lemma RecoveredSeamIsCarvedSeam(t: seq<nat>, g: seq<seq<nat>>, height: nat, width: nat, p: seq<int>)
    requires 2 <= width && IsGrid(g, width) && |g| == height && |t| == Mul(height, width)
    requires IsCostTable(t, g, height, width)
    requires |p| == height && forall j :: 0 <= j < height ==> 0 <= p[j] < width
    requires IsLeftmostMin(TableRow(t, height, width, height - 1), p[height - 1])
    requires forall j :: 0 <= j < height - 1 ==> p[j] == RecoverStep(TableRow(t, height, width, j), p[j + 1])
    requires NoHiddenRight(g, width, p)
    ensures IsCarvedSeam(g, width, p) && IsSeam(p, width, height)
    ensures forall q :: IsSeam(q, width, height) ==> SeamEnergy(g, width, p) <= SeamEnergy(g, width, q)
  {
    SeamCarvingWasm.TableRowsAreCostRows(t, g, height, width);
    RecoveredRowsAreBacktracked(g, width, p);
    CarvedSeamIsMinimal(g, width, p);
  }

  /** Row by row, where no zero right cost hides a neighbour, the steps of
      recover_path over the cost rows of g are the backtracking steps. */
  lemma RecoveredRowsAreBacktracked(g: seq<seq<nat>>, width: nat, p: seq<int>)
    requires 2 <= width && IsGrid(g, width) && |p| == |g| && forall j :: 0 <= j < |g| ==> 0 <= p[j] < width
    requires forall j :: 0 <= j < |g| - 1 ==> p[j] == RecoverStep(CostRow(g, width, j), p[j + 1])
    requires NoHiddenRight(g, width, p)
    ensures forall j :: 0 <= j < |g| - 1 ==> IsBacktrackedRow(g, width, p, j)
  {
    forall j | 0 <= j < |g| - 1 ensures IsBacktrackedRow(g, width, p, j) {
      RecoverStepIsBacktrackStep(CostRow(g, width, j), p[j + 1]);
    }
  }

  /** An energy image with channel-0 rows [3, 5, 0] and [9, 0, 9]: its cost
      table has rows [3, 5, 0] and [12, 0, 9]; recover_path starts at column 1
      and steps to column 0 (total energy 3), while the seam [2, 1] has energy 0. */
  lemma RecoveredSeamNotMinimal()
    ensures var g := [[3, 5, 0], [9, 0, 9]];
      IsGrid(g, 3) &&
      CostRow(g, 3, 0) == [3, 5, 0] && CostRow(g, 3, 1) == [12, 0, 9] &&
      IsLeftmostMin(CostRow(g, 3, 1), 1) &&
      RecoverStep(CostRow(g, 3, 0), 1) == 0 &&
      IsSeam([0, 1], 3, 2) && IsSeam([2, 1], 3, 2) &&
      SeamEnergy(g, 3, [0, 1]) == 3 && SeamEnergy(g, 3, [2, 1]) == 0
  {
    var g := [[3, 5, 0], [9, 0, 9]];
    var r0 := CostRow(g, 3, 0);
    assert r0[0] == 3 && r0[1] == 5 && r0[2] == 0;
    assert r0 == [3, 5, 0];
    var r1 := CostRow(g, 3, 1);
    assert r1[0] == 12 && r1[1] == 0 && r1[2] == 9;
    assert r1 == [12, 0, 9];
  }

  /** Lines 299-322 of remove_seam: a fresh image one column narrower whose row
      j holds the R, G and B of row j of src without the pixel at column path[j];
      columns left of it keep their index, the others move one to the left. */
  method RemoveSeam(src: RgbImage, path: array<int>) returns (dest: RgbImage)
    requires src.Valid() && 1 <= src.width
    requires path.Length == src.height && forall j :: 0 <= j < src.height ==> 0 <= path[j] < src.width
    ensures fresh(dest) && fresh(dest.raster) && dest.Valid()
    ensures dest.height == src.height && dest.width == src.width - 1
    ensures IsRgbCarved(dest.raster[..], src.raster[..], path[..], src.height, src.width)
  {
    var height, width := src.height, src.width;
    dest := new RgbImage(height, width - 1);
    OffsetsInRaster(height, width);
    OffsetsInRaster(height, width - 1);
    for j := 0 to height
      invariant forall y: nat, x: nat, c: nat {:trigger Offset(width - 1, y, x, c)} :: y < j && x < width - 1 && c < 3 ==>
        dest.raster[Offset(width - 1, y, x, c)] == src.raster[Offset(width, y, SeamSource(path[y], x), c)]
    {
      RemoveSeamRow(src.raster, dest.raster, height, width, j, path[j]);
    }
  }

  /** The R, G and B of every pixel of out are those of the pixel of src that
      SeamSource maps it to, row j losing column seam[j]. */
  ghost predicate IsRgbCarved(out: seq<byte>, src: seq<byte>, seam: seq<int>, height: nat, width: nat)
    requires 1 <= width && |src| == Size(height, width) && |out| == Size(height, width - 1)
    requires |seam| == height && forall j :: 0 <= j < height ==> 0 <= seam[j] < width
  {
    OffsetsInRaster(height, width);
    OffsetsInRaster(height, width - 1);
    forall j: nat, x: nat, c: nat {:trigger Offset(width - 1, j, x, c)} :: j < height && x < width - 1 && c < 3 ==>
      out[Offset(width - 1, j, x, c)] == src[Offset(width, j, SeamSource(seam[j], x), c)]
  }

  /** Lines 302-321 of remove_seam: every column i of row j but the seam is
      written to column KeptColumn(seamCol, i) of dest. The alpha bytes of row j
      and every byte of the other rows keep their values. */
  method RemoveSeamRow(src: array<byte>, dest: array<byte>, height: nat, width: nat, j: nat, seamCol: int)
    requires 1 <= width && src.Length == Size(height, width) && dest.Length == Size(height, width - 1)
    requires j < height && 0 <= seamCol < width && src != dest
    modifies dest
    ensures forall x: nat, c: nat {:trigger Offset(width - 1, j, x, c)} :: x < width - 1 && c < 4 ==>
      Offset(width - 1, j, x, c) < dest.Length && Offset(width, j, SeamSource(seamCol, x), c) < src.Length &&
      dest[Offset(width - 1, j, x, c)] ==
        if c < 3 then src[Offset(width, j, SeamSource(seamCol, x), c)] else old(dest[Offset(width - 1, j, x, c)])
    ensures forall y: nat, x: nat, c: nat {:trigger Offset(width - 1, y, x, c)} :: y < height && y != j && x < width - 1 && c < 4 ==>
      Offset(width - 1, y, x, c) < dest.Length &&
      dest[Offset(width - 1, y, x, c)] == old(dest[Offset(width - 1, y, x, c)])
  {
    OffsetsInRaster(height, width);
    OffsetsInRaster(height, width - 1);
    ghost var done: nat := 0;
    for i := 0 to width
      invariant done == if i <= seamCol then i else i - 1
      invariant forall x: nat, c: nat {:trigger Offset(width - 1, j, x, c)} :: x < width - 1 && c < 4 ==>
        dest[Offset(width - 1, j, x, c)] ==
          if c < 3 && x < done then src[Offset(width, j, SeamSource(seamCol, x), c)] else old(dest[Offset(width - 1, j, x, c)])
      invariant forall y: nat, x: nat, c: nat {:trigger Offset(width - 1, y, x, c)} :: y < height && y != j && x < width - 1 && c < 4 ==>
        dest[Offset(width - 1, y, x, c)] == old(dest[Offset(width - 1, y, x, c)])
    {
      KeepPixel(src, dest, height, width, j, i, seamCol);
      if i != seamCol {
        done := done + 1;
      }
    }
    forall x: nat, c: nat | x < width - 1 && c < 4
      ensures dest[Offset(width - 1, j, x, c)] ==
        if c < 3 then src[Offset(width, j, SeamSource(seamCol, x), c)] else old(dest[Offset(width - 1, j, x, c)])
    {
      assert x < done;
    }
  }

  /** Lines 305-320 of remove_seam, one column: unless column i is the seam, the
      R, G and B of pixel (j, i) of src go to column KeptColumn(seamCol, i) of
      row j of dest; no other byte changes, alpha included. */
  method KeepPixel(src: array<byte>, dest: array<byte>, height: nat, width: nat, j: nat, i: nat, seamCol: int)
    requires 1 <= width && src.Length == Size(height, width) && dest.Length == Size(height, width - 1)
    requires j < height && i < width && 0 <= seamCol < width && src != dest
    modifies dest
    ensures forall y: nat, x: nat, c: nat {:trigger Offset(width - 1, y, x, c)} :: y < height && x < width - 1 && c < 4 ==>
      Offset(width - 1, y, x, c) < dest.Length && Offset(width, j, i, c) < src.Length &&
      dest[Offset(width - 1, y, x, c)] ==
        if c < 3 && i != seamCol && y == j && x == KeptColumn(seamCol, i) then src[Offset(width, j, i, c)]
        else old(dest[Offset(width - 1, y, x, c)])
  {
    OffsetsInRaster(height, width);
    OffsetsInRaster(height, width - 1);
    if i != seamCol {
      var r := GetPixel(src[..], width, j, i, 0);
      var g := GetPixel(src[..], width, j, i, 1);
      var b := GetPixel(src[..], width, j, i, 2);
      if i < seamCol {
        SetRgb(dest, width - 1, j, i, r, g, b);
      } else {
        SetRgb(dest, width - 1, j, i - 1, r, g, b);
      }
    }
  }
}
