/** The module called from JavaScript: calc_energy and seam_carve over flat
    RGBA buffers. seam_carve is modelled as its four parts (table fill,
    bottom-row scan, backtracking, copy without the seam) composed by
    SeamCarve in the order of the C function. */
module SeamCarvingWasm {
  import opened Raster
  import opened Energy
  import opened Seam

  /** calc_energy: writes (e, e, e, 255) into every pixel of dest, e being the
      normalised toroidal dual-gradient energy of that pixel of src. */
  method CalcEnergy(src: array<byte>, dest: array<byte>, height: nat, width: nat)
    requires 1 <= height && 1 <= width
    requires src.Length == Size(height, width) && dest.Length == Size(height, width)
    requires src != dest
    modifies dest
    ensures IsEnergyRaster(dest[..], src[..], height, width)
  {
    OffsetsInRaster(height, width);
    var w := width;
    var h := height;
    for j := 0 to h
      invariant forall y: nat, x: nat, c: nat {:trigger Offset(w, y, x, c)} :: y < j && x < w && c < 4 ==>
        dest[Offset(w, y, x, c)] == if c == 3 then 255 else PixelEnergy(src[..], h, w, y, x)
    {
      for i := 0 to w
        invariant forall y: nat, x: nat, c: nat {:trigger Offset(w, y, x, c)} :: (y < j || (y == j && x < i)) && x < w && c < 4 ==>
          dest[Offset(w, y, x, c)] == if c == 3 then 255 else PixelEnergy(src[..], h, w, y, x)
      {
        WritePixelEnergy(src, dest, h, w, j, i);
      }
    }
  }

  /** Lines 56-79 of calc_energy, one pixel: pixel (j, i) of dest becomes
      (e, e, e, 255), e being the energy of that pixel of src; no other byte
      of dest changes. */
  method WritePixelEnergy(src: array<byte>, dest: array<byte>, h: nat, w: nat, j: nat, i: nat)
    requires j < h && i < w && src.Length == dest.Length == Size(h, w) && src != dest
    modifies dest
    ensures forall y: nat, x: nat, c: nat {:trigger Offset(w, y, x, c)} :: y < h && x < w && c < 4 ==>
      Offset(w, y, x, c) < dest.Length &&
      dest[Offset(w, y, x, c)] ==
        if y == j && x == i then (if c == 3 then 255 else PixelEnergy(src[..], h, w, y, x))
        else old(dest[Offset(w, y, x, c)])
  {
    OffsetsInRaster(h, w);
    var grad2 := GradientAt(src, h, w, j, i);
    var energy := ISqrt(grad2);
    ISqrtBound(grad2);
    var energyNorm := energy / 10;
    assert energyNorm == PixelEnergy(src[..], h, w, j, i);
    SetPixel(dest, w, j, i, energyNorm, energyNorm, energyNorm, 255);
  }

  /** Lines 56-73 of calc_energy: the wrapped neighbours of pixel (j, i) and the
      squared gradient summed over R, G and B in both directions. */
  method GradientAt(src: array<byte>, h: nat, w: nat, j: nat, i: nat) returns (grad2: nat)
    requires j < h && i < w && src.Length == Size(h, w)
    ensures grad2 == GradientSq(src[..], h, w, j, i)
  {
    var kLeft := if i == 0 then w - 1 else i - 1;
    var kRight := if i == w - 1 then 0 else i + 1;
    var kUp := if j == 0 then h - 1 else j - 1;
    var kDown := if j == h - 1 then 0 else j + 1;
    CellInTable(h, w, j, kLeft);
    CellInTable(h, w, j, kRight);
    CellInTable(h, w, kUp, i);
    CellInTable(h, w, kDown, i);

    var gradX2 := ColourGradient(src, w, j, kRight, j, kLeft);
    var gradY2 := ColourGradient(src, w, kUp, i, kDown, i);
    grad2 := gradX2 + gradY2;
    assert kLeft == WrapPrev(i, w) && kRight == WrapNext(i, w);
    assert kUp == WrapPrev(j, h) && kDown == WrapNext(j, h);
  }

  /** One direction of calc_energy's gradient (lines 62-64 with 72, or 67-69
      with 73): the channel differences between pixels (y, x) and (y', x') of
      src, squared and summed over R, G and B. */
  method ColourGradient(src: array<byte>, w: nat, y: nat, x: nat, y': nat, x': nat) returns (grad2: nat)
    requires x < w && x' < w && Offset(w, y, x, 3) < src.Length && Offset(w, y', x', 3) < src.Length
    ensures grad2 == ColourDist2(src[..], w, y, x, y', x')
  {
    var r := GetPixel(src[..], w, y, x, 0) - GetPixel(src[..], w, y', x', 0);
    var g := GetPixel(src[..], w, y, x, 1) - GetPixel(src[..], w, y', x', 1);
    var b := GetPixel(src[..], w, y, x, 2) - GetPixel(src[..], w, y', x', 2);
    grad2 := r * r + g * g + b * b;
    Diff2IsSquare(GetPixel(src[..], w, y, x, 0), GetPixel(src[..], w, y', x', 0));
    Diff2IsSquare(GetPixel(src[..], w, y, x, 1), GetPixel(src[..], w, y', x', 1));
    Diff2IsSquare(GetPixel(src[..], w, y, x, 2), GetPixel(src[..], w, y', x', 2));
  }

  /** Lines 95-127 of seam_carve: best[j][i] is the cumulative cost table of the
      energy map's channel 0. */
  method FillTable(energyMap: array<byte>, best: array<nat>, height: nat, width: nat)
    requires 1 <= height && 2 <= width
    requires energyMap.Length == Size(height, width) && best.Length == Mul(height, width)
    modifies best
    ensures IsCostTable(best[..], EnergyValues(energyMap[..], height, width), height, width)
  {
    ghost var g := EnergyValues(energyMap[..], height, width);
    OffsetsInRaster(height, width);
    CellsInTable(height, width);
    for i := 0 to width
      invariant forall k: nat {:trigger Cell(width, 0, k)} :: k < i ==> best[Cell(width, 0, k)] == Cost(g, width, 0, k)
    {
      best[Cell(width, 0, i)] := GetPixel(energyMap[..], width, 0, i, 0);
    }

    for j := 1 to height
      invariant forall r: nat, k: nat {:trigger Cell(width, r, k)} :: r < j && k < width ==>
        best[Cell(width, r, k)] == Cost(g, width, r, k)
    {
      ghost var above := CostRow(g, width, j - 1);
      FillRow(energyMap, best, height, width, j, above);
      CostFromRowAbove(energyMap[..], g, height, width, j);
    }
  }

  /** A later row of the cost recurrence, in the terms the table fill reads:
      channel 0 of the energy map plus the neighbour minimum of the row above. */
  lemma CostFromRowAbove(energyMap: seq<byte>, g: seq<seq<nat>>, height: nat, width: nat, j: nat)
    requires 2 <= width && 1 <= j < height && |energyMap| == Size(height, width)
    requires g == EnergyValues(energyMap, height, width)
    ensures forall k: nat {:trigger Cost(g, width, j, k)} :: k < width ==>
      Offset(width, j, k, 0) < |energyMap| &&
      Cost(g, width, j, k) == GetPixel(energyMap, width, j, k, 0) + NeighbourMin(CostRow(g, width, j - 1), k)
  {
    OffsetsInRaster(height, width);
  }

  /** Lines 101-126 of seam_carve: row j of the table from row j - 1 (which
      holds above) and the energy map; no other row changes. */
  method FillRow(energyMap: array<byte>, best: array<nat>, height: nat, width: nat, j: nat, ghost above: seq<nat>)
    requires 2 <= width && 1 <= j < height && |above| == width
    requires energyMap.Length == Size(height, width) && best.Length == Mul(height, width)
    requires forall k: nat {:trigger Cell(width, j - 1, k)} :: k < width ==>
      Cell(width, j - 1, k) < best.Length && best[Cell(width, j - 1, k)] == above[k]
    modifies best
    ensures forall k: nat {:trigger Cell(width, j, k)} :: k < width ==>
      Cell(width, j, k) < best.Length && Offset(width, j, k, 0) < energyMap.Length &&
      best[Cell(width, j, k)] == GetPixel(energyMap[..], width, j, k, 0) + NeighbourMin(above, k)
    ensures forall r: nat, k: nat {:trigger Cell(width, r, k)} :: r < height && r != j && k < width ==>
      Cell(width, r, k) < best.Length && best[Cell(width, r, k)] == old(best[Cell(width, r, k)])
  {
    OffsetsInRaster(height, width);
    CellsInTable(height, width);
    for i := 0 to width
      invariant forall k: nat {:trigger Cell(width, j, k)} :: k < i ==>
        best[Cell(width, j, k)] == GetPixel(energyMap[..], width, j, k, 0) + NeighbourMin(above, k)
      invariant forall r: nat, k: nat {:trigger Cell(width, r, k)} :: r < height && r != j && k < width ==>
        best[Cell(width, r, k)] == old(best[Cell(width, r, k)])
    {
      FillCell(energyMap, best, height, width, j, i, above);
    }
  }

  /** Lines 102-125 of seam_carve, one iteration: best[j][i] becomes the pixel's
      energy plus the smallest neighbouring cost above; no other cell changes. */
  method FillCell(energyMap: array<byte>, best: array<nat>, height: nat, width: nat, j: nat, i: nat,
                  ghost above: seq<nat>)
    requires 2 <= width && 1 <= j < height && i < width && |above| == width
    requires energyMap.Length == Size(height, width) && best.Length == Mul(height, width)
    requires forall k: nat {:trigger Cell(width, j - 1, k)} :: k < width ==>
      Cell(width, j - 1, k) < best.Length && best[Cell(width, j - 1, k)] == above[k]
    modifies best
    ensures Cell(width, j, i) < best.Length && Offset(width, j, i, 0) < energyMap.Length
    ensures best[Cell(width, j, i)] == GetPixel(energyMap[..], width, j, i, 0) + NeighbourMin(above, i)
    ensures forall r: nat, k: nat {:trigger Cell(width, r, k)} :: r < height && k < width && (r, k) != (j, i) ==>
      Cell(width, r, k) < best.Length && best[Cell(width, r, k)] == old(best[Cell(width, r, k)])
  {
    OffsetsInRaster(height, width);
    CellsInTable(height, width);
    var cur := GetPixel(energyMap[..], width, j, i, 0);
    var min := MinAbove(best, height, width, j, i, above);
    best[Cell(width, j, i)] := cur + min;
    forall r: nat, k: nat | r < height && k < width && (r, k) != (j, i)
      ensures Cell(width, r, k) != Cell(width, j, i)
    {
      if Cell(width, r, k) == Cell(width, j, i) {
        CellInjective(width, r, k, j, i);
      }
    }
  }

  /** Lines 102-123 of seam_carve: the smallest of the two or three entries of
      row j - 1 (which holds above) that neighbour column i. */
  method MinAbove(best: array<nat>, height: nat, width: nat, j: nat, i: nat, ghost above: seq<nat>)
    returns (min: nat)
    requires 2 <= width && best.Length == Mul(height, width) && 1 <= j < height && i < width
    requires |above| == width
    requires forall k: nat {:trigger Cell(width, j - 1, k)} :: k < width ==>
      Cell(width, j - 1, k) < best.Length && best[Cell(width, j - 1, k)] == above[k]
    ensures min == NeighbourMin(above, i)
  {
    if i == 0 {
      var e1 := best[Cell(width, j - 1, i + 1)];
      var e2 := best[Cell(width, j - 1, i)];
      min := Min2(e1, e2);
    } else if i == width - 1 {
      var e1 := best[Cell(width, j - 1, i)];
      var e2 := best[Cell(width, j - 1, i - 1)];
      min := Min2(e1, e2);
    } else {
      var e1 := best[Cell(width, j - 1, i - 1)];
      var e2 := best[Cell(width, j - 1, i)];
      var e3 := best[Cell(width, j - 1, i + 1)];
      min := Min3(e1, e2, e3);
    }
  }

  /** Lines 133-142 of seam_carve: the leftmost column of minimum cost in the
      bottom row (a strict < keeps the first minimum). */
  method BottomArgmin(best: array<nat>, height: nat, width: nat) returns (minIdx: nat)
    requires 1 <= height && 1 <= width && best.Length == Mul(height, width)
    ensures IsLeftmostMin(TableRow(best[..], height, width, height - 1), minIdx)
  {
    ghost var row := TableRow(best[..], height, width, height - 1);
    var minEnergy := best[Cell(width, height - 1, 0)];
    minIdx := 0;
    for i := 1 to width
      invariant minIdx < i && minEnergy == row[minIdx]
      invariant forall k :: 0 <= k < i ==> minEnergy <= row[k]
      invariant forall k :: 0 <= k < minIdx ==> minEnergy < row[k]
    {
      if best[Cell(width, height - 1, i)] < minEnergy {
        minEnergy := best[Cell(width, height - 1, i)];
        minIdx := i;
      }
    }
  }

  /** Lines 145-165 of seam_carve: from path[height - 1] upwards, path[j] is the
      backtracking step from path[j + 1] over row j of the table. */
  method Backtrack(best: array<nat>, path: array<int>, height: nat, width: nat)
    requires 1 <= height && 1 <= width && best.Length == Mul(height, width) && path.Length == height
    requires 0 <= path[height - 1] < width
    modifies path
    ensures path[height - 1] == old(path[height - 1])
    ensures forall j :: 0 <= j < height ==> 0 <= path[j] < width
    ensures forall j :: 0 <= j < height - 1 ==> path[j] == BacktrackStep(TableRow(best[..], height, width, j), path[j + 1])
  {
    ghost var t := best[..];
    var j: int := height - 2;
    while j >= 0
      invariant -1 <= j <= height - 2
      invariant path[height - 1] == old(path[height - 1])
      invariant forall r :: j < r < height ==> 0 <= path[r] < width
      invariant forall r :: j < r < height - 1 ==> path[r] == BacktrackStep(TableRow(t, height, width, r), path[r + 1])
    {
      var minIdx := StepUp(best, height, width, j, path[j + 1]);
      path[j] := minIdx;
      j := j - 1;
    }
    assert best[..] == t;
  }

  /** Lines 146-162 of seam_carve: the column of row j that backtracking moves
      to from column prevIdx of row j + 1. */
  method StepUp(best: array<nat>, height: nat, width: nat, j: nat, prevIdx: int) returns (minIdx: int)
    requires 1 <= width && best.Length == Mul(height, width) && j < height && 0 <= prevIdx < width
    ensures IsNeighbour(minIdx, prevIdx, width)
    ensures minIdx == BacktrackStep(TableRow(best[..], height, width, j), prevIdx)
  {
    ghost var row := TableRow(best[..], height, width, j);
    minIdx := prevIdx;
    var minEnergy := best[Cell(width, j, prevIdx)];

    if prevIdx > 0 {
      if best[Cell(width, j, prevIdx - 1)] < minEnergy {
        minEnergy := best[Cell(width, j, prevIdx - 1)];
        minIdx := prevIdx - 1;
      }
    }

    if prevIdx < width - 1 {
      if best[Cell(width, j, prevIdx + 1)] < minEnergy {
        minEnergy := best[Cell(width, j, prevIdx + 1)];
        minIdx := prevIdx + 1;
      }
    }
  }

  /** out is src with the pixel at column seam[j] removed from every row j, the
      pixels on either side of it keeping their order. */
  ghost predicate IsCarvedRaster(out: seq<byte>, src: seq<byte>, seam: seq<int>, height: nat, width: nat)
    requires 1 <= width && |src| == Size(height, width) && |out| == Size(height, width - 1)
    requires |seam| == height && forall j :: 0 <= j < height ==> 0 <= seam[j] < width
  {
    OffsetsInRaster(height, width);
    OffsetsInRaster(height, width - 1);
    forall j: nat, x: nat, c: nat {:trigger Offset(width - 1, j, x, c)} :: j < height && x < width - 1 && c < 4 ==>
      out[Offset(width - 1, j, x, c)] == src[Offset(width, j, SeamSource(seam[j], x), c)]
  }

  /** Lines 171-183 of seam_carve: output row j is source row j without the
      pixel at column path[j]; all four channels are copied. */
  method CopyWithoutSeam(src: array<byte>, path: array<int>, output: array<byte>, height: nat, width: nat)
    requires 1 <= width && src.Length == Size(height, width) && output.Length == Size(height, width - 1)
    requires path.Length == height && forall j :: 0 <= j < height ==> 0 <= path[j] < width
    requires src != output
    modifies output
    ensures IsCarvedRaster(output[..], src[..], path[..], height, width)
  {
    OffsetsInRaster(height, width);
    OffsetsInRaster(height, width - 1);
    for j := 0 to height
      invariant forall y: nat, x: nat, c: nat {:trigger Offset(width - 1, y, x, c)} :: y < j && x < width - 1 && c < 4 ==>
        output[Offset(width - 1, y, x, c)] == src[Offset(width, y, SeamSource(path[y], x), c)]
    {
      CopyRow(src, output, height, width, j, path[j]);
    }
  }

  /** Lines 172-182 of seam_carve: row j of output is row j of src without the
      pixel at column seamCol; no other row of output changes. */
  method CopyRow(src: array<byte>, output: array<byte>, height: nat, width: nat, j: nat, seamCol: int)
    requires 1 <= width && src.Length == Size(height, width) && output.Length == Size(height, width - 1)
    requires j < height && 0 <= seamCol < width && src != output
    modifies output
    ensures forall x: nat, c: nat {:trigger Offset(width - 1, j, x, c)} :: x < width - 1 && c < 4 ==>
      Offset(width - 1, j, x, c) < output.Length && Offset(width, j, SeamSource(seamCol, x), c) < src.Length &&
      output[Offset(width - 1, j, x, c)] == src[Offset(width, j, SeamSource(seamCol, x), c)]
    ensures forall y: nat, x: nat, c: nat {:trigger Offset(width - 1, y, x, c)} :: y < height && y != j && x < width - 1 && c < 4 ==>
      Offset(width - 1, y, x, c) < output.Length &&
      output[Offset(width - 1, y, x, c)] == old(output[Offset(width - 1, y, x, c)])
  {
    OffsetsInRaster(height, width);
    OffsetsInRaster(height, width - 1);
    var newCol := 0;
    for i := 0 to width
      invariant newCol == if i <= seamCol then i else i - 1
      invariant forall x: nat, c: nat {:trigger Offset(width - 1, j, x, c)} :: x < newCol && c < 4 ==>
        output[Offset(width - 1, j, x, c)] == src[Offset(width, j, SeamSource(seamCol, x), c)]
      invariant forall y: nat, x: nat, c: nat {:trigger Offset(width - 1, y, x, c)} :: y < height && y != j && x < width - 1 && c < 4 ==>
        output[Offset(width - 1, y, x, c)] == old(output[Offset(width - 1, y, x, c)])
    {
      if i != seamCol {
        CopyPixel(src, output, height, width, j, i, newCol);
        newCol := newCol + 1;
      }
    }
    forall x: nat, c: nat | x < width - 1 && c < 4
      ensures output[Offset(width - 1, j, x, c)] == src[Offset(width, j, SeamSource(seamCol, x), c)]
    {
      assert x < newCol;
    }
  }

  /** Lines 174-180 of seam_carve: all four channels of pixel (j, i) of src go
      to pixel (j, newCol) of output; nothing else changes. */
  method CopyPixel(src: array<byte>, output: array<byte>, height: nat, width: nat, j: nat, i: nat, newCol: nat)
    requires 1 <= width && src.Length == Size(height, width) && output.Length == Size(height, width - 1)
    requires j < height && i < width && newCol < width - 1 && src != output
    modifies output
    ensures forall y: nat, x: nat, c: nat {:trigger Offset(width - 1, y, x, c)} :: y < height && x < width - 1 && c < 4 ==>
      Offset(width - 1, y, x, c) < output.Length && Offset(width, j, i, c) < src.Length &&
      output[Offset(width - 1, y, x, c)] ==
        if y == j && x == newCol then src[Offset(width, j, i, c)] else old(output[Offset(width - 1, y, x, c)])
  {
    OffsetsInRaster(height, width);
    OffsetsInRaster(height, width - 1);
    SetPixel(output, width - 1, j, newCol,
             GetPixel(src[..], width, j, i, 0),
             GetPixel(src[..], width, j, i, 1),
             GetPixel(src[..], width, j, i, 2),
             GetPixel(src[..], width, j, i, 3));
  }

  /** seam_carve: removes the seam of minimum total energy (the leftmost minimum
      of the bottom row, backtracked upwards) and returns a fresh raster one
      column narrower. The seam itself is returned as a ghost value. */
  method SeamCarve(src: array<byte>, height: nat, width: nat) returns (output: array<byte>, ghost seam: seq<int>)
    requires 1 <= height && 2 <= width && src.Length == Size(height, width)
    ensures fresh(output) && output.Length == Size(height, width - 1)
    ensures IsCarvedSeam(EnergyGrid(src[..], height, width), width, seam)
    ensures IsSeam(seam, width, height)
    ensures forall q :: IsSeam(q, width, height) ==>
      SeamEnergy(EnergyGrid(src[..], height, width), width, seam) <= SeamEnergy(EnergyGrid(src[..], height, width), width, q)
    ensures IsCarvedRaster(output[..], src[..], seam, height, width)
  {
    var path := FindSeam(src, height, width);
    seam := path[..];
    output := new byte[Size(height, width - 1)];
    CopyWithoutSeam(src, path, output, height, width);
  }

  /** Lines 87-165 of seam_carve: the cost table of the energy grid of src and
      the path read off it, which is the carved seam of that grid and so a seam
      of minimum total energy. */
  method FindSeam(src: array<byte>, height: nat, width: nat) returns (path: array<int>)
    requires 1 <= height && 2 <= width && src.Length == Size(height, width)
    ensures fresh(path)
    ensures IsCarvedSeam(EnergyGrid(src[..], height, width), width, path[..])
    ensures IsSeam(path[..], width, height)
    ensures forall q :: IsSeam(q, width, height) ==>
      SeamEnergy(EnergyGrid(src[..], height, width), width, path[..]) <= SeamEnergy(EnergyGrid(src[..], height, width), width, q)
  {
    ghost var g := EnergyGrid(src[..], height, width);
    var best := EnergyCostTable(src, height, width);
    ghost var t := best[..];

    path := new int[height];
    var minIdx := BottomArgmin(best, height, width);
    path[height - 1] := minIdx;
    Backtrack(best, path, height, width);
    assert best[..] == t;
    TableSeamIsCarvedSeam(t, g, height, width, path[..]);
    CarvedSeamIsMinimal(g, width, path[..]);
  }

  /** Lines 87-127 of seam_carve: the energy map of src and the cost table
      filled from its channel 0, which is the cost table of the energy grid. */
  method EnergyCostTable(src: array<byte>, height: nat, width: nat) returns (best: array<nat>)
    requires 1 <= height && 2 <= width && src.Length == Size(height, width)
    ensures fresh(best) && best.Length == Mul(height, width)
    ensures IsCostTable(best[..], EnergyGrid(src[..], height, width), height, width)
  {
    var energyMap := new byte[Size(height, width)];
    CalcEnergy(src, energyMap, height, width);
    EnergyValuesOfCalcEnergy(src[..], energyMap[..], height, width);
    ghost var e := energyMap[..];

    best := new nat[Mul(height, width)];
    FillTable(energyMap, best, height, width);
    assert energyMap[..] == e;
  }

  /** The energy grid of a raster: PixelEnergy of every pixel. */
  ghost function EnergyGrid(src: seq<byte>, height: nat, width: nat): (g: seq<seq<nat>>)
    requires |src| == Size(height, width) && 1 <= height
    ensures IsGrid(g, width) && |g| == height
    ensures forall j, i :: 0 <= j < height && 0 <= i < width ==> g[j][i] <= MaxEnergy
  {
    seq(height, j requires 0 <= j < height =>
      seq(width, i requires 0 <= i < width => PixelEnergy(src, height, width, j, i)))
  }

  /** Reading channel 0 back from a raster calc_energy wrote gives the energy grid. */
  lemma EnergyValuesOfCalcEnergy(src: seq<byte>, energyMap: seq<byte>, height: nat, width: nat)
    requires 1 <= height && 1 <= width && |src| == |energyMap| == Size(height, width)
    requires IsEnergyInRgb(energyMap, src, height, width)
    ensures EnergyValues(energyMap, height, width) == EnergyGrid(src, height, width)
  {
    OffsetsInRaster(height, width);
    var a, b := EnergyValues(energyMap, height, width), EnergyGrid(src, height, width);
    forall j | 0 <= j < height ensures a[j] == b[j] {
      forall i | 0 <= i < width ensures a[j][i] == b[j][i] {
        assert energyMap[Offset(width, j, i, 0)] == PixelEnergy(src, height, width, j, i);
      }
    }
  }

  /** A table that holds Cost(g) in every cell has the cost rows of g as its rows. */
  lemma TableRowsAreCostRows(t: seq<nat>, g: seq<seq<nat>>, height: nat, width: nat)
    requires 2 <= width && IsGrid(g, width) && |g| == height && |t| == Mul(height, width)
    requires IsCostTable(t, g, height, width)
    ensures forall j :: 0 <= j < height ==> TableRow(t, height, width, j) == CostRow(g, width, j)
  {
    forall j | 0 <= j < height ensures TableRow(t, height, width, j) == CostRow(g, width, j) {
      var a, b := TableRow(t, height, width, j), CostRow(g, width, j);
      forall i | 0 <= i < width ensures a[i] == b[i] {
      }
    }
  }

  /** The path read off a cost table of g, by the leftmost minimum of its bottom
      row and backtracking over its rows, is the carved seam of g. */
  lemma TableSeamIsCarvedSeam(t: seq<nat>, g: seq<seq<nat>>, height: nat, width: nat, p: seq<int>)
    requires 2 <= width && IsGrid(g, width) && |g| == height && |t| == Mul(height, width)
    requires IsCostTable(t, g, height, width)
    requires |p| == height && forall j :: 0 <= j < height ==> 0 <= p[j] < width
    requires IsLeftmostMin(TableRow(t, height, width, height - 1), p[height - 1])
    requires forall j :: 0 <= j < height - 1 ==> p[j] == BacktrackStep(TableRow(t, height, width, j), p[j + 1])
    ensures IsCarvedSeam(g, width, p)
  {
    TableRowsAreCostRows(t, g, height, width);
    forall j | 0 <= j < height - 1 ensures IsBacktrackedRow(g, width, p, j) {
      assert TableRow(t, height, width, j) == CostRow(g, width, j);
    }
  }
}
