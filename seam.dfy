/** The seam solver's mathematics: the cumulative-cost recurrence of the
    dynamic-programming table, the backtracking choice, what a seam is, and
    the proof that the seam the engine extracts has minimum total energy. */
module Seam {
  import opened Raster

  /** min_2: the smaller argument (the first one on a tie). */
  function Min2(e1: nat, e2: nat): (m: nat)
    ensures m <= e1 && m <= e2
    ensures m == e1 || m == e2
  {
    if e1 > e2 then e2 else e1
  }

  /** min_3: the smallest argument, built from min_2. */
  function Min3(e1: nat, e2: nat, e3: nat): (m: nat)
    ensures m <= e1 && m <= e2 && m <= e3
    ensures m == e1 || m == e2 || m == e3
  {
    var subMin := Min2(e1, e2);
    if subMin > e3 then e3 else subMin
  }

  /** Column k is column i or one of its two neighbours, inside a row of the given
      width. The table and the seam never wrap around the edges. */
  predicate IsNeighbour(k: int, i: int, width: nat) {
    0 <= k < width && i - 1 <= k <= i + 1
  }

  /** The smallest cost among the neighbours of column i in the row above, with
      only two candidates at either edge (the table fill's min_2 / min_3 choice). */
  function NeighbourMin(row: seq<nat>, i: nat): (m: nat)
    requires 2 <= |row| && i < |row|
    ensures forall k :: IsNeighbour(k, i, |row|) ==> m <= row[k]
    ensures m == row[i] || (0 < i && m == row[i - 1]) || (i + 1 < |row| && m == row[i + 1])
  {
    if i == 0 then Min2(row[i + 1], row[i])
    else if i == |row| - 1 then Min2(row[i], row[i - 1])
    else Min3(row[i - 1], row[i], row[i + 1])
  }

  /** An energy grid: at least one row, every row of the same width. */
  ghost predicate IsGrid(g: seq<seq<nat>>, width: nat) {
    1 <= |g| && forall r :: 0 <= r < |g| ==> |g[r]| == width
  }

  /** Channel 0 of an energy raster, as a grid of rows: what the table fill reads. */
  ghost function EnergyValues(energyMap: seq<byte>, height: nat, width: nat): (g: seq<seq<nat>>)
    requires |energyMap| == Size(height, width) && 1 <= height
    ensures IsGrid(g, width) && |g| == height
  {
    OffsetsInRaster(height, width);
    seq(height, j requires 0 <= j < height =>
      seq(width, i requires 0 <= i < width => GetPixel(energyMap, width, j, i, 0) as nat))
  }

  /** best[j][i]: row 0 is the energy itself; a later row adds the pixel's energy
      to the smallest cost among its (clamped) neighbours in the row above. */
  ghost function Cost(g: seq<seq<nat>>, width: nat, j: nat, i: nat): nat
    requires IsGrid(g, width) && 2 <= width && j < |g| && i < width
    decreases j, 1
  {
    if j == 0 then g[0][i]
    else g[j][i] + NeighbourMin(CostRow(g, width, j - 1), i)
  }

  /** Row r of the cost table. */
  ghost function CostRow(g: seq<seq<nat>>, width: nat, r: nat): (row: seq<nat>)
    requires IsGrid(g, width) && 2 <= width && r < |g|
    ensures |row| == width
    decreases r, 2
  {
    seq(width, k requires 0 <= k < width => Cost(g, width, r, k))
  }

  /** Row j of a flat height x width table such as best_arr. */
  ghost function TableRow(t: seq<nat>, height: nat, width: nat, j: nat): (row: seq<nat>)
    requires |t| == Mul(height, width) && j < height && 1 <= width
    ensures |row| == width
    ensures forall k :: 0 <= k < width ==> Cell(width, j, k) < |t| && row[k] == t[Cell(width, j, k)]
  {
    CellsInTable(height, width);
    seq(width, k requires 0 <= k < width => t[Cell(width, j, k)])
  }

  /** t is the flat cost table of g: every cell (j, i) holds Cost(g, j, i). */
  ghost predicate IsCostTable(t: seq<nat>, g: seq<seq<nat>>, height: nat, width: nat)
    requires IsGrid(g, width) && |g| == height && 2 <= width && |t| == Mul(height, width)
  {
    CellsInTable(height, width);
    forall j: nat, i: nat {:trigger Cell(width, j, i)} :: j < height && i < width ==>
      t[Cell(width, j, i)] == Cost(g, width, j, i)
  }

  /** Column k holds the leftmost minimum of the row (what a strict-< scan finds). */
  ghost predicate IsLeftmostMin(row: seq<nat>, k: int) {
    0 <= k < |row| &&
    (forall i :: 0 <= i < |row| ==> row[k] <= row[i]) &&
    (forall i :: 0 <= i < k ==> row[k] < row[i])
  }

  /** A row has only one leftmost minimum. */
  lemma LeftmostMinIsUnique(row: seq<nat>, a: int, b: int)
    requires IsLeftmostMin(row, a) && IsLeftmostMin(row, b)
    ensures a == b
  {
    assert row[a] <= row[b] && row[b] <= row[a];
  }

  /** One backtracking step from column p of the row below: stay at p, move left
      only if that is strictly cheaper, then move right only if that is strictly
      cheaper than the best so far. The result is the cheapest neighbour, with
      ties going to the centre and then to the left. */
  function BacktrackStep(row: seq<nat>, p: nat): (c: nat)
    requires p < |row|
    ensures IsNeighbour(c, p, |row|)
    ensures forall k :: IsNeighbour(k, p, |row|) ==> row[c] <= row[k]
    ensures c != p ==> row[c] < row[p]
    ensures c == p + 1 ==> p == 0 || row[p + 1] < row[p - 1]
  {
    var afterLeft := if 0 < p && row[p - 1] < row[p] then p - 1 else p;
    if p < |row| - 1 && row[p + 1] < row[afterLeft] then p + 1 else afterLeft
  }

  /** The three properties in BacktrackStep's contract single out its result:
      any neighbour that is cheapest, that differs from p only when strictly
      cheaper, and that is the right neighbour only when strictly cheaper than
      the left one, is the column BacktrackStep picks. */
  lemma BacktrackStepUnique(row: seq<nat>, p: nat, c: nat)
    requires p < |row| && IsNeighbour(c, p, |row|)
    requires forall k :: IsNeighbour(k, p, |row|) ==> row[c] <= row[k]
    requires c != p ==> row[c] < row[p]
    requires c == p + 1 ==> p == 0 || row[p + 1] < row[p - 1]
    ensures c == BacktrackStep(row, p)
  {
    var b := BacktrackStep(row, p);
    assert row[b] <= row[c] && row[c] <= row[b];
  }

  /** The cost backtracking moves to is the smallest neighbour cost the table fill added. */
  lemma BacktrackStepReachesNeighbourMin(row: seq<nat>, p: nat)
    requires 2 <= |row| && p < |row|
    ensures row[BacktrackStep(row, p)] == NeighbourMin(row, p)
  {
  }

  /** A vertical seam: one column per row, inside the image, each within one
      column of the next row's. */
  ghost predicate IsSeam(p: seq<int>, width: nat, height: nat) {
    |p| == height &&
    (forall j :: 0 <= j < height ==> 0 <= p[j] < width) &&
    (forall j :: 0 <= j < height - 1 ==> IsNeighbour(p[j], p[j + 1], width))
  }

  /** Energy of the first j + 1 rows of a seam. */
  ghost function PathEnergy(g: seq<seq<nat>>, width: nat, p: seq<int>, j: nat): nat
    requires IsGrid(g, width) && IsSeam(p, width, |g|) && j < |g|
  {
    if j == 0 then g[0][p[0]] else PathEnergy(g, width, p, j - 1) + g[j][p[j]]
  }

  /** Total energy of a seam. */
  ghost function SeamEnergy(g: seq<seq<nat>>, width: nat, p: seq<int>): nat
    requires IsGrid(g, width) && IsSeam(p, width, |g|)
  {
    PathEnergy(g, width, p, |g| - 1)
  }

  /** The seam the engine extracts from the cost table of g: the leftmost minimum
      of the bottom row, then one backtracking step per row going up. */
  ghost predicate IsCarvedSeam(g: seq<seq<nat>>, width: nat, p: seq<int>)
    requires IsGrid(g, width) && 2 <= width
  {
    |p| == |g| &&
    IsLeftmostMin(CostRow(g, width, |g| - 1), p[|g| - 1]) &&
    forall j :: 0 <= j < |g| - 1 ==> IsBacktrackedRow(g, width, p, j)
  }

  /** Row j of p is the backtracking step from row j + 1. */
  ghost predicate IsBacktrackedRow(g: seq<seq<nat>>, width: nat, p: seq<int>, j: nat)
    requires IsGrid(g, width) && 2 <= width && |p| == |g| && j + 1 < |g|
  {
    0 <= p[j + 1] < width && p[j] == BacktrackStep(CostRow(g, width, j), p[j + 1])
  }

  lemma CarvedSeamIsSeam(g: seq<seq<nat>>, width: nat, p: seq<int>)
    requires IsGrid(g, width) && 2 <= width && IsCarvedSeam(g, width, p)
    ensures IsSeam(p, width, |g|)
  {
    forall j | 0 <= j < |g| - 1 ensures 0 <= p[j] < width && IsNeighbour(p[j], p[j + 1], width) {
      assert IsBacktrackedRow(g, width, p, j);
    }
  }

  /** No seam ending at (j, p[j]) costs less than the table entry there. */
  lemma {:induction false} CostIsLowerBound(g: seq<seq<nat>>, width: nat, p: seq<int>, j: nat)
    requires IsGrid(g, width) && 2 <= width && IsSeam(p, width, |g|) && j < |g|
    ensures Cost(g, width, j, p[j]) <= PathEnergy(g, width, p, j)
  {
    if j > 0 {
      CostIsLowerBound(g, width, p, j - 1);
      var row := CostRow(g, width, j - 1);
      assert IsNeighbour(p[j - 1], p[j], width);
      assert NeighbourMin(row, p[j]) <= row[p[j - 1]];
    }
  }

  /** Along the carved seam every table entry is exactly the energy of the seam so far. */
  lemma {:induction false} CarvedSeamMeetsCost(g: seq<seq<nat>>, width: nat, p: seq<int>, j: nat)
    requires IsGrid(g, width) && 2 <= width && IsCarvedSeam(g, width, p) && j < |g|
    ensures IsSeam(p, width, |g|)
    ensures PathEnergy(g, width, p, j) == Cost(g, width, j, p[j])
  {
    CarvedSeamIsSeam(g, width, p);
    if j > 0 {
      CarvedSeamMeetsCost(g, width, p, j - 1);
      assert IsBacktrackedRow(g, width, p, j - 1);
      var row := CostRow(g, width, j - 1);
      BacktrackStepReachesNeighbourMin(row, p[j]);
    }
  }

  /** The carved seam is a seam, its energy is the bottom-row minimum of the
      cost table, and no seam of the image has smaller energy. */
  lemma CarvedSeamIsMinimal(g: seq<seq<nat>>, width: nat, p: seq<int>)
    requires IsGrid(g, width) && 2 <= width && IsCarvedSeam(g, width, p)
    ensures IsSeam(p, width, |g|)
    ensures SeamEnergy(g, width, p) == Cost(g, width, |g| - 1, p[|g| - 1])
    ensures forall q :: IsSeam(q, width, |g|) ==> SeamEnergy(g, width, p) <= SeamEnergy(g, width, q)
  {
    var h := |g|;
    CarvedSeamMeetsCost(g, width, p, h - 1);
    forall q | IsSeam(q, width, h) ensures SeamEnergy(g, width, p) <= SeamEnergy(g, width, q) {
      CostIsLowerBound(g, width, q, h - 1);
      assert CostRow(g, width, h - 1)[p[h - 1]] <= CostRow(g, width, h - 1)[q[h - 1]];
    }
  }

  /** The carved seam is determined by the grid: extraction is deterministic. */
  lemma CarvedSeamIsUnique(g: seq<seq<nat>>, width: nat, p: seq<int>, q: seq<int>)
    requires IsGrid(g, width) && 2 <= width && IsCarvedSeam(g, width, p) && IsCarvedSeam(g, width, q)
    ensures p == q
  {
    var h := |g|;
    LeftmostMinIsUnique(CostRow(g, width, h - 1), p[h - 1], q[h - 1]);
    CarvedSeamsAgreeAbove(g, width, p, q, 0);
    assert forall r :: 0 <= r < h ==> p[r] == q[r];
  }

  /** Two carved seams that meet at the bottom row agree on every row from j down. */
  lemma {:induction false} CarvedSeamsAgreeAbove(g: seq<seq<nat>>, width: nat, p: seq<int>, q: seq<int>, j: nat)
    requires IsGrid(g, width) && 2 <= width && IsCarvedSeam(g, width, p) && IsCarvedSeam(g, width, q)
    requires p[|g| - 1] == q[|g| - 1] && j < |g|
    ensures forall r :: j <= r < |g| ==> p[r] == q[r]
    decreases |g| - j
  {
    if j < |g| - 1 {
      CarvedSeamsAgreeAbove(g, width, p, q, j + 1);
      assert IsBacktrackedRow(g, width, p, j) && IsBacktrackedRow(g, width, q, j);
    }
  }

  /** The source column that lands in column x of a row once column seamCol is
      removed: columns left of the seam keep their place, the others move one
      to the left. It never picks the seam, and it keeps the row's order. */
  function SeamSource(seamCol: int, x: nat): (i: nat)
    ensures i != seamCol
    ensures i == x || i == x + 1
    ensures i < seamCol <==> x < seamCol
  {
    if x < seamCol then x else x + 1
  }

  /** The column that source column i (not the seam) is written to when column
      seamCol is removed. SeamSource undoes it. */
  function KeptColumn(seamCol: nat, i: nat): (x: nat)
    requires i != seamCol
    ensures SeamSource(seamCol, x) == i
    ensures x < seamCol <==> i < seamCol
  {
    if i < seamCol then i else i - 1
  }

  /** Removing a column is order-preserving: a later output column comes from a
      later source column. */
  lemma SeamSourceIsMonotone(seamCol: int, x: nat, x': nat)
    requires x < x'
    ensures SeamSource(seamCol, x) < SeamSource(seamCol, x')
  {
  }
}
