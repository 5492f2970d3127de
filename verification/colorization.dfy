/**
 * The colour transfer of the colorization tool: random samples of the
 * source image's L-alpha-beta pixels are drawn without replacement, and
 * every pixel of the (grey) transfer image takes the alpha and beta of
 * the sample whose L is nearest to its neighbourhood luminance (the mean
 * plus the standard deviation of L over a 4 x 4 window).
 *
 * The specification works on the luminance plane: the values of channel
 * 0 of a buffer, which the colour transfer reads and never writes.
 * `sqrt` is a parameter, required to be the square root.
 */
module Colorization {
  import opened Pnm
  import opened ColorSpace

  /** The window reaches PATCH_SIZE rows and columns before the pixel and PATCH_SIZE - 1 after. */
  const PATCH_SIZE := 2

  /** The number of samples drawn from the source image. */
  const SAMPLES := 200

  /** The number of command-line words: the name, `<ims> <imt>` and `<imd>`. */
  const ARGC := 4

  /** `main` stops with its usage message unless it has exactly three arguments. */
  function MainExit(argc: int): (e: Exit)
    ensures e == Usage <==> argc != ARGC
  {
    if argc != ARGC then Usage else Success
  }

  /** The L values of an image, row by row. */
  type Plane = seq<seq<real>>

  predicate IsPlane(L: Plane, cols: nat)
  {
    forall r :: 0 <= r < |L| ==> |L[r]| == cols
  }

  /** Channel 0 of the buffer holds the plane. */
  predicate HoldsPlane(data: Buffer, L: Plane)
    reads data
  {
    data.Length2 == D && |L| == data.Length0 && IsPlane(L, data.Length1) &&
    forall r, c :: 0 <= r < data.Length0 && 0 <= c < data.Length1 ==> data[r, c, 0] == Fin(L[r][c])
  }

  /**
   * `sqrt` is the square root on the non-negative reals: it is
   * non-negative there and undoes squaring a non-negative number.
   */
  ghost predicate IsSqrt(sqrt: real -> real)
  {
    (forall v :: 0.0 <= v ==> 0.0 <= sqrt(v)) &&
    (forall r :: 0.0 <= r ==> sqrt(Square(r)) == r)
  }

  function Square(r: real): real
  {
    r * r
  }

  function Id(v: real): real
  {
    v
  }

  /** The squared deviation from m. */
  function Dev(m: real): real -> real
  {
    v => (v - m) * (v - m)
  }

  /**
   * The inner loop of `compute_luminance` on row i: g of L summed over
   * the columns y - PATCH_SIZE .. j - 1 that lie inside the image.
   */
  function RowAcc(L: Plane, cols: nat, i: int, y: int, j: int, g: real -> real): real
    requires IsPlane(L, cols) && 0 <= i < |L| && y - PATCH_SIZE <= j
    decreases j - (y - PATCH_SIZE)
  {
    if j == y - PATCH_SIZE then 0.0
    else RowAcc(L, cols, i, y, j - 1, g) + (if 0 <= j - 1 < cols then g(L[i][j - 1]) else 0.0)
  }

  /** The outer loop: the rows x - PATCH_SIZE .. i - 1 that lie inside the image. */
  function WinAcc(L: Plane, cols: nat, x: int, y: int, i: int, g: real -> real): real
    requires IsPlane(L, cols) && x - PATCH_SIZE <= i
    decreases i - (x - PATCH_SIZE)
  {
    if i == x - PATCH_SIZE then 0.0
    else WinAcc(L, cols, x, y, i - 1, g) + (if 0 <= i - 1 < |L| then RowAcc(L, cols, i - 1, y, y + PATCH_SIZE, g) else 0.0)
  }

  /** The count `size` of the inner loop. */
  function RowCount(cols: nat, y: int, j: int): nat
    requires y - PATCH_SIZE <= j
    decreases j - (y - PATCH_SIZE)
  {
    if j == y - PATCH_SIZE then 0
    else RowCount(cols, y, j - 1) + (if 0 <= j - 1 < cols then 1 else 0)
  }

  /** The count `size` of the outer loop. */
  function WinCount(rows: nat, cols: nat, x: int, y: int, i: int): nat
    requires x - PATCH_SIZE <= i
    decreases i - (x - PATCH_SIZE)
  {
    if i == x - PATCH_SIZE then 0
    else WinCount(rows, cols, x, y, i - 1) + (if 0 <= i - 1 < rows then RowCount(cols, y, y + PATCH_SIZE) else 0)
  }

  /** How many of the integers in [a, b) lie in [0, n). */
  function Overlap(a: int, b: int, n: nat): nat
  {
    var lo := if a < 0 then 0 else a;
    var hi := if b < n then b else n;
    if lo < hi then hi - lo else 0
  }

  lemma {:induction false} RowCountIsOverlap(cols: nat, y: int, j: int)
    requires y - PATCH_SIZE <= j
    ensures RowCount(cols, y, j) == Overlap(y - PATCH_SIZE, j, cols)
    decreases j - (y - PATCH_SIZE)
  {
    if j > y - PATCH_SIZE {
      RowCountIsOverlap(cols, y, j - 1);
    }
  }

  lemma {:induction false} WinCountIsArea(rows: nat, cols: nat, x: int, y: int, i: int)
    requires x - PATCH_SIZE <= i
    ensures WinCount(rows, cols, x, y, i) == Overlap(x - PATCH_SIZE, i, rows) * Overlap(y - PATCH_SIZE, y + PATCH_SIZE, cols)
    decreases i - (x - PATCH_SIZE)
  {
    RowCountIsOverlap(cols, y, y + PATCH_SIZE);
    if i > x - PATCH_SIZE {
      WinCountIsArea(rows, cols, x, y, i - 1);
      var a, b := Overlap(x - PATCH_SIZE, i - 1, rows), Overlap(y - PATCH_SIZE, y + PATCH_SIZE, cols);
      assert (a + 1) * b == a * b + b;
    }
  }

  /**
   * The window of an in-image pixel is rows x-2 .. x+1 by columns
   * y-2 .. y+1 clipped to the image: it holds between 1 and 16 pixels.
   */
  lemma WindowSize(rows: nat, cols: nat, x: int, y: int)
    requires 0 <= x < rows && 0 <= y < cols
    ensures WinCount(rows, cols, x, y, x + PATCH_SIZE) == Overlap(x - PATCH_SIZE, x + PATCH_SIZE, rows) * Overlap(y - PATCH_SIZE, y + PATCH_SIZE, cols)
    ensures 1 <= WinCount(rows, cols, x, y, x + PATCH_SIZE) <= 16
  {
    WinCountIsArea(rows, cols, x, y, x + PATCH_SIZE);
    var a, b := Overlap(x - PATCH_SIZE, x + PATCH_SIZE, rows), Overlap(y - PATCH_SIZE, y + PATCH_SIZE, cols);
    assert 1 <= a <= 4 && 1 <= b <= 4;
    ProductBounds(a, b);
  }

  lemma ProductBounds(a: nat, b: nat)
    requires 1 <= a <= 4 && 1 <= b <= 4
    ensures 1 <= a * b <= 16
  {
    assert a * b <= 4 * b by {
      assert 4 * b - a * b == (4 - a) * b;
    }
    assert a * b >= b by {
      assert a * b - b == (a - 1) * b;
    }
  }

  /** The average of L over the window of (x, y). */
  function Average(L: Plane, cols: nat, x: int, y: int): real
    requires IsPlane(L, cols) && 0 <= x < |L| && 0 <= y < cols
  {
    WindowSize(|L|, cols, x, y);
    WinAcc(L, cols, x, y, x + PATCH_SIZE, Id) / (WinCount(|L|, cols, x, y, x + PATCH_SIZE) as real)
  }

  /** The (population) variance of L over the window of (x, y). */
  function Variance(L: Plane, cols: nat, x: int, y: int): real
    requires IsPlane(L, cols) && 0 <= x < |L| && 0 <= y < cols
  {
    WindowSize(|L|, cols, x, y);
    (1.0 / WinCount(|L|, cols, x, y, x + PATCH_SIZE) as real) * WinAcc(L, cols, x, y, x + PATCH_SIZE, Dev(Average(L, cols, x, y)))
  }

  /** What `compute_luminance` returns: the window's average plus its standard deviation. */
  function Luminance(L: Plane, cols: nat, x: int, y: int, sqrt: real -> real): real
    requires IsPlane(L, cols) && 0 <= x < |L| && 0 <= y < cols
  {
    Average(L, cols, x, y) + sqrt(Variance(L, cols, x, y))
  }

  lemma {:induction false} RowAccNonNegative(L: Plane, cols: nat, i: int, y: int, j: int, g: real -> real)
    requires IsPlane(L, cols) && 0 <= i < |L| && y - PATCH_SIZE <= j
    requires forall v :: g(v) >= 0.0
    ensures RowAcc(L, cols, i, y, j, g) >= 0.0
    decreases j - (y - PATCH_SIZE)
  {
    if j > y - PATCH_SIZE {
      RowAccNonNegative(L, cols, i, y, j - 1, g);
    }
  }

  lemma {:induction false} WinAccNonNegative(L: Plane, cols: nat, x: int, y: int, i: int, g: real -> real)
    requires IsPlane(L, cols) && x - PATCH_SIZE <= i
    requires forall v :: g(v) >= 0.0
    ensures WinAcc(L, cols, x, y, i, g) >= 0.0
    decreases i - (x - PATCH_SIZE)
  {
    if i > x - PATCH_SIZE {
      WinAccNonNegative(L, cols, x, y, i - 1, g);
      if 0 <= i - 1 < |L| {
        RowAccNonNegative(L, cols, i - 1, y, y + PATCH_SIZE, g);
      }
    }
  }

  lemma DevNonNegative(m: real)
    ensures forall v :: Dev(m)(v) >= 0.0
  {
    forall v
      ensures Dev(m)(v) >= 0.0
    {
      if v < m {
        assert (v - m) * (v - m) == (m - v) * (m - v);
      }
    }
  }

  /** The luminance of a pixel is never below the average of its window. */
  lemma LuminanceAtLeastAverage(L: Plane, cols: nat, x: int, y: int, sqrt: real -> real)
    requires IsPlane(L, cols) && 0 <= x < |L| && 0 <= y < cols && IsSqrt(sqrt)
    ensures Luminance(L, cols, x, y, sqrt) >= Average(L, cols, x, y)
  {
    WindowSize(|L|, cols, x, y);
    var avg := Average(L, cols, x, y);
    DevNonNegative(avg);
    WinAccNonNegative(L, cols, x, y, x + PATCH_SIZE, Dev(avg));
    var size := WinCount(|L|, cols, x, y, x + PATCH_SIZE) as real;
    assert 1.0 / size > 0.0;
    var s := WinAcc(L, cols, x, y, x + PATCH_SIZE, Dev(avg));
    assert (1.0 / size) * s >= 0.0;
  }

  /** (i, j) is one of the window positions of (x, y), inside the image. */
  predicate InWindow(L: Plane, cols: nat, x: int, y: int, i: int, j: int)
  {
    0 <= i < |L| && 0 <= j < cols && x - PATCH_SIZE <= i < x + PATCH_SIZE && y - PATCH_SIZE <= j < y + PATCH_SIZE
  }

  /** g of L is k all over the window of (x, y). */
  predicate ConstantOn(L: Plane, cols: nat, x: int, y: int, g: real -> real, k: real)
  {
    IsPlane(L, cols) && forall i, j {:trigger InWindow(L, cols, x, y, i, j)} :: 0 <= i < |L| && 0 <= j < cols && InWindow(L, cols, x, y, i, j) ==> g(L[i][j]) == k
  }

  /** k added n times. */
  function Repeat(n: nat, k: real): real
  {
    if n == 0 then 0.0 else Repeat(n - 1, k) + k
  }

  lemma {:induction false} RepeatAdds(m: nat, n: nat, k: real)
    ensures Repeat(m + n, k) == Repeat(m, k) + Repeat(n, k)
    decreases n
  {
    if n > 0 {
      RepeatAdds(m, n - 1, k);
    }
  }

  lemma {:induction false} RepeatIsProduct(n: nat, k: real)
    ensures Repeat(n, k) == n as real * k
  {
    if n > 0 {
      RepeatIsProduct(n - 1, k);
      assert (n - 1) as real * k + k == n as real * k;
    }
  }

  lemma {:induction false} RowAccConstant(L: Plane, cols: nat, x: int, i: int, y: int, j: int, g: real -> real, k: real)
    requires IsPlane(L, cols) && 0 <= i < |L| && y - PATCH_SIZE <= j <= y + PATCH_SIZE
    requires x - PATCH_SIZE <= i < x + PATCH_SIZE
    requires ConstantOn(L, cols, x, y, g, k)
    ensures RowAcc(L, cols, i, y, j, g) == Repeat(RowCount(cols, y, j), k)
    decreases j - (y - PATCH_SIZE)
  {
    if j > y - PATCH_SIZE {
      RowAccConstant(L, cols, x, i, y, j - 1, g, k);
      if 0 <= j - 1 < cols {
        assert InWindow(L, cols, x, y, i, j - 1);
      }
    }
  }

  lemma {:induction false} WinAccConstant(L: Plane, cols: nat, x: int, y: int, i: int, g: real -> real, k: real)
    requires IsPlane(L, cols) && x - PATCH_SIZE <= i <= x + PATCH_SIZE
    requires ConstantOn(L, cols, x, y, g, k)
    ensures WinAcc(L, cols, x, y, i, g) == Repeat(WinCount(|L|, cols, x, y, i), k)
    decreases i - (x - PATCH_SIZE)
  {
    if i > x - PATCH_SIZE {
      WinAccConstant(L, cols, x, y, i - 1, g, k);
      if 0 <= i - 1 < |L| {
        RowAccConstant(L, cols, x, i - 1, y, y + PATCH_SIZE, g, k);
        RepeatAdds(WinCount(|L|, cols, x, y, i - 1), RowCount(cols, y, y + PATCH_SIZE), k);
      }
    }
  }

  lemma {:induction false} RepeatZero(n: nat)
    ensures Repeat(n, 0.0) == 0.0
  {
    if n > 0 {
      RepeatZero(n - 1);
    }
  }

  lemma DevOfCentre(m: real)
    ensures Dev(m)(m) == 0.0
  {
  }

  lemma SqrtOfZero(sqrt: real -> real)
    requires IsSqrt(sqrt)
    ensures sqrt(0.0) == 0.0
  {
    assert Square(0.0) == 0.0;
  }

  lemma Cancel(s: real, n: real, v: real)
    requires n > 0.0 && s == n * v
    ensures s / n == v
  {
  }

  /** On a window whose L values are all v, the average is v. */
  lemma UniformWindowAverage(L: Plane, cols: nat, x: int, y: int, v: real)
    requires IsPlane(L, cols) && 0 <= x < |L| && 0 <= y < cols
    requires forall i, j :: InWindow(L, cols, x, y, i, j) ==> L[i][j] == v
    ensures Average(L, cols, x, y) == v
  {
    WindowSize(|L|, cols, x, y);
    var n := WinCount(|L|, cols, x, y, x + PATCH_SIZE);
    assert ConstantOn(L, cols, x, y, Id, v) by {
      forall i, j | 0 <= i < |L| && 0 <= j < cols && InWindow(L, cols, x, y, i, j)
        ensures Id(L[i][j]) == v
      {
      }
    }
    WinAccConstant(L, cols, x, y, x + PATCH_SIZE, Id, v);
    RepeatMean(n, v);
  }

  /** n copies of v, divided by n, give v back. */
  lemma RepeatMean(n: nat, v: real)
    requires n >= 1
    ensures Repeat(n, v) / n as real == v
  {
    RepeatIsProduct(n, v);
    Cancel(Repeat(n, v), n as real, v);
  }

  /** ... and so is the luminance: the deviation is zero. */
  lemma UniformWindowLuminance(L: Plane, cols: nat, x: int, y: int, v: real, sqrt: real -> real)
    requires IsPlane(L, cols) && 0 <= x < |L| && 0 <= y < cols && IsSqrt(sqrt)
    requires forall i, j :: InWindow(L, cols, x, y, i, j) ==> L[i][j] == v
    ensures Luminance(L, cols, x, y, sqrt) == v
  {
    UniformWindowAverage(L, cols, x, y, v);
    WindowSize(|L|, cols, x, y);
    var n := WinCount(|L|, cols, x, y, x + PATCH_SIZE);
    assert ConstantOn(L, cols, x, y, Dev(v), 0.0) by {
      forall i, j | 0 <= i < |L| && 0 <= j < cols && InWindow(L, cols, x, y, i, j)
        ensures Dev(v)(L[i][j]) == 0.0
      {
        assert L[i][j] == v;
        DevOfCentre(v);
      }
    }
    WinAccConstant(L, cols, x, y, x + PATCH_SIZE, Dev(v), 0.0);
    RepeatZero(n);
    assert Variance(L, cols, x, y) == 0.0;
    SqrtOfZero(sqrt);
  }

  /** The first pass of `compute_luminance`: the sum of L over the window and the number of pixels in it. */
  method WindowSum(data: Buffer, x: int, y: int, ghost L: Plane) returns (sum: real, size: nat)
    requires HoldsPlane(data, L)
    ensures sum == WinAcc(L, data.Length1, x, y, x + PATCH_SIZE, Id)
    ensures size == WinCount(data.Length0, data.Length1, x, y, x + PATCH_SIZE)
  {
    var rows, cols := data.Length0, data.Length1;
    size := 0;
    sum := 0.0;
    for i := x - PATCH_SIZE to x + PATCH_SIZE
      invariant sum == WinAcc(L, cols, x, y, i, Id) && size == WinCount(rows, cols, x, y, i)
    {
      if i >= 0 && i < rows {
        for j := y - PATCH_SIZE to y + PATCH_SIZE
          invariant sum == WinAcc(L, cols, x, y, i, Id) + RowAcc(L, cols, i, y, j, Id)
          invariant size == WinCount(rows, cols, x, y, i) + RowCount(cols, y, j)
        {
          if j >= 0 && j < cols {
            sum := sum + data[i, j, 0].v;
            size := size + 1;
          }
        }
      }
    }
  }

  /** The second pass of `compute_luminance`: the squared deviations from avg summed over the window. */
  method WindowDeviation(data: Buffer, x: int, y: int, avg: real, ghost L: Plane) returns (dev: real)
    requires HoldsPlane(data, L)
    ensures dev == WinAcc(L, data.Length1, x, y, x + PATCH_SIZE, Dev(avg))
  {
    var rows, cols := data.Length0, data.Length1;
    dev := 0.0;
    for i := x - PATCH_SIZE to x + PATCH_SIZE
      invariant dev == WinAcc(L, cols, x, y, i, Dev(avg))
    {
      if i >= 0 && i < rows {
        for j := y - PATCH_SIZE to y + PATCH_SIZE
          invariant dev == WinAcc(L, cols, x, y, i, Dev(avg)) + RowAcc(L, cols, i, y, j, Dev(avg))
        {
          if j >= 0 && j < cols {
            var d := data[i, j, 0].v - avg;
            assert Dev(avg)(L[i][j]) == d * d;
            dev := dev + d * d;
          }
        }
      }
    }
  }

  /** The two passes' sums give the luminance. */
  lemma LuminanceOfSums(L: Plane, cols: nat, x: int, y: int, sum: real, size: nat, dev: real, sqrt: real -> real)
    requires IsPlane(L, cols) && 0 <= x < |L| && 0 <= y < cols
    requires sum == WinAcc(L, cols, x, y, x + PATCH_SIZE, Id) && size == WinCount(|L|, cols, x, y, x + PATCH_SIZE)
    requires size > 0 && dev == WinAcc(L, cols, x, y, x + PATCH_SIZE, Dev(sum / size as real))
    ensures sum / size as real == Average(L, cols, x, y)
    ensures sum / size as real + sqrt((1.0 / size as real) * dev) == Luminance(L, cols, x, y, sqrt)
  {
    assert Variance(L, cols, x, y) == (1.0 / size as real) * dev;
  }

  /**
   * `compute_luminance`: the average of L over the clipped window of
   * (x, y), plus the standard deviation around it.
   */
  method ComputeLuminance(data: Buffer, x: int, y: int, sqrt: real -> real, ghost L: Plane) returns (lum: real)
    requires HoldsPlane(data, L) && 0 <= x < data.Length0 && 0 <= y < data.Length1
    ensures lum == Luminance(L, data.Length1, x, y, sqrt)
  {
    var sum, size := WindowSum(data, x, y, L);
    WindowSize(data.Length0, data.Length1, x, y);
    var avg := sum / (size as real);
    var stdDev := WindowDeviation(data, x, y, avg, L);
    LuminanceOfSums(L, data.Length1, x, y, sum, size, stdDev, sqrt);
    stdDev := sqrt((1.0 / size as real) * stdDev);
    lum := avg + stdDev;
  }

  /** `fabs(a - b)`. */
  function Distance(a: real, b: real): (d: real)
    ensures d >= 0.0 && (d == a - b || d == b - a)
  {
    if a >= b then a - b else b - a
  }

  /** The sample table: SAMPLES rows of (L, alpha, beta). */
  predicate IsSampleTable(samples: array2<real>)
  {
    samples.Length0 == SAMPLES && samples.Length1 == D
  }

  /**
   * res is the first sample whose L is nearest to lum: none is nearer,
   * and every sample before it is strictly farther.
   */
  predicate IsNearest(samples: array2<real>, lum: real, res: int)
    reads samples
  {
    IsSampleTable(samples) && 0 <= res < SAMPLES &&
    (forall k :: 0 <= k < SAMPLES ==> Distance(samples[res, 0], lum) <= Distance(samples[k, 0], lum)) &&
    (forall k :: 0 <= k < res ==> Distance(samples[res, 0], lum) < Distance(samples[k, 0], lum))
  }

  /** `find_luminance`: a linear scan keeping the first strict minimum of the distance. */
  method FindLuminance(samples: array2<real>, lum: real) returns (res: int)
    requires IsSampleTable(samples)
    ensures IsNearest(samples, lum, res)
  {
    var diffMin := Infinity;
    res := 0;
    for i := 0 to SAMPLES
      invariant 0 <= res < SAMPLES
      invariant i == 0 ==> diffMin == Infinity && res == 0
      invariant i > 0 ==> res < i && diffMin == Fin(Distance(samples[res, 0], lum))
      invariant forall k :: 0 <= k < i ==> Distance(samples[res, 0], lum) <= Distance(samples[k, 0], lum)
      invariant forall k :: 0 <= k < res ==> Distance(samples[res, 0], lum) < Distance(samples[k, 0], lum)
    {
      var diff := Distance(samples[i, 0], lum);
      if Less(Fin(diff), diffMin) {
        diffMin := Fin(diff);
        res := i;
      }
    }
  }

  /** The nearest sample is determined: the scan's tie-breaking leaves no choice. */
  lemma NearestIsUnique(samples: array2<real>, lum: real, a: int, b: int)
    requires IsNearest(samples, lum, a) && IsNearest(samples, lum, b)
    ensures a == b
  {
    var da, db := Distance(samples[a, 0], lum), Distance(samples[b, 0], lum);
    assert da <= db && db <= da;
  }

  /** The pixel positions of row r up to column n. */
  ghost function RowCells(r: int, n: nat): set<(int, int)>
  {
    if n == 0 then {} else RowCells(r, n - 1) + {(r, n - 1)}
  }

  /** The pixel positions of a rows x cols image. */
  ghost function Cells(rows: nat, cols: nat): set<(int, int)>
  {
    if rows == 0 then {} else Cells(rows - 1, cols) + RowCells(rows - 1, cols)
  }

  lemma {:induction false} RowCellsSize(r: int, n: nat)
    ensures |RowCells(r, n)| == n
  {
    if n > 0 {
      RowCellsSize(r, n - 1);
      RowCellsMembers(r, n - 1);
    }
  }

  lemma {:induction false} RowCellsMembers(r: int, n: nat)
    ensures forall p :: p in RowCells(r, n) <==> p.0 == r && 0 <= p.1 < n
  {
    if n > 0 {
      RowCellsMembers(r, n - 1);
    }
  }

  lemma {:induction false} CellsMembers(rows: nat, cols: nat)
    ensures forall p :: p in Cells(rows, cols) <==> 0 <= p.0 < rows && 0 <= p.1 < cols
  {
    if rows > 0 {
      CellsMembers(rows - 1, cols);
      RowCellsMembers(rows - 1, cols);
    }
  }

  lemma {:induction false} CellsSize(rows: nat, cols: nat)
    ensures |Cells(rows, cols)| == rows * cols
  {
    if rows > 0 {
      CellsSize(rows - 1, cols);
      AddRow(rows - 1, cols);
      NextRowArea(rows - 1, cols);
    }
  }

  /** Adding row r adds cols new positions. */
  lemma AddRow(r: nat, cols: nat)
    ensures |Cells(r + 1, cols)| == |Cells(r, cols)| + cols
  {
    CellsMembers(r, cols);
    RowCellsMembers(r, cols);
    RowCellsSize(r, cols);
    assert Cells(r + 1, cols) == Cells(r, cols) + RowCells(r, cols);
    assert Cells(r, cols) * RowCells(r, cols) == {};
  }

  lemma NextRowArea(r: nat, cols: nat)
    ensures r * cols + cols == (r + 1) * cols
  {
  }

  /** Fewer marked positions than pixels leave an unmarked pixel. */
  lemma UnmarkedCell(marked: set<(int, int)>, rows: nat, cols: nat) returns (r: int, c: int)
    requires |marked| < rows * cols
    ensures 0 <= r < rows && 0 <= c < cols && (r, c) !in marked
  {
    CellsSize(rows, cols);
    CellsMembers(rows, cols);
    var all := Cells(rows, cols);
    assert all == (all - marked) + (all * marked);
    assert |all * marked| <= |marked| by {
      assert marked == (all * marked) + (marked - all);
    }
    assert |all - marked| > 0;
    var p :| p in all - marked;
    r, c := p.0, p.1;
  }

  /** The body of the sampling loop: pixel (row, col) becomes sample i and is marked taken. */
  method TakeSample(data: Buffer, samples: array2<real>, i: int, row: int, col: int)
    requires data.Length2 == D && IsSampleTable(samples) && 0 <= i < SAMPLES
    requires 0 <= row < data.Length0 && 0 <= col < data.Length1
    requires forall k :: 0 <= k < D ==> data[row, col, k].Fin?
    modifies data, samples
    ensures forall k :: 0 <= k < D ==> Fin(samples[i, k]) == old(data[row, col, k]) && data[row, col, k] == Infinity
    ensures forall a, k :: 0 <= a < SAMPLES && a != i && 0 <= k < D ==> samples[a, k] == old(samples[a, k])
    ensures forall r, c, k :: 0 <= r < data.Length0 && 0 <= c < data.Length1 && 0 <= k < D && (r, c) != (row, col) ==>
      data[r, c, k] == old(data[r, c, k])
  {
    for c := 0 to D
      invariant forall k :: 0 <= k < c ==> Fin(samples[i, k]) == old(data[row, col, k]) && data[row, col, k] == Infinity
      invariant forall k :: c <= k < D ==> data[row, col, k] == old(data[row, col, k])
      invariant forall a, k :: 0 <= a < SAMPLES && a != i && 0 <= k < D ==> samples[a, k] == old(samples[a, k])
      invariant forall r, cc, k :: 0 <= r < data.Length0 && 0 <= cc < data.Length1 && 0 <= k < D && (r, cc) != (row, col) ==>
        data[r, cc, k] == old(data[r, cc, k])
    {
      samples[i, c] := data[row, col, c].v;
      data[row, col, c] := Infinity;
    }
  }

  /**
   * `generate_samples`: SAMPLES distinct pixels of the buffer, never
   * taken twice because a taken pixel is overwritten with INFINITY.
   * The random draws become a choice among the pixels not yet taken.
   */
  method GenerateSamples(data: Buffer, samples: array2<real>) returns (ghost picked: seq<(int, int)>)
    requires data.Length2 == D && AllFinite(data) && IsSampleTable(samples)
    requires data.Length0 * data.Length1 >= SAMPLES
    modifies data, samples
    ensures |picked| == SAMPLES
    ensures forall a :: 0 <= a < SAMPLES ==> 0 <= picked[a].0 < data.Length0 && 0 <= picked[a].1 < data.Length1
    ensures forall a, b :: 0 <= a < b < SAMPLES ==> picked[a] != picked[b]
    ensures forall a, c :: 0 <= a < SAMPLES && 0 <= c < D ==> old(data[picked[a].0, picked[a].1, c]) == Fin(samples[a, c])
    ensures forall r, c, ch :: 0 <= r < data.Length0 && 0 <= c < data.Length1 && 0 <= ch < D ==>
      data[r, c, ch] == if (r, c) in picked then Infinity else old(data[r, c, ch])
  {
    var rows, cols := data.Length0, data.Length1;
    ghost var marked: set<(int, int)> := {};
    picked := [];
    var i := 0;
    while i < SAMPLES
      invariant 0 <= i <= SAMPLES && |picked| == i && |marked| == i
      invariant forall p :: p in marked <==> p in picked
      invariant forall a :: 0 <= a < i ==> 0 <= picked[a].0 < rows && 0 <= picked[a].1 < cols
      invariant forall a, b :: 0 <= a < b < i ==> picked[a] != picked[b]
      invariant forall a, c :: 0 <= a < i && 0 <= c < D ==> old(data[picked[a].0, picked[a].1, c]) == Fin(samples[a, c])
      invariant forall r, c, ch :: 0 <= r < rows && 0 <= c < cols && 0 <= ch < D ==>
        data[r, c, ch] == if (r, c) in picked then Infinity else old(data[r, c, ch])
    {
      ghost var r0, c0 := UnmarkedCell(marked, rows, cols);
      assert data[r0, c0, 0] != Infinity;
      var row, col :| 0 <= row < rows && 0 <= col < cols && data[row, col, 0] != Infinity;
      assert (row, col) !in picked;
      TakeSample(data, samples, i, row, col);
      picked := picked + [(row, col)];
      marked := marked + {(row, col)};
      i := i + 1;
    }
  }

  /** How many entries of s are k. */
  function Count(s: seq<int>, k: int): (n: nat)
    ensures n <= |s|
  {
    if |s| == 0 then 0 else Count(s[..|s| - 1], k) + (if s[|s| - 1] == k then 1 else 0)
  }

  /** Count(s, 0) + ... + Count(s, n - 1). */
  function CountBelow(s: seq<int>, n: nat): nat
  {
    if n == 0 then 0 else CountBelow(s, n - 1) + Count(s, n - 1)
  }

  /** When every entry lies in [0, n), the counts of 0 .. n-1 add up to the length. */
  lemma {:induction false} CountBelowIsLength(s: seq<int>, n: nat)
    requires forall j :: 0 <= j < |s| ==> 0 <= s[j] < n
    ensures CountBelow(s, n) == |s|
    decreases |s|
  {
    if |s| > 0 {
      var init := s[..|s| - 1];
      CountBelowIsLength(init, n);
      CountBelowAppend(init, s[|s| - 1], n);
      assert init + [s[|s| - 1]] == s;
    } else {
      CountBelowOfEmpty(s, n);
    }
  }

  lemma {:induction false} CountBelowOfEmpty(s: seq<int>, n: nat)
    requires |s| == 0
    ensures CountBelow(s, n) == 0
  {
    if n > 0 {
      CountBelowOfEmpty(s, n - 1);
    }
  }

  lemma {:induction false} CountBelowAppend(init: seq<int>, x: int, n: nat)
    requires 0 <= x < n
    ensures CountBelow(init + [x], n) == CountBelow(init, n) + 1
    decreases n
  {
    assert (init + [x])[..|init|] == init;
    if n - 1 != x {
      CountBelowAppend(init, x, n - 1);
    } else {
      CountBelowAbove(init, x, n - 1);
    }
  }

  lemma {:induction false} CountBelowAbove(init: seq<int>, x: int, n: nat)
    requires n <= x
    ensures CountBelow(init + [x], n) == CountBelow(init, n)
    decreases n
  {
    assert (init + [x])[..|init|] == init;
    if n > 0 {
      CountBelowAbove(init, x, n - 1);
    }
  }

  /** h[0] + ... + h[n - 1]. */
  function Sum(h: seq<int>, n: nat): int
    requires n <= |h|
  {
    if n == 0 then 0 else Sum(h, n - 1) + h[n - 1]
  }

  /**
   * The histogram of the colour transfer: when every pixel's sample
   * index is counted once, the counts add up to the number of pixels.
   */
  lemma HistogramCountsEveryPixel(h: seq<int>, order: seq<int>)
    requires forall k :: 0 <= k < |h| ==> h[k] == Count(order, k)
    requires forall j :: 0 <= j < |order| ==> 0 <= order[j] < |h|
    ensures Sum(h, |h|) == |order|
  {
    SumIsCountBelow(h, order, |h|);
    CountBelowIsLength(order, |h|);
  }

  lemma {:induction false} SumIsCountBelow(h: seq<int>, order: seq<int>, n: nat)
    requires n <= |h|
    requires forall k :: 0 <= k < |h| ==> h[k] == Count(order, k)
    ensures Sum(h, n) == CountBelow(order, n)
  {
    if n > 0 {
      SumIsCountBelow(h, order, n - 1);
    }
  }

  /** The rows of m one after the other. */
  function Flatten(m: seq<seq<int>>): (f: seq<int>)
  {
    if |m| == 0 then [] else Flatten(m[..|m| - 1]) + m[|m| - 1]
  }

  /** Flattening rows of equal length, whose entries lie in [0, n). */
  lemma {:induction false} FlattenFacts(m: seq<seq<int>>, cols: nat, n: nat)
    requires forall i :: 0 <= i < |m| ==> |m[i]| == cols
    requires forall i, j :: 0 <= i < |m| && 0 <= j < cols ==> 0 <= m[i][j] < n
    ensures |Flatten(m)| == |m| * cols
    ensures forall j :: 0 <= j < |Flatten(m)| ==> 0 <= Flatten(m)[j] < n
  {
    if |m| > 0 {
      var init := m[..|m| - 1];
      FlattenFacts(init, cols, n);
      NextRowArea(|init|, cols);
      var f, last := Flatten(init), m[|m| - 1];
      forall j | 0 <= j < |f + last|
        ensures 0 <= (f + last)[j] < n
      {
        if j >= |f| {
          assert (f + last)[j] == last[j - |f|];
        }
      }
    }
  }

  /** Write the chosen sample's alpha and beta into pixel (i, j). */
  method SetColour(data: Buffer, samples: array2<real>, i: int, j: int, index: int)
    requires data.Length2 == D && IsSampleTable(samples) && 0 <= index < SAMPLES
    requires 0 <= i < data.Length0 && 0 <= j < data.Length1
    modifies data
    ensures forall c :: 1 <= c < D ==> data[i, j, c] == Fin(samples[index, c])
    ensures forall r, cc, c :: 0 <= r < data.Length0 && 0 <= cc < data.Length1 && 0 <= c < D && (c == 0 || (r, cc) != (i, j)) ==>
      data[r, cc, c] == old(data[r, cc, c])
  {
    for c := 1 to D
      invariant forall k :: 1 <= k < c ==> data[i, j, k] == Fin(samples[index, k])
      invariant forall r, cc, k :: 0 <= r < data.Length0 && 0 <= cc < data.Length1 && 0 <= k < D && (k == 0 || k >= c || (r, cc) != (i, j)) ==>
        data[r, cc, k] == old(data[r, cc, k])
    {
      data[i, j, c] := Fin(samples[index, c]);
    }
  }

  /** The loop body of the colour transfer, on pixel (i, j). */
  method TransferPixel(data: Buffer, samples: array2<real>, hist: array<int>, i: int, j: int, sqrt: real -> real, ghost L: Plane)
    returns (index: int)
    requires HoldsPlane(data, L) && IsSampleTable(samples) && hist.Length == SAMPLES
    requires 0 <= i < data.Length0 && 0 <= j < data.Length1
    modifies data, hist
    ensures HoldsPlane(data, L)
    ensures IsNearest(samples, Luminance(L, data.Length1, i, j, sqrt), index)
    ensures forall c :: 1 <= c < D ==> data[i, j, c] == Fin(samples[index, c])
    ensures forall r, cc, c :: 0 <= r < data.Length0 && 0 <= cc < data.Length1 && 0 <= c < D && (r, cc) != (i, j) ==>
      data[r, cc, c] == old(data[r, cc, c])
    ensures forall k :: 0 <= k < SAMPLES ==> hist[k] == old(hist[k]) + (if k == index then 1 else 0)
  {
    var lum := ComputeLuminance(data, i, j, sqrt, L);
    index := FindLuminance(samples, lum);
    hist[index] := hist[index] + 1;
    SetColour(data, samples, i, j, index);
  }

  /** The inner loop of the colour transfer, over row i. */
  method ColorizeRow(data: Buffer, samples: array2<real>, hist: array<int>, i: int, sqrt: real -> real, ghost L: Plane)
    returns (ghost row: seq<int>)
    requires HoldsPlane(data, L) && IsSampleTable(samples) && hist.Length == SAMPLES && 0 <= i < data.Length0
    modifies data, hist
    ensures HoldsPlane(data, L)
    ensures |row| == data.Length1 && forall j :: 0 <= j < |row| ==> 0 <= row[j] < SAMPLES
    ensures forall j :: 0 <= j < data.Length1 ==> IsNearest(samples, Luminance(L, data.Length1, i, j, sqrt), row[j])
    ensures forall j, c :: 0 <= j < data.Length1 && 1 <= c < D ==> data[i, j, c] == Fin(samples[row[j], c])
    ensures forall r, cc, c :: 0 <= r < data.Length0 && 0 <= cc < data.Length1 && 0 <= c < D && r != i ==>
      data[r, cc, c] == old(data[r, cc, c])
    ensures forall k :: 0 <= k < SAMPLES ==> hist[k] == old(hist[k]) + Count(row, k)
  {
    var cols := data.Length1;
    row := [];
    for j := 0 to cols
      invariant HoldsPlane(data, L) && |row| == j && forall jj :: 0 <= jj < j ==> 0 <= row[jj] < SAMPLES
      invariant forall jj :: 0 <= jj < j ==> IsNearest(samples, Luminance(L, cols, i, jj, sqrt), row[jj])
      invariant forall jj, c :: 0 <= jj < j && 1 <= c < D ==> data[i, jj, c] == Fin(samples[row[jj], c])
      invariant forall r, cc, c :: 0 <= r < data.Length0 && 0 <= cc < cols && 0 <= c < D && r != i ==>
        data[r, cc, c] == old(data[r, cc, c])
      invariant forall k :: 0 <= k < SAMPLES ==> hist[k] == old(hist[k]) + Count(row, k)
    {
      label before:
      var index := TransferPixel(data, samples, hist, i, j, sqrt, L);
      assert (row + [index])[..j] == row;
      forall jj, c | 0 <= jj <= j && 1 <= c < D
        ensures data[i, jj, c] == Fin(samples[(row + [index])[jj], c])
      {
        if jj < j {
          assert (row + [index])[jj] == row[jj];
          assert data[i, jj, c] == old@before(data[i, jj, c]);
        }
      }
      forall jj | 0 <= jj <= j
        ensures IsNearest(samples, Luminance(L, cols, i, jj, sqrt), (row + [index])[jj])
      {
        if jj < j {
          assert (row + [index])[jj] == row[jj];
        }
      }
      row := row + [index];
    }
  }

  /**
   * The colour transfer of `process`: every pixel of the transfer buffer
   * keeps its L and takes alpha and beta from the sample nearest to its
   * neighbourhood luminance; `hist` counts how often each sample is used.
   */
  method Colorize(data: Buffer, samples: array2<real>, hist: array<int>, sqrt: real -> real, ghost L: Plane)
    returns (ghost matched: seq<seq<int>>)
    requires HoldsPlane(data, L) && IsSampleTable(samples) && hist.Length == SAMPLES
    modifies data, hist
    ensures HoldsPlane(data, L)
    ensures |matched| == data.Length0
    ensures forall i :: 0 <= i < |matched| ==> |matched[i]| == data.Length1
    ensures forall i, j :: 0 <= i < |matched| && 0 <= j < data.Length1 ==> 0 <= matched[i][j] < SAMPLES
    ensures forall i, j :: 0 <= i < data.Length0 && 0 <= j < data.Length1 ==>
      IsNearest(samples, Luminance(L, data.Length1, i, j, sqrt), matched[i][j])
    ensures forall i, j, c :: 0 <= i < data.Length0 && 0 <= j < data.Length1 && 1 <= c < D ==>
      data[i, j, c] == Fin(samples[matched[i][j], c])
    ensures forall k :: 0 <= k < SAMPLES ==> hist[k] == old(hist[k]) + Count(Flatten(matched), k)
    ensures (forall k :: 0 <= k < SAMPLES ==> old(hist[k]) == 0) ==> Sum(hist[..], SAMPLES) == data.Length0 * data.Length1
  {
    var rows, cols := data.Length0, data.Length1;
    matched := [];
    for i := 0 to rows
      invariant HoldsPlane(data, L) && |matched| == i
      invariant forall r :: 0 <= r < i ==> |matched[r]| == cols
      invariant forall r, j :: 0 <= r < i && 0 <= j < cols ==> 0 <= matched[r][j] < SAMPLES
      invariant forall r, j :: 0 <= r < i && 0 <= j < cols ==> IsNearest(samples, Luminance(L, cols, r, j, sqrt), matched[r][j])
      invariant forall r, j, c :: 0 <= r < i && 0 <= j < cols && 1 <= c < D ==> data[r, j, c] == Fin(samples[matched[r][j], c])
      invariant forall k :: 0 <= k < SAMPLES ==> hist[k] == old(hist[k]) + Count(Flatten(matched), k)
    {
      ghost var before := Flatten(matched);
      var row := ColorizeRow(data, samples, hist, i, sqrt, L);
      CountAppend(before, row);
      assert (matched + [row])[..i] == matched;
      forall r, j | 0 <= r <= i && 0 <= j < cols
        ensures IsNearest(samples, Luminance(L, cols, r, j, sqrt), (matched + [row])[r][j])
      {
        if r == i {
          assert (matched + [row])[r] == row;
        } else {
          assert (matched + [row])[r] == matched[r];
        }
      }
      matched := matched + [row];
    }
    FlattenFacts(matched, cols, SAMPLES);
    if forall k :: 0 <= k < SAMPLES ==> old(hist[k]) == 0 {
      HistogramCountsEveryPixel(hist[..], Flatten(matched));
    }
  }

  /** Counting over a concatenation adds up. */
  lemma {:induction false} CountAppend(a: seq<int>, b: seq<int>)
    ensures forall k :: Count(a + b, k) == Count(a, k) + Count(b, k)
    decreases |b|
  {
    if |b| == 0 {
      assert a + b == a;
    } else {
      var init := b[..|b| - 1];
      CountAppend(a, init);
      assert (a + b)[..|a + b| - 1] == a + init;
    }
  }
}
