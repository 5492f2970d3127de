/**
 * Zoom by resampling filters: the filter is chosen by name, applied along
 * the columns of the image and of its rotation, and the two results are
 * averaged.  Only the box kernel is written; the write-back of
 * `compute_filter` is not part of this model (see README).
 */
module ResampleFilter {
  import opened Pnm
  import opened Wrappers

  /** The number of command-line words: the name, `<factor> <filter-name> <ims>` and `<imd>`. */
  const ARGC := 5

  /** The filter names `main` accepts, in the order of their numbers. */
  const FILTER_NAMES: seq<string> := ["box", "tent", "bell", "mitch"]

  /** The filter number of a name: box 0, tent 1, bell 2, mitch 3. */
  function FilterNumber(name: string): (r: Option<nat>)
    ensures r.Some? <==> name in FILTER_NAMES
    ensures r.Some? ==> r.value < |FILTER_NAMES| && FILTER_NAMES[r.value] == name
  {
    if name == "box" then Some(0)
    else if name == "tent" then Some(1)
    else if name == "bell" then Some(2)
    else if name == "mitch" then Some(3)
    else None
  }

  /**
   * The checks of `main`: the usage message unless there are exactly four
   * arguments and the second one names a filter; otherwise its number.
   */
  function ParseMain(argc: int, filterName: string): (r: Option<nat>)
    ensures r.None? <==> argc != ARGC || filterName !in FILTER_NAMES
    ensures r.Some? ==> r.value < |FILTER_NAMES| && FILTER_NAMES[r.value] == filterName
  {
    if argc != ARGC then None else FilterNumber(filterName)
  }

  /** The half-width of the kernel of filter `filterNum`: (filterNum + 1) / 2. */
  function HalfWidth(filterNum: nat): (wf: nat)
    ensures filterNum == 0 ==> wf == 0
    ensures wf <= filterNum
  {
    (filterNum + 1) / 2
  }

  /** Only k == col has k - col in [-0.5, 0.5): the box kernel picks one sample. */
  lemma BoxSelectsCentre(k: int, col: int)
    ensures -0.5 <= (k - col) as real < 0.5 <==> k == col
  {
    if k < col {
      assert (k - col) as real <= -1.0;
    } else if k > col {
      assert (k - col) as real >= 1.0;
    }
  }

  /**
   * The window and kernel selection of `compute_filter` for destination
   * position (i, j): col = j / factor, the window [left, right] is
   * [col - WF, col + WF] clamped to [0, w * factor], and for every k of
   * the window the box kernel adds component s of the source at
   * (k, i / factor) when k - col lies in [-0.5, 0.5); the other kernels
   * add nothing.  So the sums are those of the one sample at
   * (col, i / factor) for the box and 0 otherwise, and col lies in the
   * window.
   */
  method KernelSums(w: nat, factor: nat, filterNum: nat, ims: Image, i: nat, j: nat)
    returns (left: int, right: int, sum: seq<int>)
    requires factor >= 1 && filterNum < |FILTER_NAMES| && j < w * factor
    requires IsRgb(ims)
    requires filterNum == 0 ==> j / factor < ims.Length0 && i / factor < ims.Length1
    ensures left == if j / factor - HalfWidth(filterNum) < 0 then 0 else j / factor - HalfWidth(filterNum)
    ensures right == if j / factor + HalfWidth(filterNum) > w * factor then w * factor else j / factor + HalfWidth(filterNum)
    ensures 0 <= left <= j / factor <= right <= w * factor
    ensures right - left <= 2 * HalfWidth(filterNum)
    ensures |sum| == 3
    ensures forall s :: 0 <= s < 3 ==> sum[s] == if filterNum == 0 then ims[j / factor, i / factor, s] else 0
  {
    var col := j / factor;
    QuotientAtMost(j, factor);
    left, right := KernelWindow(col, HalfWidth(filterNum), w * factor);
    sum := BoxSums(ims, filterNum, col, i / factor, left, right);
  }

  /** The window [col - wf, col + wf] clamped to [0, limit]. */
  method KernelWindow(col: int, wf: nat, limit: int) returns (left: int, right: int)
    requires 0 <= col <= limit
    ensures left == if col - wf < 0 then 0 else col - wf
    ensures right == if col + wf > limit then limit else col + wf
    ensures 0 <= left <= col <= right <= limit && right - left <= 2 * wf
  {
    left := col - wf;
    if left < 0 {
      left := 0;
    }
    right := col + wf;
    if right > limit {
      right := limit;
    }
  }

  /**
   * The kernel loop over k in [left, right]: for the box, component s of
   * the source at (k, row) is added when k - col lies in [-0.5, 0.5),
   * which only k == col does; the other kernels add nothing.
   */
  method BoxSums(ims: Image, filterNum: nat, col: int, row: int, left: int, right: int) returns (sum: seq<int>)
    requires IsRgb(ims) && left <= col <= right
    requires filterNum == 0 ==> 0 <= col < ims.Length0 && 0 <= row < ims.Length1
    ensures |sum| == 3
    ensures forall s :: 0 <= s < 3 ==> sum[s] == if filterNum == 0 then ims[col, row, s] else 0
  {
    sum := [0, 0, 0];
    for k := left to right + 1
      invariant |sum| == 3
      invariant forall s :: 0 <= s < 3 ==>
        sum[s] == if filterNum == 0 && col < k then ims[col, row, s] else 0
    {
      var x: real := (k - col) as real;
      BoxSelectsCentre(k, col);
      for s := 0 to 3
        invariant |sum| == 3
        invariant forall t :: 0 <= t < 3 ==>
          sum[t] == if filterNum == 0 && (col < k || (col == k && t < s)) then ims[col, row, t] else 0
      {
        if filterNum == 0 {
          if -0.5 <= x && x < 0.5 {
            sum := sum[s := sum[s] + ims[k, row, s]];
          }
        }
      }
    }
  }

  lemma QuotientAtMost(j: nat, factor: nat)
    requires factor >= 1
    ensures j / factor <= j
  {
    var q := j / factor;
    MulAtLeast(q, factor);
    assert j == factor * q + j % factor;
  }

  /**
   * What `reconstruct_image` stores: the two components are added in an
   * `unsigned short`, which wraps at 65536, and halved.  Without
   * wrap-around it is the integer mean of the two, between them.
   */
  function Average(a: UShort, b: UShort): (v: UShort)
    ensures a + b < 0x1_0000 ==> (a <= v <= b || b <= v <= a) && v == (a + b) / 2
  {
    ((a + b) % 0x1_0000) / 2
  }

  /**
   * `reconstruct_image`: every component of `imd` is the average of the
   * components at the same place in the two filtered images.
   */
  method ReconstructImage(factor: int, colIms: Image, lineIms: Image, imd: Image)
    requires IsRgb(colIms) && IsRgb(lineIms) && IsRgb(imd)
    requires Covers(colIms, imd) && Covers(lineIms, imd)
    requires imd != colIms && imd != lineIms
    modifies imd
    ensures forall r, c, ch :: InImage(imd, r, c, ch) ==> imd[r, c, ch] == Average(colIms[r, c, ch], lineIms[r, c, ch])
  {
    for i := 0 to imd.Length1
      invariant forall r, c, ch :: InImage(imd, r, c, ch) && c < i ==> imd[r, c, ch] == Average(colIms[r, c, ch], lineIms[r, c, ch])
    {
      for j := 0 to imd.Length0
        invariant forall r, c, ch :: InImage(imd, r, c, ch) && ColumnMajorBefore(r, c, ch, j, i, 0) ==>
          imd[r, c, ch] == Average(colIms[r, c, ch], lineIms[r, c, ch])
      {
        for c := 0 to 3
          invariant forall r, k, ch :: InImage(imd, r, k, ch) && ColumnMajorBefore(r, k, ch, j, i, c) ==>
            imd[r, k, ch] == Average(colIms[r, k, ch], lineIms[r, k, ch])
        {
          var sumComp := (colIms[j, i, c] as int + lineIms[j, i, c] as int) % 0x1_0000;
          imd[j, i, c] := sumComp / 2;
        }
      }
    }
  }

  /**
   * As written, `rotate_image(w, h, ims, imd)` runs over i < h and j < w,
   * reads `ims` at row j, column i and writes `imd` at row i, column
   * h - j - 1, and `main` gives it two images h rows high and w columns
   * wide.  This says every one of those accesses is inside such an image.
   */
  predicate RotateAsWrittenInBounds(w: nat, h: nat)
  {
    forall i, j :: 0 <= i < h && 0 <= j < w ==> RotateAccessInBounds(w, h, i, j)
  }

  /** The read at (j, i) and the write at (i, h - j - 1) of an h x w image. */
  predicate RotateAccessInBounds(w: nat, h: nat, i: int, j: int)
  {
    0 <= j < h && 0 <= i < w && 0 <= i < h && 0 <= h - j - 1 < w
  }

  /** For a non-empty image, the accesses as written stay inside only when it is square. */
  lemma RotateAsWrittenOnlySquare(w: nat, h: nat)
    requires w > 0 && h > 0
    ensures RotateAsWrittenInBounds(w, h) <==> w == h
  {
    if w < h {
      assert !RotateAccessInBounds(w, h, h - 1, 0);
    } else if h < w {
      assert !RotateAccessInBounds(w, h, 0, w - 1);
    }
  }

  /** The smallest image that shows it: one row, two columns. */
  lemma RotateAsWrittenTwoByOne()
    ensures !RotateAsWrittenInBounds(2, 1)
  {
    RotateAsWrittenOnlySquare(2, 1);
  }

  /**
   * A quarter turn clockwise into an image w rows high and h columns
   * wide: source pixel (i, j) goes to (j, h - 1 - i).  On a square image
   * this is exactly what the code as written computes.
   */
  method RotateImage(w: nat, h: nat, ims: Image, imd: Image)
    requires IsRgb(ims) && IsRgb(imd) && ims != imd
    requires ims.Length0 == h && ims.Length1 == w
    requires imd.Length0 == w && imd.Length1 == h
    modifies imd
    ensures forall r, c, ch :: InImage(imd, r, c, ch) ==> imd[r, c, ch] == ims[h - 1 - c, r, ch]
  {
    for i := 0 to h
      invariant forall r, c, ch :: InImage(imd, r, c, ch) && h - 1 - c < i ==> imd[r, c, ch] == ims[h - 1 - c, r, ch]
    {
      for j := 0 to w
        invariant forall r, c, ch :: InImage(imd, r, c, ch) && h - 1 - c < i ==> imd[r, c, ch] == ims[h - 1 - c, r, ch]
        invariant forall r, ch :: 0 <= r < j && 0 <= ch < 3 ==> imd[r, h - 1 - i, ch] == ims[i, r, ch]
      {
        for c := 0 to 3
          invariant forall r, c', ch :: InImage(imd, r, c', ch) && h - 1 - c' < i ==> imd[r, c', ch] == ims[h - 1 - c', r, ch]
          invariant forall r, ch :: 0 <= r < j && 0 <= ch < 3 ==> imd[r, h - 1 - i, ch] == ims[i, r, ch]
          invariant forall ch :: 0 <= ch < c ==> imd[j, h - 1 - i, ch] == ims[i, j, ch]
        {
          imd[j, h - 1 - i, c] := ims[i, j, c];
        }
      }
    }
  }

  /**
   * The position map of `RotateImage` sends the h x w grid one to one
   * onto the w x h grid.  On a square image the accesses of the code as
   * written, read (j, i) and write (i, h - j - 1), stay inside, and the
   * entry that code writes is the one `RotateImage` puts there.
   */
  lemma RotationIsBijective(w: nat, h: nat, i: int, j: int, i': int, j': int)
    requires 0 <= i < h && 0 <= j < w && 0 <= i' < h && 0 <= j' < w
    ensures 0 <= j < w && 0 <= h - 1 - i < h
    ensures (j, h - 1 - i) == (j', h - 1 - i') ==> (i, j) == (i', j')
    ensures w == h ==> RotateAccessInBounds(w, h, j, i)
    ensures w == h ==> RotatedFrom(h, AsWrittenTarget(h, i, j)) == AsWrittenSource(i, j)
  {
  }

  /** Where `RotateImage` takes the entry of position (r, c) of `imd` from. */
  function RotatedFrom(h: int, p: (int, int)): (int, int)
  {
    (h - 1 - p.1, p.0)
  }

  /** The position of `imd` the code as written writes on step (i, j). */
  function AsWrittenTarget(h: int, i: int, j: int): (int, int)
  {
    (i, h - j - 1)
  }

  /** The position of `ims` the code as written reads on step (i, j). */
  function AsWrittenSource(i: int, j: int): (int, int)
  {
    (j, i)
  }

  /**
   * `rotate_image` as written, on a square image: read (j, i), write
   * (i, h - j - 1).  It computes the same image as `RotateImage`.
   */
  method RotateImageAsWritten(w: nat, h: nat, ims: Image, imd: Image)
    requires w == h
    requires IsRgb(ims) && IsRgb(imd) && ims != imd
    requires ims.Length0 == h && ims.Length1 == w
    requires imd.Length0 == w && imd.Length1 == h
    modifies imd
    ensures forall r, c, ch :: InImage(imd, r, c, ch) ==> imd[r, c, ch] == ims[h - 1 - c, r, ch]
  {
    for i := 0 to h
      invariant forall r, c, ch :: InImage(imd, r, c, ch) && r < i ==> imd[r, c, ch] == ims[h - 1 - c, r, ch]
    {
      for j := 0 to w
        invariant forall r, c, ch :: InImage(imd, r, c, ch) && r < i ==> imd[r, c, ch] == ims[h - 1 - c, r, ch]
        invariant forall c, ch :: h - j <= c < h && 0 <= ch < 3 ==> imd[i, c, ch] == ims[h - 1 - c, i, ch]
      {
        for c := 0 to 3
          invariant forall r, c', ch :: InImage(imd, r, c', ch) && r < i ==> imd[r, c', ch] == ims[h - 1 - c', r, ch]
          invariant forall c', ch :: h - j <= c' < h && 0 <= ch < 3 ==> imd[i, c', ch] == ims[h - 1 - c', i, ch]
          invariant forall ch :: 0 <= ch < c ==> imd[i, h - j - 1, ch] == ims[j, i, ch]
        {
          imd[i, h - j - 1, c] := ims[j, i, c];
        }
      }
    }
  }
}
