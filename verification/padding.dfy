/**
 * Zero-padding zoom: a grey version of the image is transformed, its
 * spectrum is placed at the centre of a spectrum `factor` times larger
 * and filled with zeros, and the result is transformed back.  This module
 * holds the steps around the transforms; buffers are column-major, as in
 * `ZoomFft`.
 */
module Padding {
  import opened Pnm
  import opened ZoomFft

  /** The number of command-line words: the name, `<factor> <ims>` and `<imd>`. */
  const ARGC := 4

  /** `main` stops with its usage message unless it has exactly three arguments. */
  function MainExit(argc: int): (e: Exit)
    ensures e == Usage <==> argc != ARGC
  {
    if argc != ARGC then Usage else Success
  }

  /** The first three of r, g, b added: the partial sums of the grey loop. */
  function ChannelPrefix(r: UShort, g: UShort, b: UShort, n: nat): int
    requires n <= 3
  {
    if n == 0 then 0 else if n == 1 then r else if n == 2 then r + g else r + g + b
  }

  /**
   * The grey level `generate_gray_image` stores: the components are added
   * in an `unsigned short`, which wraps at 65536, and the sum is divided
   * by 3.  Without wrap-around (always the case for 8-bit images) it lies
   * between the darkest and the brightest component.
   */
  function Grey(r: UShort, g: UShort, b: UShort): (v: UShort)
    ensures r + g + b < 0x1_0000 ==> Min3(r, g, b) <= v <= Max3(r, g, b)
  {
    ((r + g + b) % 0x1_0000) / 3
  }

  /**
   * `generate_gray_image`: entry (i, j) of the grey buffer is the grey
   * level of pixel (i, j) of the image.
   */
  method GenerateGrayImage(cols: nat, rows: nat, ims: Image, imd: array2<UShort>)
    requires IsRgb(ims) && ims.Length0 >= rows && ims.Length1 >= cols
    requires imd.Length0 == rows && imd.Length1 == cols
    modifies imd
    ensures forall i, j :: 0 <= i < rows && 0 <= j < cols ==> imd[i, j] == Grey(ims[i, j, 0], ims[i, j, 1], ims[i, j, 2])
  {
    for j := 0 to cols
      invariant forall a, b :: 0 <= a < rows && 0 <= b < j ==> imd[a, b] == Grey(ims[a, b, 0], ims[a, b, 1], ims[a, b, 2])
    {
      for i := 0 to rows
        invariant forall a, b :: 0 <= a < rows && 0 <= b < j ==> imd[a, b] == Grey(ims[a, b, 0], ims[a, b, 1], ims[a, b, 2])
        invariant forall a :: 0 <= a < i ==> imd[a, j] == Grey(ims[a, j, 0], ims[a, j, 1], ims[a, j, 2])
      {
        var component: UShort := 0;
        for c := 0 to 3
          invariant component == ChannelPrefix(ims[i, j, 0], ims[i, j, 1], ims[i, j, 2], c) % 0x1_0000
        {
          component := (component + ims[i, j, c]) % 0x1_0000;
        }
        imd[i, j] := component / 3;
      }
    }
  }

  /** The first row of the centred block: rows * factor / 2 - rows / 2. */
  function StartRow(rows: nat, factor: nat): int
  {
    rows * factor / 2 - rows / 2
  }

  /** The first column of the centred block: cols * factor / 2 - cols / 2. */
  function StartCol(cols: nat, factor: nat): int
  {
    cols * factor / 2 - cols / 2
  }

  /**
   * With factor >= 1 the centred block lies inside the enlarged buffer,
   * and so does every flat position the copy writes.
   */
  lemma CentredBlockInside(rows: nat, cols: nat, factor: nat, i: nat, j: nat)
    requires factor >= 1 && i < rows && j < cols
    ensures 0 <= StartRow(rows, factor) && StartRow(rows, factor) + rows <= rows * factor
    ensures 0 <= StartCol(cols, factor) && StartCol(cols, factor) + cols <= cols * factor
    ensures 0 <= (StartRow(rows, factor) + i) + rows * factor * (j + StartCol(cols, factor)) < rows * factor * (cols * factor)
  {
    MulMonotonic(rows, 1, factor);
    MulMonotonic(cols, 1, factor);
    var r, c := StartRow(rows, factor) + i, StartCol(cols, factor) + j;
    FlatIndex(rows * factor, cols * factor, r, c, r, c);
  }

  /** Position (r, c) of the enlarged buffer holds the original spectrum. */
  predicate InBlock(rows: nat, cols: nat, factor: nat, r: int, c: int)
  {
    StartRow(rows, factor) <= r < StartRow(rows, factor) + rows &&
    StartCol(cols, factor) <= c < StartCol(cols, factor) + cols
  }

  /**
   * `resize_complex_array`: the enlarged buffer is the original one,
   * centred, with zero everywhere else.
   */
  method ResizeComplexArray<T>(inBuf: array2<T>, out: array2<T>, cols: nat, rows: nat, factor: nat, zero: T)
    requires factor >= 1
    requires inBuf.Length0 == rows && inBuf.Length1 == cols
    requires out.Length0 == rows * factor && out.Length1 == cols * factor
    requires inBuf != out
    modifies out
    ensures forall r, c :: 0 <= r < out.Length0 && 0 <= c < out.Length1 ==>
      out[r, c] == if InBlock(rows, cols, factor, r, c)
                   then inBuf[r - StartRow(rows, factor), c - StartCol(cols, factor)]
                   else zero
  {
    Fill(out, zero);
    if rows == 0 || cols == 0 {
      return;
    }
    CentredBlockInside(rows, cols, factor, 0, 0);
    var startingCol := cols * factor / 2 - cols / 2;
    var startingRow := rows * factor / 2 - rows / 2;
    for j := 0 to cols
      invariant forall r, c :: 0 <= r < out.Length0 && 0 <= c < out.Length1 ==>
        out[r, c] == if InBlock(rows, cols, factor, r, c) && c < startingCol + j
                     then inBuf[r - startingRow, c - startingCol]
                     else zero
    {
      for i := 0 to rows
        invariant forall r, c :: 0 <= r < out.Length0 && 0 <= c < out.Length1 ==>
          out[r, c] == if InBlock(rows, cols, factor, r, c) && (c < startingCol + j || (c == startingCol + j && r < startingRow + i))
                       then inBuf[r - startingRow, c - startingCol]
                       else zero
      {
        out[startingRow + i, j + startingCol] := inBuf[i, j];
      }
    }
  }

  /** The first loop of `resize_complex_array`: every entry becomes zero. */
  method Fill<T>(out: array2<T>, zero: T)
    modifies out
    ensures forall r, c :: 0 <= r < out.Length0 && 0 <= c < out.Length1 ==> out[r, c] == zero
  {
    for j := 0 to out.Length1
      invariant forall r, c :: 0 <= r < out.Length0 && 0 <= c < j ==> out[r, c] == zero
    {
      for i := 0 to out.Length0
        invariant forall r, c :: 0 <= r < out.Length0 && 0 <= c < j ==> out[r, c] == zero
        invariant forall r :: 0 <= r < i ==> out[r, j] == zero
      {
        out[i, j] := zero;
      }
    }
  }

  /**
   * `set_comp`: entry (i, j) of the grey buffer goes into all three
   * channels of pixel (i, j) of the image; the rest of a larger image is
   * not touched.
   */
  method SetComp(cols: nat, rows: nat, ims: array2<UShort>, imd: Image)
    requires ims.Length0 == rows && ims.Length1 == cols
    requires IsRgb(imd) && imd.Length0 >= rows && imd.Length1 >= cols
    modifies imd
    ensures forall i, j, c :: InImage(imd, i, j, c) ==>
      imd[i, j, c] == if i < rows && j < cols then ims[i, j] else old(imd[i, j, c])
  {
    for j := 0 to cols
      invariant forall r, k, c :: InImage(imd, r, k, c) ==>
        imd[r, k, c] == if r < rows && k < j then ims[r, k] else old(imd[r, k, c])
    {
      for i := 0 to rows
        invariant forall r, k, c :: InImage(imd, r, k, c) ==>
          imd[r, k, c] == if r < rows && ColumnMajorBefore(r, k, c, i, j, 0) then ims[r, k] else old(imd[r, k, c])
      {
        for chan := 0 to 3
          invariant forall r, k, c :: InImage(imd, r, k, c) ==>
            imd[r, k, c] == if r < rows && ColumnMajorBefore(r, k, c, i, j, chan) then ims[r, k] else old(imd[r, k, c])
        {
          imd[i, j, chan] := ims[i, j];
        }
      }
    }
  }
}
