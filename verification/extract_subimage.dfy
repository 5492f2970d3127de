/**
 * The `extract-subimage` tool: a rows x cols window of the source, whose
 * top-left corner is (base_row, base_col), is copied into a new image.
 */
module ExtractSubimage {
  import opened Pnm

  /** The number of command-line words: the name, `<i> <j> <rows> <cols> <ims>` and `<imd>`. */
  const ARGC := 7

  /**
   * As written, the destination is allocated with `pnm_new(rows, cols)`,
   * whose first argument is the WIDTH: the image has `cols` rows and
   * `rows` columns.  The copy loop writes (i, j) for i < rows and
   * j < cols, and all those writes land inside that image only if this
   * holds.
   */
  predicate AsWrittenWritesFit(rows: nat, cols: nat)
  {
    forall i, j :: 0 <= i < rows && 0 <= j < cols ==> AsWrittenWriteFits(rows, cols, i, j)
  }

  /** The write at (i, j) lands inside the image `pnm_new(rows, cols)` allocates. */
  predicate AsWrittenWriteFits(rows: nat, cols: nat, i: int, j: int)
  {
    var width, height := rows, cols;
    0 <= i < height && 0 <= j < width
  }

  /** For a non-empty window, the allocation as written fits only square windows. */
  lemma AsWrittenFitsOnlySquare(rows: nat, cols: nat)
    requires rows > 0 && cols > 0
    ensures AsWrittenWritesFit(rows, cols) <==> rows == cols
  {
    if rows < cols {
      assert !AsWrittenWriteFits(rows, cols, 0, cols - 1);
    } else if cols < rows {
      assert !AsWrittenWriteFits(rows, cols, rows - 1, 0);
    }
  }

  /** The smallest window that shows it: one row and two columns. */
  lemma AsWrittenOneByTwo()
    ensures !AsWrittenWritesFit(1, 2)
  {
    AsWrittenFitsOnlySquare(1, 2);
  }

  /**
   * `main`, with the destination allocated `rows` high and `cols` wide
   * (`pnm_new(cols, rows)`): the usage message, and nothing written,
   * unless there are exactly six arguments; otherwise
   * imd(i, j, c) == ims(i + base_row, j + base_col, c) for every
   * component of the window.  The source is read only inside its bounds
   * when the window lies inside it, which the tool does not check.
   */
  method ExtractSubimageMain(argc: int, baseRow: int, baseCol: int, rows: nat, cols: nat, ims: Image, imd: Image)
    returns (status: Exit)
    requires IsRgb(ims) && IsRgb(imd) && ims != imd
    requires imd.Length0 == rows && imd.Length1 == cols
    requires 0 <= baseRow && baseRow + rows <= ims.Length0
    requires 0 <= baseCol && baseCol + cols <= ims.Length1
    modifies imd
    ensures status == Usage <==> argc != ARGC
    ensures status == Usage ==> unchanged(imd)
    ensures status == Success ==>
      forall i, j, c :: InImage(imd, i, j, c) ==> imd[i, j, c] == ims[i + baseRow, j + baseCol, c]
  {
    if argc != ARGC {
      return Usage;
    }
    for j := 0 to cols
      invariant forall r, k, c :: InImage(imd, r, k, c) && k < j ==> imd[r, k, c] == ims[r + baseRow, k + baseCol, c]
    {
      for i := 0 to rows
        invariant forall r, k, c :: InImage(imd, r, k, c) && ColumnMajorBefore(r, k, c, i, j, 0) ==>
          imd[r, k, c] == ims[r + baseRow, k + baseCol, c]
      {
        for color := 0 to 3
          invariant forall r, k, c :: InImage(imd, r, k, c) && ColumnMajorBefore(r, k, c, i, j, color) ==>
            imd[r, k, c] == ims[r + baseRow, k + baseCol, c]
        {
          var component := ims[i + baseRow, j + baseCol, color];
          imd[i, j, color] := component;
        }
      }
    }
    return Success;
  }
}
