/**
 * The `color2mean` tool: every pixel becomes grey, with the integer mean
 * of its three components in all three channels.
 */
module Color2Mean {
  import opened Pnm

  /** The number of command-line words `color2mean` accepts: its name, `<ims>` and `<imd>`. */
  const ARGC := 3

  /**
   * The grey level of a pixel: the components are added as `int` (no
   * wrap-around) and divided by 3 with truncation.  It lies between the
   * darkest and the brightest component, so a grey pixel keeps its level.
   */
  function Mean(r: UShort, g: UShort, b: UShort): (m: UShort)
    ensures Min3(r, g, b) <= m <= Max3(r, g, b)
    ensures r == g == b ==> m == r
  {
    (r + g + b) / 3
  }

  /**
   * `main`: with the wrong number of arguments, the usage message and
   * nothing written; otherwise every component of `imd` (allocated with
   * the size of `ims`) is the mean of the pixel's three components.
   */
  method Color2MeanMain(argc: int, ims: Image, imd: Image) returns (status: Exit)
    requires IsRgb(ims) && IsRgb(imd) && SameSize(ims, imd) && ims != imd
    modifies imd
    ensures status == Usage <==> argc != ARGC
    ensures status == Usage ==> unchanged(imd)
    ensures status == Success ==>
      forall i, j, c :: InImage(imd, i, j, c) ==> imd[i, j, c] == Mean(ims[i, j, 0], ims[i, j, 1], ims[i, j, 2])
  {
    if argc != ARGC {
      return Usage;
    }
    var cols, rows := ims.Length1, ims.Length0;
    for j := 0 to cols
      invariant forall r, k, c :: InImage(imd, r, k, c) && k < j ==>
        imd[r, k, c] == Mean(ims[r, k, 0], ims[r, k, 1], ims[r, k, 2])
    {
      for i := 0 to rows
        invariant forall r, k, c :: InImage(imd, r, k, c) && ColumnMajorBefore(r, k, c, i, j, 0) ==>
          imd[r, k, c] == Mean(ims[r, k, 0], ims[r, k, 1], ims[r, k, 2])
      {
        var component := Mean(ims[i, j, 0], ims[i, j, 1], ims[i, j, 2]);
        for chan := 0 to 3
          invariant forall r, k, c :: InImage(imd, r, k, c) && ColumnMajorBefore(r, k, c, i, j, chan) ==>
            imd[r, k, c] == Mean(ims[r, k, 0], ims[r, k, 1], ims[r, k, 2])
        {
          imd[i, j, chan] := component;
        }
      }
    }
    return Success;
  }
}
