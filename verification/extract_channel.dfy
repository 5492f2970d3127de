/**
 * The `extract-channel` tool: the chosen channel of every pixel is copied
 * into all three channels of the destination.
 */
module ExtractChannel {
  import opened Pnm

  /** The number of command-line words: the name, `<num>`, `<ims>` and `<imd>`. */
  const ARGC := 4

  /** Every pixel of `img` is grey: its three channels agree. */
  predicate IsGrey(img: Image)
    requires IsRgb(img)
    reads img
  {
    forall i, j :: 0 <= i < img.Length0 && 0 <= j < img.Length1 ==>
      img[i, j, 0] == img[i, j, 1] == img[i, j, 2]
  }

  /**
   * `main`: the usage message, and nothing written, unless there are
   * exactly three arguments and the channel number `num` (already read
   * with `atoi`) is 0, 1 or 2; otherwise every channel of every pixel of
   * `imd` is channel `num` of the same pixel of `ims`, so a grey image is
   * copied as it is.
   */
  method ExtractChannelMain(argc: int, num: int, ims: Image, imd: Image) returns (status: Exit)
    requires IsRgb(ims) && IsRgb(imd) && SameSize(ims, imd) && ims != imd
    modifies imd
    ensures status == Usage <==> argc != ARGC || num < 0 || num > 2
    ensures status == Usage ==> unchanged(imd)
    ensures status == Success ==>
      forall i, j, c :: InImage(imd, i, j, c) ==> imd[i, j, c] == ims[i, j, num]
    ensures status == Success && IsGrey(ims) ==>
      forall i, j, c :: InImage(imd, i, j, c) ==> imd[i, j, c] == ims[i, j, c]
  {
    if argc != ARGC || num < 0 || num > 2 {
      return Usage;
    }
    var cols, rows := ims.Length1, ims.Length0;
    for j := 0 to cols
      invariant forall r, k, c :: InImage(imd, r, k, c) && k < j ==> imd[r, k, c] == ims[r, k, num]
    {
      for i := 0 to rows
        invariant forall r, k, c :: InImage(imd, r, k, c) && ColumnMajorBefore(r, k, c, i, j, 0) ==>
          imd[r, k, c] == ims[r, k, num]
      {
        var component := ims[i, j, num];
        for chan := 0 to 3
          invariant forall r, k, c :: InImage(imd, r, k, c) && ColumnMajorBefore(r, k, c, i, j, chan) ==>
            imd[r, k, c] == ims[r, k, num]
        {
          imd[i, j, chan] := component;
        }
      }
    }
    return Success;
  }
}
