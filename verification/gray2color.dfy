/**
 * The `gray2color` tool: three images are merged into one, channel 0 from
 * the first, channel 1 from the second and channel 2 from the third.
 */
module Gray2Color {
  import opened Pnm

  /** The number of command-line words: the name, `<ims0> <ims1> <ims2>` and `<imd>`. */
  const ARGC := 5

  /** The component the merge puts in channel `chan` of pixel (i, j). */
  function Merged(red: Image, green: Image, blue: Image, i: int, j: int, chan: int): UShort
    requires IsRgb(red) && IsRgb(green) && IsRgb(blue)
    requires 0 <= i < red.Length0 && 0 <= j < red.Length1 && 0 <= chan < 3
    requires Covers(green, red) && Covers(blue, red)
    reads red, green, blue
  {
    if chan == 0 then red[i, j, 0] else if chan == 1 then green[i, j, 1] else blue[i, j, 2]
  }

  /**
   * `main`: the usage message, and nothing written, unless there are
   * exactly four arguments; otherwise `imd`, allocated with the size of
   * the red input, takes channel 0 of `red`, channel 1 of `green` and
   * channel 2 of `blue` at every pixel, and the inputs are only read.
   */
  method Gray2ColorMain(argc: int, red: Image, green: Image, blue: Image, imd: Image) returns (status: Exit)
    requires IsRgb(red) && IsRgb(green) && IsRgb(blue) && IsRgb(imd)
    requires Covers(green, red) && Covers(blue, red) && SameSize(red, imd)
    requires imd != red && imd != green && imd != blue
    modifies imd
    ensures status == Usage <==> argc != ARGC
    ensures status == Usage ==> unchanged(imd)
    ensures status == Success ==>
      forall i, j :: 0 <= i < imd.Length0 && 0 <= j < imd.Length1 ==>
        imd[i, j, 0] == red[i, j, 0] && imd[i, j, 1] == green[i, j, 1] && imd[i, j, 2] == blue[i, j, 2]
  {
    if argc != ARGC {
      return Usage;
    }
    var cols, rows := red.Length1, red.Length0;
    for j := 0 to cols
      invariant forall r, k, c :: InImage(imd, r, k, c) && k < j ==> imd[r, k, c] == Merged(red, green, blue, r, k, c)
    {
      for i := 0 to rows
        invariant forall r, k, c :: InImage(imd, r, k, c) && ColumnMajorBefore(r, k, c, i, j, 0) ==>
          imd[r, k, c] == Merged(red, green, blue, r, k, c)
      {
        for chan := 0 to 3
          invariant forall r, k, c :: InImage(imd, r, k, c) && ColumnMajorBefore(r, k, c, i, j, chan) ==>
            imd[r, k, c] == Merged(red, green, blue, r, k, c)
        {
          var component: UShort;
          if chan == 0 {
            component := red[i, j, chan];
          } else if chan == 1 {
            component := green[i, j, chan];
          } else {
            component := blue[i, j, chan];
          }
          imd[i, j, chan] := component;
        }
      }
    }
    return Success;
  }
}
