/**
 * Structuring elements for mathematical morphology: a shape is painted in
 * white (255) on a square image of odd side 2 * hs + 1, centred on the
 * middle pixel.
 */
module StructuringElement {
  import opened Pnm
  import opened Wrappers

  /** The shapes, in the order of the tool's shape codes 0 to 8. */
  datatype Shape = Square | Diamond | Disk | LineV | DiagR | LineH | DiagL | Cross | Plus

  /** The shape a code selects; any other code is the usage error. */
  function ShapeOf(code: int): (s: Option<Shape>)
    ensures s.Some? <==> 0 <= code <= 8
    ensures s == Some(Square) <==> code == 0
    ensures s == Some(Plus) <==> code == 8
  {
    match code
    case 0 => Some(Square)
    case 1 => Some(Diamond)
    case 2 => Some(Disk)
    case 3 => Some(LineV)
    case 4 => Some(DiagR)
    case 5 => Some(LineH)
    case 6 => Some(DiagL)
    case 7 => Some(Cross)
    case 8 => Some(Plus)
    case _ => None
  }

  function Abs(x: int): nat
  {
    if x < 0 then -x else x
  }

  /**
   * The right end of row i of the diamond, computed as the builder does:
   * size/2 + i, pulled back by twice i mod (size/2) once it leaves the
   * image, and set to size/2 on the last row.
   */
  function DiamondRight(size: nat, i: nat): int
    requires i < size
  {
    var offsetR := size / 2 + i;
    var offsetR' := if offsetR >= size then offsetR - (i % (size / 2)) * 2 else offsetR;
    if i == size - 1 then size / 2 else offsetR'
  }

  /** Pixel (i, j) is painted by the diamond builder: offset_l <= j <= offset_r. */
  predicate InDiamond(size: nat, i: int, j: int)
  {
    0 <= i < size && Abs(size / 2 - i) <= j <= DiamondRight(size, i)
  }

  /**
   * Pixel (i, j) is painted by the disk builder.  The builder compares the
   * square root of the squared distance with size/2; for a non-negative
   * radius that is the comparison of the squared distance with its square.
   */
  predicate InDisk(size: nat, i: int, j: int)
  {
    var c := size / 2;
    (c - i) * (c - i) + (c - j) * (c - j) <= c * c
  }

  /** The pixels each shape paints on a size x size image. */
  predicate InShape(shape: Shape, size: nat, i: int, j: int)
  {
    match shape
    case Square => true
    case Diamond => InDiamond(size, i, j)
    case Disk => InDisk(size, i, j)
    case LineV => j == size / 2
    case LineH => i == size / 2
    case DiagR => j == size - i - 1
    case DiagL => j == i
    case Cross => j == size - i - 1 || j == i
    case Plus => j == size / 2 || i == size / 2
  }

  /** On an odd side, the diamond is exactly the ball of radius size/2 for |di| + |dj|. */
  lemma DiamondIsL1Ball(size: nat, i: nat, j: nat)
    requires size % 2 == 1 && i < size && j < size
    ensures InDiamond(size, i, j) <==> Abs(i - size / 2) + Abs(j - size / 2) <= size / 2
  {
    DiamondRightIsL1(size, i);
  }

  /** Row i of the diamond ends at size - 1 - |i - c|: the offset arithmetic folds back at the centre row. */
  lemma DiamondRightIsL1(size: nat, i: nat)
    requires size % 2 == 1 && i < size
    ensures DiamondRight(size, i) == 2 * (size / 2) - Abs(i - size / 2)
  {
    var c := size / 2;
    assert size == 2 * c + 1;
    if c < i < 2 * c {
      ModUnique(i, c, 1, i - c);
    } else if i == 2 * c && c > 0 {
      ModUnique(i, c, 2, 0);
    }
  }

  /**
   * Every shape on an odd side is symmetric about the centre: the
   * structuring element is its own reflection.
   */
  lemma ShapeIsSymmetric(shape: Shape, size: nat, i: nat, j: nat)
    requires size % 2 == 1 && i < size && j < size
    ensures InShape(shape, size, i, j) <==> InShape(shape, size, size - 1 - i, size - 1 - j)
  {
    var c := size / 2;
    match shape
    case Diamond =>
      DiamondIsL1Ball(size, i, j);
      DiamondIsL1Ball(size, size - 1 - i, size - 1 - j);
    case Disk =>
      var di, dj := c - i, c - j;
      assert c - (size - 1 - i) == -di && c - (size - 1 - j) == -dj;
      assert (-di) * (-di) == di * di && (-dj) * (-dj) == dj * dj;
    case Cross =>
    case Plus =>
    case _ =>
  }

  /** Every shape on an odd side contains the centre pixel. */
  lemma CentreInShape(shape: Shape, size: nat)
    requires size % 2 == 1
    ensures InShape(shape, size, size / 2, size / 2)
  {
    if shape == Diamond {
      DiamondIsL1Ball(size, size / 2, size / 2);
    }
  }

  /**
   * The loop shared by the builders: every pixel (i, j) of the square
   * image that passes the builder's test gets 255 in its three channels;
   * every other component keeps what it had.
   */
  method Paint(imd: Image, inShape: (int, int) -> bool)
    requires IsRgb(imd) && imd.Length0 == imd.Length1
    modifies imd
    ensures forall i, j, c :: InImage(imd, i, j, c) ==>
      imd[i, j, c] == if inShape(i, j) then 255 else old(imd[i, j, c])
  {
    var size := imd.Length1;
    for i := 0 to size
      invariant forall r, k, c :: InImage(imd, r, k, c) ==>
        imd[r, k, c] == if r < i && inShape(r, k) then 255 else old(imd[r, k, c])
    {
      for j := 0 to size
        invariant forall r, k, c :: InImage(imd, r, k, c) ==>
          imd[r, k, c] == if (r < i || (r == i && k < j)) && inShape(r, k) then 255 else old(imd[r, k, c])
      {
        if inShape(i, j) {
          for c := 0 to 3
            invariant forall r, k, ch :: InImage(imd, r, k, ch) ==>
              imd[r, k, ch] ==
                if ((r < i || (r == i && k < j)) && inShape(r, k)) || (r == i && k == j && ch < c) then 255
                else old(imd[r, k, ch])
          {
            imd[i, j, c] := 255;
          }
        }
      }
    }
  }

  /** Paints `shape` on the square image `imd`: 255 on the shape, nothing touched off it. */
  method Build(shape: Shape, imd: Image)
    requires IsRgb(imd) && imd.Length0 == imd.Length1
    requires !shape.Cross? && !shape.Plus?
    modifies imd
    ensures forall i, j, c :: InImage(imd, i, j, c) ==>
      imd[i, j, c] == if InShape(shape, imd.Length1, i, j) then 255 else old(imd[i, j, c])
  {
    var size := imd.Length1;
    Paint(imd, (i, j) => InShape(shape, size, i, j));
  }

  /**
   * `se(s, hs)` on the image `pnm_new(2hs+1, 2hs+1)` gave it: an unknown
   * shape code is the usage error and paints nothing; otherwise the shape
   * is painted, Cross as DiagR then DiagL and Plus as LineV then LineH, so
   * each is the union of its two strokes.
   */
  method Se(s: int, hs: nat, imd: Image) returns (status: Exit)
    requires IsRgb(imd) && imd.Length0 == 2 * hs + 1 && imd.Length1 == 2 * hs + 1
    modifies imd
    ensures status == Usage <==> ShapeOf(s).None?
    ensures status == Usage ==> unchanged(imd)
    ensures status == Success ==> forall i, j, c :: InImage(imd, i, j, c) ==>
      imd[i, j, c] == if InShape(ShapeOf(s).value, 2 * hs + 1, i, j) then 255 else old(imd[i, j, c])
  {
    var shape := ShapeOf(s);
    if shape.None? {
      return Usage;
    }
    match shape.value {
      case Cross =>
        Build(DiagR, imd);
        Build(DiagL, imd);
      case Plus =>
        Build(LineV, imd);
        Build(LineH, imd);
      case _ =>
        Build(shape.value, imd);
    }
    return Success;
  }
}
