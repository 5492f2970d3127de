/**
 * The image handle of the bcl image library, as the tools see it.
 *
 * A pnm image is a three-channel raster of `unsigned short` components,
 * addressed as (row, column, channel).  The library itself (loading,
 * saving, allocating) is not part of this model: an image is an
 * `array3` whose first dimension is the height, whose second is the
 * width and whose third is the channel.
 */
module Pnm {

  /** An `unsigned short` component. */
  type UShort = x: int | 0 <= x < 0x1_0000

  /** A pnm image, indexed [row, col, channel]. */
  type Image = array3<UShort>

  /** How one of the command-line tools ends: with its usage message, or normally. */
  datatype Exit = Usage | Success

  /** The image has the three channels of the library's colour model. */
  predicate IsRgb(img: Image)
  {
    img.Length2 == 3
  }

  /** `b` is what `pnm_new(width(a), height(a))` allocates beside `a`. */
  predicate SameSize(a: Image, b: Image)
  {
    a.Length0 == b.Length0 && a.Length1 == b.Length1
  }

  /** Every pixel position of `b` is also one of `a`. */
  predicate Covers(a: Image, b: Image)
  {
    a.Length0 >= b.Length0 && a.Length1 >= b.Length1
  }

  /** (row, col, chan) names a component of `img`. */
  predicate InImage(img: Image, row: int, col: int, chan: int)
  {
    0 <= row < img.Length0 && 0 <= col < img.Length1 && 0 <= chan < img.Length2
  }

  /**
   * The conversion of a non-negative `float` to `unsigned short`:
   * truncation toward zero, defined only below 65536.
   */
  function ToUShort(x: real): (u: UShort)
    requires 0.0 <= x < 65536.0
    ensures u as real <= x < u as real + 1.0
  {
    x.Floor
  }

  function Min3(a: int, b: int, c: int): int
  {
    if a <= b && a <= c then a else if b <= c then b else c
  }

  function Max3(a: int, b: int, c: int): int
  {
    if a >= b && a >= c then a else if b >= c then b else c
  }

  /**
   * The quotient and remainder of a by n are the q and r of any
   * decomposition a == n * q + r with 0 <= r < n.
   */
  lemma ModUnique(a: int, n: int, q: int, r: int)
    requires n > 0 && a == n * q + r && 0 <= r < n
    ensures a / n == q && a % n == r
  {
    var q0, r0 := a / n, a % n;
    assert n * (q0 - q) == r - r0;
    if q0 > q {
      MulAtLeast(n, q0 - q);
    } else if q0 < q {
      MulAtLeast(n, q - q0);
    }
  }

  lemma MulAtLeast(n: nat, k: int)
    requires k >= 1
    ensures n * k >= n
  {
    assert n * k == n * (k - 1) + n;
    assert n * (k - 1) >= 0;
  }

  /**
   * The tools fill their destination column by column, then row by row,
   * then channel by channel: (row, col, chan) comes before the loop
   * position (i, j, c) in that order.
   */
  predicate ColumnMajorBefore(row: int, col: int, chan: int, i: int, j: int, c: int)
  {
    col < j || (col == j && row < i) || (col == j && row == i && chan < c)
  }
}

/** Failure-compatible wrappers used where the source aborts or returns NULL. */
module Wrappers {

  datatype Option<+T> = None | Some(value: T)

  datatype Result<+T, +E> = Ok(value: T) | Err(error: E)
}
