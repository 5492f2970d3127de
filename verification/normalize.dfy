/**
 * The `normalize` tool: every component is sent through the affine map
 * that takes the library's component range [0, maxval] onto [min, max].
 * The arithmetic is done over the reals (the tool uses `float`).
 */
module Normalize {
  import opened Pnm

  /** The number of command-line words: the name, `<min> <max> <ims>` and `<imd>`. */
  const ARGC := 5

  /**
   * The map of the tool, written as it is: with `maxValue` the largest
   * component and `minValue` = 0,
   * ((max - min) / (maxValue - minValue)) * x + (min * maxValue - max * minValue) / (maxValue - minValue).
   */
  function Affine(min: real, max: real, maxValue: real, x: real): real
    requires maxValue > 0.0
  {
    var minValue := 0.0;
    ((max - min) / (maxValue - minValue)) * x + (min * maxValue - max * minValue) / (maxValue - minValue)
  }

  /** The map sends the darkest component to `min` and the brightest to `max`. */
  lemma AffineEnds(min: real, max: real, maxValue: real)
    requires maxValue > 0.0
    ensures Affine(min, max, maxValue, 0.0) == min
    ensures Affine(min, max, maxValue, maxValue) == max
  {
    assert (min * maxValue) / maxValue == min;
    assert ((max - min) / maxValue) * maxValue == max - min;
  }

  /** With max >= min the map never reverses the order of two components. */
  lemma AffineMonotonic(min: real, max: real, maxValue: real, x: real, y: real)
    requires maxValue > 0.0 && min <= max && x <= y
    ensures Affine(min, max, maxValue, x) <= Affine(min, max, maxValue, y)
  {
    var slope := (max - min) / maxValue;
    assert slope >= 0.0;
    assert slope * x <= slope * y;
  }

  /**
   * A component of the range lands between `min` and `max` (in either
   * order), so it fits the destination when both bounds do.
   */
  lemma AffineBetween(min: real, max: real, maxValue: real, x: real)
    requires maxValue > 0.0 && 0.0 <= x <= maxValue
    ensures min <= max ==> min <= Affine(min, max, maxValue, x) <= max
    ensures max <= min ==> max <= Affine(min, max, maxValue, x) <= min
  {
    var t := x / maxValue;
    assert 0.0 <= t <= 1.0;
    assert Affine(min, max, maxValue, x) == min + (max - min) * t;
    if min <= max {
      ScaledBelow(max - min, t);
    } else {
      ScaledBelow(min - max, t);
    }
  }

  lemma ScaledBelow(a: real, t: real)
    requires a >= 0.0 && 0.0 <= t <= 1.0
    ensures 0.0 <= a * t <= a
  {
    assert a - a * t == a * (1.0 - t);
  }

  /** What the tool writes for component `x`. */
  function Normalized(min: real, max: real, maxval: nat, x: UShort): (u: UShort)
    requires maxval > 0 && x <= maxval
    requires 0.0 <= min < 65536.0 && 0.0 <= max < 65536.0
    ensures min <= max ==> min.Floor <= u <= max.Floor
    ensures max <= min ==> max.Floor <= u <= min.Floor
    ensures x == 0 ==> u == min.Floor
    ensures x == maxval ==> u == max.Floor
  {
    AffineBetween(min, max, maxval as real, x as real);
    AffineEnds(min, max, maxval as real);
    ToUShort(Affine(min, max, maxval as real, x as real))
  }

  /** No component of `img` exceeds `maxval`. */
  predicate AtMost(img: Image, maxval: nat)
    reads img
  {
    forall i, j, c :: 0 <= i < img.Length0 && 0 <= j < img.Length1 && 0 <= c < img.Length2 ==> img[i, j, c] <= maxval
  }

  /**
   * `main`: the usage message, and nothing written, unless there are
   * exactly four arguments; otherwise every component of `imd` is the
   * truncated image of the same component of `ims` under the map, and
   * all pixels and channels use the same map.  `min` and `max` are the
   * `atof` values of the first two arguments and `maxval` the library's
   * largest component.
   */
  method NormalizeMain(argc: int, min: real, max: real, maxval: nat, ims: Image, imd: Image) returns (status: Exit)
    requires IsRgb(ims) && IsRgb(imd) && SameSize(ims, imd) && ims != imd
    requires maxval > 0
    requires AtMost(ims, maxval)
    requires 0.0 <= min < 65536.0 && 0.0 <= max < 65536.0
    modifies imd
    ensures status == Usage <==> argc != ARGC
    ensures status == Usage ==> unchanged(imd)
    ensures status == Success ==>
      forall i, j, c :: InImage(imd, i, j, c) ==> imd[i, j, c] == Normalized(min, max, maxval, ims[i, j, c])
  {
    if argc != ARGC {
      return Usage;
    }
    var cols, rows := ims.Length1, ims.Length0;
    var maxValue := maxval as real;
    var minValue := 0.0;
    for j := 0 to cols
      invariant forall r, k, c :: InImage(imd, r, k, c) && k < j ==>
        imd[r, k, c] == Normalized(min, max, maxval, ims[r, k, c])
    {
      for i := 0 to rows
        invariant forall r, k, c :: InImage(imd, r, k, c) && ColumnMajorBefore(r, k, c, i, j, 0) ==>
          imd[r, k, c] == Normalized(min, max, maxval, ims[r, k, c])
      {
        for chan := 0 to 3
          invariant forall r, k, c :: InImage(imd, r, k, c) && ColumnMajorBefore(r, k, c, i, j, chan) ==>
            imd[r, k, c] == Normalized(min, max, maxval, ims[r, k, c])
        {
          var component := ims[i, j, chan];
          var x := component as real;
          var res1 := ((max - min) / (maxValue - minValue)) * x;
          var res2 := (min * maxValue - max * minValue) / (maxValue - minValue);
          var res := res1 + res2;
          assert res == Affine(min, max, maxValue, x);
          AffineBetween(min, max, maxValue, component as real);
          imd[i, j, chan] := ToUShort(res);
        }
      }
    }
    return Success;
  }
}
