/**
 * The colour-space half of the colorization tool: a pixel buffer of
 * `float` triples, filled from an image, converted from RGB to the
 * decorrelated L-alpha-beta space and back, and written into an image
 * after an affine stretch to [0, 255].
 *
 * The C buffer is one `float` array viewed as [rows][cols][3]; here it is
 * an `array3<Float>`.  `Float` keeps the IEEE infinities the tool uses as
 * markers and as start values of the extents.  `log10f` and `pow(10, .)`
 * are parameters: nothing is known about them.
 */
module ColorSpace {
  import opened Pnm

  /** The dimension of the colour vectors and matrices. */
  const D := 3

  /** The bounds of the stretched output range (`min` and `max`). */
  const OUT_MIN := 0.0
  const OUT_MAX := 255.0

  /** A `float` of the buffer: a finite value or one of the two infinities. */
  datatype Float = Fin(v: real) | Infinity | NegInfinity

  /** The order of floats, infinities included. */
  predicate LessEq(a: Float, b: Float)
  {
    match (a, b)
    case (NegInfinity, _) => true
    case (_, Infinity) => true
    case (Fin(x), Fin(y)) => x <= y
    case _ => false
  }

  predicate Less(a: Float, b: Float)
  {
    LessEq(a, b) && a != b
  }

  /** A buffer of `float` triples, indexed [row, col, channel]. */
  type Buffer = array3<Float>

  /** The buffer matches an image of that many rows and columns. */
  predicate IsBufferFor(data: Buffer, rows: int, cols: int)
  {
    data.Length0 == rows && data.Length1 == cols && data.Length2 == D
  }

  /** No component of the buffer is infinite. */
  predicate AllFinite(data: Buffer)
    reads data
  {
    forall i, j, c :: 0 <= i < data.Length0 && 0 <= j < data.Length1 && 0 <= c < data.Length2 ==> data[i, j, c].Fin?
  }

  /** The value of a finite float (an infinity reads as 0; only finite buffers are converted). */
  function Value(f: Float): real
  {
    if f.Fin? then f.v else 0.0
  }

  /** The three components of pixel (i, j). */
  function PixelOf(data: Buffer, i: int, j: int): (p: seq<real>)
    reads data
    requires data.Length2 == D
    requires 0 <= i < data.Length0 && 0 <= j < data.Length1
    ensures |p| == D
    ensures AllFinite(data) ==> data[i, j, 0] == Fin(p[0]) && data[i, j, 1] == Fin(p[1]) && data[i, j, 2] == Fin(p[2])
  {
    [Value(data[i, j, 0]), Value(data[i, j, 1]), Value(data[i, j, 2])]
  }

  /** The buffer is filled row by row, then column by column: pixel (r, k) is before (i, j). */
  predicate RowMajorBefore(r: int, k: int, i: int, j: int)
  {
    r < i || (r == i && k < j)
  }

  /** `init_data`: every component of the buffer is the image's, as a float. */
  method InitData(ims: Image, data: Buffer)
    requires IsRgb(ims) && IsBufferFor(data, ims.Length0, ims.Length1)
    modifies data
    ensures AllFinite(data)
    ensures forall i, j, c :: InImage(ims, i, j, c) ==> data[i, j, c] == Fin(ims[i, j, c] as real)
  {
    for i := 0 to ims.Length0
      invariant forall r, k, c :: InImage(ims, r, k, c) && r < i ==> data[r, k, c] == Fin(ims[r, k, c] as real)
    {
      for j := 0 to ims.Length1
        invariant forall r, k, c :: InImage(ims, r, k, c) && RowMajorBefore(r, k, i, j) ==> data[r, k, c] == Fin(ims[r, k, c] as real)
      {
        for c := 0 to 3
          invariant forall r, k, ch :: InImage(ims, r, k, ch) && RowMajorBefore(r, k, i, j) ==> data[r, k, ch] == Fin(ims[r, k, ch] as real)
          invariant forall ch :: 0 <= ch < c ==> data[i, j, ch] == Fin(ims[i, j, ch] as real)
        {
          data[i, j, c] := Fin(ims[i, j, c] as real);
        }
      }
    }
  }

  /** A 3 x 3 matrix, by rows. */
  predicate IsMatrix(m: seq<seq<real>>)
  {
    |m| == D && forall k :: 0 <= k < D ==> |m[k]| == D
  }

  const RGB2LMS: seq<seq<real>> := [
    [0.3811, 0.5783, 0.0402],
    [0.1967, 0.7244, 0.0782],
    [0.0241, 0.1288, 0.8444]]

  const LOGLMS2LAB: seq<seq<real>> := [
    [0.5573, 0.5773, 0.5773],
    [0.4082, 0.4082, -0.8164],
    [0.7071, -0.7071, 0.0]]

  const LAB2LOGLMS: seq<seq<real>> := [
    [0.5573, 0.4082, 0.7071],
    [0.5573, 0.4082, -0.7071],
    [0.5573, -0.8164, 0.0]]

  const LMS2RGB: seq<seq<real>> := [
    [4.4679, -3.5873, 0.1193],
    [-1.2186, 2.3809, -0.1624],
    [0.0497, -0.2439, 1.2045]]

  /** The first n terms of row . v, added from the left as the C loops do. */
  function Dot(row: seq<real>, v: seq<real>, n: nat): real
    requires n <= |row| && n <= |v|
  {
    if n == 0 then 0.0 else Dot(row, v, n - 1) + row[n - 1] * v[n - 1]
  }

  /** The product of a matrix and a colour vector. */
  function Apply(m: seq<seq<real>>, v: seq<real>): (r: seq<real>)
    requires IsMatrix(m) && |v| == D
    ensures |r| == D
  {
    [Dot(m[0], v, D), Dot(m[1], v, D), Dot(m[2], v, D)]
  }

  /** Any matrix sends the zero vector to zero. */
  lemma {:induction false} DotOfZero(row: seq<real>, v: seq<real>, n: nat)
    requires n <= |row| && n <= |v|
    requires forall k :: 0 <= k < n ==> v[k] == 0.0
    ensures Dot(row, v, n) == 0.0
  {
    if n > 0 {
      DotOfZero(row, v, n - 1);
    }
  }

  lemma ApplyToZero(m: seq<seq<real>>)
    requires IsMatrix(m)
    ensures Apply(m, [0.0, 0.0, 0.0]) == [0.0, 0.0, 0.0]
  {
    var z := [0.0, 0.0, 0.0];
    DotOfZero(m[0], z, D);
    DotOfZero(m[1], z, D);
    DotOfZero(m[2], z, D);
  }

  /** The matrix-vector loops of the conversions: line by line, column by column. */
  method MatVec(m: seq<seq<real>>, v: seq<real>) returns (r: seq<real>)
    requires IsMatrix(m) && |v| == D
    ensures r == Apply(m, v)
  {
    r := [];
    for line := 0 to D
      invariant r == Apply(m, v)[..line]
    {
      var acc := 0.0;
      for col := 0 to D
        invariant acc == Dot(m[line], v, col)
      {
        acc := acc + m[line][col] * v[col];
      }
      r := r + [acc];
    }
  }

  /** The guarded logarithm of `rgb_to_lalphabeta`: 0 for a zero LMS component. */
  function LogGuard(log10: real -> real, x: real): (l: real)
    ensures x == 0.0 ==> l == 0.0
    ensures x != 0.0 ==> l == log10(x)
  {
    if x == 0.0 then 0.0 else log10(x)
  }

  /** The guarded logarithm of each LMS component. */
  function LogLms(log10: real -> real, lms: seq<real>): (r: seq<real>)
    requires |lms| == D
    ensures |r| == D && forall c :: 0 <= c < D ==> r[c] == LogGuard(log10, lms[c])
  {
    [LogGuard(log10, lms[0]), LogGuard(log10, lms[1]), LogGuard(log10, lms[2])]
  }

  /** RGB -> LMS -> guarded log -> L-alpha-beta for one pixel. */
  function ToLalphabeta(log10: real -> real, rgb: seq<real>): (lab: seq<real>)
    requires |rgb| == D
    ensures |lab| == D
  {
    Apply(LOGLMS2LAB, LogLms(log10, Apply(RGB2LMS, rgb)))
  }

  /** Thanks to the guard, black goes to (0, 0, 0) whatever the logarithm does at 0. */
  lemma BlackIsOrigin(log10: real -> real)
    ensures ToLalphabeta(log10, [0.0, 0.0, 0.0]) == [0.0, 0.0, 0.0]
  {
    ApplyToZero(RGB2LMS);
    assert LogLms(log10, [0.0, 0.0, 0.0]) == [0.0, 0.0, 0.0];
    ApplyToZero(LOGLMS2LAB);
  }

  /**
   * `rgb_to_lalphabeta`: every pixel is replaced by its L-alpha-beta
   * triple; the LMS components are computed first, so the pixel is read
   * before any of it is written.
   */
  method RgbToLalphabeta(data: Buffer, log10: real -> real)
    requires data.Length2 == D && AllFinite(data)
    modifies data
    ensures AllFinite(data)
    ensures forall i, j :: 0 <= i < data.Length0 && 0 <= j < data.Length1 ==>
      PixelOf(data, i, j) == ToLalphabeta(log10, old(PixelOf(data, i, j)))
  {
    for i := 0 to data.Length0
      invariant AllFinite(data)
      invariant forall r, k :: 0 <= r < data.Length0 && 0 <= k < data.Length1 ==>
        PixelOf(data, r, k) == if r < i then ToLalphabeta(log10, old(PixelOf(data, r, k))) else old(PixelOf(data, r, k))
    {
      for j := 0 to data.Length1
        invariant AllFinite(data)
        invariant forall r, k :: 0 <= r < data.Length0 && 0 <= k < data.Length1 ==>
          PixelOf(data, r, k) == if RowMajorBefore(r, k, i, j) then ToLalphabeta(log10, old(PixelOf(data, r, k))) else old(PixelOf(data, r, k))
      {
        var lms := MatVec(RGB2LMS, PixelOf(data, i, j));
        var logLms: seq<real> := [];
        for col := 0 to D
          invariant logLms == LogLms(log10, lms)[..col]
        {
          var l := log10(lms[col]);
          if lms[col] == 0.0 {
            l := 0.0;
          }
          logLms := logLms + [l];
        }
        assert logLms == LogLms(log10, lms);
        var lab := MatVec(LOGLMS2LAB, logLms);
        assert lab == ToLalphabeta(log10, old(PixelOf(data, i, j)));
        WritePixel(data, i, j, lab);
      }
    }
  }

  /** Pixel (i, j) takes the three values `p`; nothing else changes. */
  method WritePixel(data: Buffer, i: int, j: int, p: seq<real>)
    requires data.Length2 == D && AllFinite(data) && |p| == D
    requires 0 <= i < data.Length0 && 0 <= j < data.Length1
    modifies data
    ensures AllFinite(data)
    ensures PixelOf(data, i, j) == p
    ensures forall r, k :: 0 <= r < data.Length0 && 0 <= k < data.Length1 && (r, k) != (i, j) ==>
      PixelOf(data, r, k) == old(PixelOf(data, r, k))
    ensures forall r, k, ch :: 0 <= r < data.Length0 && 0 <= k < data.Length1 && 0 <= ch < D && (r, k) != (i, j) ==>
      data[r, k, ch] == old(data[r, k, ch])
  {
    for c := 0 to D
      invariant AllFinite(data)
      invariant forall ch :: 0 <= ch < c ==> data[i, j, ch] == Fin(p[ch])
      invariant forall r, k, ch :: 0 <= r < data.Length0 && 0 <= k < data.Length1 && 0 <= ch < D && ((r, k) != (i, j) || ch >= c) ==>
        data[r, k, ch] == old(data[r, k, ch])
    {
      data[i, j, c] := Fin(p[c]);
    }
  }

  /** L-alpha-beta -> log LMS -> LMS (through 10^x) -> RGB for one pixel. */
  function ToRgb(pow10: real -> real, lab: seq<real>): (rgb: seq<real>)
    requires |lab| == D
    ensures |rgb| == D
  {
    var logLms := Apply(LAB2LOGLMS, lab);
    Apply(LMS2RGB, [pow10(logLms[0]), pow10(logLms[1]), pow10(logLms[2])])
  }

  /** Component c of every pixel lies between lo and hi. */
  predicate Within(data: Buffer, c: int, lo: Float, hi: Float)
    reads data
  {
    0 <= c < data.Length2 &&
    forall i, j :: 0 <= i < data.Length0 && 0 <= j < data.Length1 ==> LessEq(lo, data[i, j, c]) && LessEq(data[i, j, c], hi)
  }

  /** Some pixel has component c equal to x. */
  predicate Attained(data: Buffer, c: int, x: Float)
    reads data
  {
    0 <= c < data.Length2 &&
    exists i, j :: 0 <= i < data.Length0 && 0 <= j < data.Length1 && data[i, j, c] == x
  }

  /**
   * `lalphabeta_to_rgb`: every pixel is converted back to RGB and the
   * extents `minValue`/`maxValue` of each channel are widened to cover
   * it.  Afterwards every component lies within its channel's extents,
   * and an extent that moved is the value of some pixel.
   */
  method LalphabetaToRgb(data: Buffer, pow10: real -> real, minValue: array<Float>, maxValue: array<Float>)
    requires data.Length2 == D && AllFinite(data)
    requires minValue.Length == D && maxValue.Length == D && minValue != maxValue
    modifies data, minValue, maxValue
    ensures AllFinite(data)
    ensures forall i, j :: 0 <= i < data.Length0 && 0 <= j < data.Length1 ==>
      PixelOf(data, i, j) == ToRgb(pow10, old(PixelOf(data, i, j)))
    ensures forall c :: 0 <= c < D ==> Within(data, c, minValue[c], maxValue[c])
    ensures forall c :: 0 <= c < D ==> LessEq(minValue[c], old(minValue[c])) && LessEq(old(maxValue[c]), maxValue[c])
    ensures forall c :: 0 <= c < D ==> minValue[c] == old(minValue[c]) || Attained(data, c, minValue[c])
    ensures forall c :: 0 <= c < D ==> maxValue[c] == old(maxValue[c]) || Attained(data, c, maxValue[c])
  {
    ghost var origMin := minValue[..];
    ghost var origMax := maxValue[..];
    for i := 0 to data.Length0
      invariant AllFinite(data)
      invariant forall r, k :: 0 <= r < data.Length0 && 0 <= k < data.Length1 ==>
        PixelOf(data, r, k) == if r < i then ToRgb(pow10, old(PixelOf(data, r, k))) else old(PixelOf(data, r, k))
      invariant ExtentsOk(data, minValue, maxValue, origMin, origMax, i, 0)
    {
      for j := 0 to data.Length1
        invariant AllFinite(data)
        invariant forall r, k :: 0 <= r < data.Length0 && 0 <= k < data.Length1 ==>
          PixelOf(data, r, k) == if RowMajorBefore(r, k, i, j) then ToRgb(pow10, old(PixelOf(data, r, k))) else old(PixelOf(data, r, k))
        invariant ExtentsOk(data, minValue, maxValue, origMin, origMax, i, j)
      {
        ConvertPixel(data, i, j, pow10, minValue, maxValue, origMin, origMax);
      }
      ExtentsNextRow(data, minValue, maxValue, origMin, origMax, i);
    }
    ExtentsDone(data, minValue, maxValue, origMin, origMax);
  }

  /**
   * The extents after the pixels before (i, j): they cover those pixels,
   * they are at least as wide as they started, and an extent that moved
   * is the value of one of those pixels.
   */
  predicate ExtentsOk(data: Buffer, minValue: array<Float>, maxValue: array<Float>,
                      origMin: seq<Float>, origMax: seq<Float>, i: int, j: int)
    reads data, minValue, maxValue
  {
    data.Length2 == D && minValue.Length == D && maxValue.Length == D && |origMin| == D && |origMax| == D &&
    forall c :: 0 <= c < D ==>
      ExtentsCover(data, c, minValue[c], maxValue[c], i, j) &&
      LessEq(minValue[c], origMin[c]) && LessEq(origMax[c], maxValue[c]) &&
      (minValue[c] == origMin[c] || AttainedBefore(data, c, minValue[c], i, j)) &&
      (maxValue[c] == origMax[c] || AttainedBefore(data, c, maxValue[c], i, j))
  }

  /** The end of a row is the start of the next one. */
  lemma ExtentsNextRow(data: Buffer, minValue: array<Float>, maxValue: array<Float>,
                       origMin: seq<Float>, origMax: seq<Float>, i: int)
    requires ExtentsOk(data, minValue, maxValue, origMin, origMax, i, data.Length1)
    ensures ExtentsOk(data, minValue, maxValue, origMin, origMax, i + 1, 0)
  {
    forall c | 0 <= c < D
      ensures minValue[c] == origMin[c] || AttainedBefore(data, c, minValue[c], i + 1, 0)
      ensures maxValue[c] == origMax[c] || AttainedBefore(data, c, maxValue[c], i + 1, 0)
    {
      if minValue[c] != origMin[c] {
        var r, k :| 0 <= r < data.Length0 && 0 <= k < data.Length1 && RowMajorBefore(r, k, i, data.Length1) && data[r, k, c] == minValue[c];
        assert RowMajorBefore(r, k, i + 1, 0);
      }
      if maxValue[c] != origMax[c] {
        var r, k :| 0 <= r < data.Length0 && 0 <= k < data.Length1 && RowMajorBefore(r, k, i, data.Length1) && data[r, k, c] == maxValue[c];
        assert RowMajorBefore(r, k, i + 1, 0);
      }
    }
  }

  /** After the last row the extents cover the whole buffer. */
  lemma ExtentsDone(data: Buffer, minValue: array<Float>, maxValue: array<Float>, origMin: seq<Float>, origMax: seq<Float>)
    requires ExtentsOk(data, minValue, maxValue, origMin, origMax, data.Length0, 0)
    ensures forall c :: 0 <= c < D ==> Within(data, c, minValue[c], maxValue[c])
    ensures forall c :: 0 <= c < D ==> LessEq(minValue[c], origMin[c]) && LessEq(origMax[c], maxValue[c])
    ensures forall c :: 0 <= c < D ==> minValue[c] == origMin[c] || Attained(data, c, minValue[c])
    ensures forall c :: 0 <= c < D ==> maxValue[c] == origMax[c] || Attained(data, c, maxValue[c])
  {
    forall c | 0 <= c < D
      ensures Within(data, c, minValue[c], maxValue[c])
      ensures minValue[c] == origMin[c] || Attained(data, c, minValue[c])
      ensures maxValue[c] == origMax[c] || Attained(data, c, maxValue[c])
    {
      forall r, k | 0 <= r < data.Length0 && 0 <= k < data.Length1
        ensures LessEq(minValue[c], data[r, k, c]) && LessEq(data[r, k, c], maxValue[c])
      {
        assert RowMajorBefore(r, k, data.Length0, 0);
      }
    }
  }

  /**
   * One pixel of `lalphabeta_to_rgb`: it is converted back to RGB and
   * each channel's extents are widened to its new value.
   */
  method ConvertPixel(data: Buffer, i: int, j: int, pow10: real -> real, minValue: array<Float>, maxValue: array<Float>,
                      ghost origMin: seq<Float>, ghost origMax: seq<Float>)
    requires data.Length2 == D && AllFinite(data)
    requires ExtentsOk(data, minValue, maxValue, origMin, origMax, i, j)
    requires 0 <= i < data.Length0 && 0 <= j < data.Length1
    requires minValue.Length == D && maxValue.Length == D && minValue != maxValue
    modifies data, minValue, maxValue
    ensures AllFinite(data)
    ensures PixelOf(data, i, j) == ToRgb(pow10, old(PixelOf(data, i, j)))
    ensures forall r, k :: 0 <= r < data.Length0 && 0 <= k < data.Length1 && (r, k) != (i, j) ==>
      PixelOf(data, r, k) == old(PixelOf(data, r, k))
    ensures forall c :: 0 <= c < D ==> minValue[c] == FMin(old(minValue[c]), data[i, j, c])
    ensures forall c :: 0 <= c < D ==> maxValue[c] == FMax(old(maxValue[c]), data[i, j, c])
    ensures ExtentsOk(data, minValue, maxValue, origMin, origMax, i, j + 1)
  {
    var logLms := MatVec(LAB2LOGLMS, PixelOf(data, i, j));
    var lms: seq<real> := [];
    for line := 0 to D
      invariant |lms| == line && forall k :: 0 <= k < line ==> lms[k] == pow10(logLms[k])
    {
      lms := lms + [pow10(logLms[line])];
    }
    assert lms == [pow10(logLms[0]), pow10(logLms[1]), pow10(logLms[2])];
    var rgb := MatVec(LMS2RGB, lms);
    WritePixel(data, i, j, rgb);
    forall c | 0 <= c < D
      ensures ExtentsCover(data, c, minValue[c], maxValue[c], i, j)
      ensures minValue[c] == origMin[c] || AttainedBefore(data, c, minValue[c], i, j)
      ensures maxValue[c] == origMax[c] || AttainedBefore(data, c, maxValue[c], i, j)
    {
      forall r, k | 0 <= r < data.Length0 && 0 <= k < data.Length1 && RowMajorBefore(r, k, i, j)
        ensures LessEq(minValue[c], data[r, k, c]) && LessEq(data[r, k, c], maxValue[c])
      {
        assert data[r, k, c] == old(data[r, k, c]);
      }
      if minValue[c] != origMin[c] {
        var r, k :| 0 <= r < data.Length0 && 0 <= k < data.Length1 && RowMajorBefore(r, k, i, j) && old(data[r, k, c]) == minValue[c];
        assert data[r, k, c] == minValue[c];
      }
      if maxValue[c] != origMax[c] {
        var r, k :| 0 <= r < data.Length0 && 0 <= k < data.Length1 && RowMajorBefore(r, k, i, j) && old(data[r, k, c]) == maxValue[c];
        assert data[r, k, c] == maxValue[c];
      }
    }
    UpdateExtents(data, i, j, rgb, minValue, maxValue, origMin, origMax);
  }

  /**
   * The extent update of `lalphabeta_to_rgb` for the pixel just written:
   * the invariant moves past (i, j).
   */
  method UpdateExtents(data: Buffer, i: int, j: int, rgb: seq<real>, minValue: array<Float>, maxValue: array<Float>,
                       ghost origMin: seq<Float>, ghost origMax: seq<Float>)
    requires data.Length2 == D && |rgb| == D && 0 <= i < data.Length0 && 0 <= j < data.Length1
    requires forall c :: 0 <= c < D ==> data[i, j, c] == Fin(rgb[c])
    requires ExtentsOk(data, minValue, maxValue, origMin, origMax, i, j)
    requires minValue != maxValue
    modifies minValue, maxValue
    ensures forall c :: 0 <= c < D ==> minValue[c] == FMin(old(minValue[c]), data[i, j, c])
    ensures forall c :: 0 <= c < D ==> maxValue[c] == FMax(old(maxValue[c]), data[i, j, c])
    ensures ExtentsOk(data, minValue, maxValue, origMin, origMax, i, j + 1)
  {
    WidenExtents(minValue, maxValue, rgb);
    forall c | 0 <= c < D
      ensures ExtentsCover(data, c, minValue[c], maxValue[c], i, j + 1)
      ensures LessEq(minValue[c], origMin[c]) && LessEq(origMax[c], maxValue[c])
      ensures minValue[c] == origMin[c] || AttainedBefore(data, c, minValue[c], i, j + 1)
      ensures maxValue[c] == origMax[c] || AttainedBefore(data, c, maxValue[c], i, j + 1)
    {
      ChannelStep(data, c, i, j, old(minValue[c]), old(maxValue[c]), origMin[c], origMax[c]);
    }
  }

  /**
   * One channel's extents widened to pixel (i, j) keep covering, and
   * being attained by, the pixels before it and now (i, j) as well.
   */
  lemma ChannelStep(data: Buffer, c: int, i: int, j: int, lo: Float, hi: Float, origLo: Float, origHi: Float)
    requires 0 <= c < data.Length2 && 0 <= i < data.Length0 && 0 <= j < data.Length1
    requires ExtentsCover(data, c, lo, hi, i, j) && LessEq(lo, origLo) && LessEq(origHi, hi)
    requires lo == origLo || AttainedBefore(data, c, lo, i, j)
    requires hi == origHi || AttainedBefore(data, c, hi, i, j)
    ensures ExtentsCover(data, c, FMin(lo, data[i, j, c]), FMax(hi, data[i, j, c]), i, j + 1)
    ensures LessEq(FMin(lo, data[i, j, c]), origLo) && LessEq(origHi, FMax(hi, data[i, j, c]))
    ensures FMin(lo, data[i, j, c]) == origLo || AttainedBefore(data, c, FMin(lo, data[i, j, c]), i, j + 1)
    ensures FMax(hi, data[i, j, c]) == origHi || AttainedBefore(data, c, FMax(hi, data[i, j, c]), i, j + 1)
  {
    var x := data[i, j, c];
    var lo', hi' := FMin(lo, x), FMax(hi, x);
    forall r, k | 0 <= r < data.Length0 && 0 <= k < data.Length1 && RowMajorBefore(r, k, i, j + 1)
      ensures LessEq(lo', data[r, k, c]) && LessEq(data[r, k, c], hi')
    {
      if (r, k) != (i, j) {
        assert RowMajorBefore(r, k, i, j);
        LessEqTransitive(lo', lo, data[r, k, c]);
        LessEqTransitive(data[r, k, c], hi, hi');
      }
    }
    LessEqTransitive(lo', lo, origLo);
    LessEqTransitive(origHi, hi, hi');
    if lo' != x && lo' != origLo {
      var r, k :| 0 <= r < data.Length0 && 0 <= k < data.Length1 && RowMajorBefore(r, k, i, j) && data[r, k, c] == lo';
      assert RowMajorBefore(r, k, i, j + 1);
    }
    if hi' != x && hi' != origHi {
      var r, k :| 0 <= r < data.Length0 && 0 <= k < data.Length1 && RowMajorBefore(r, k, i, j) && data[r, k, c] == hi';
      assert RowMajorBefore(r, k, i, j + 1);
    }
  }

  /** The smaller of two floats. */
  function FMin(a: Float, b: Float): (m: Float)
    ensures LessEq(m, a) && LessEq(m, b) && (m == a || m == b)
  {
    if Less(b, a) then b else a
  }

  /** The larger of two floats. */
  function FMax(a: Float, b: Float): (m: Float)
    ensures LessEq(a, m) && LessEq(b, m) && (m == a || m == b)
  {
    if Less(a, b) then b else a
  }

  /** The extent update of one pixel: each channel's extents widened to its value. */
  method WidenExtents(minValue: array<Float>, maxValue: array<Float>, rgb: seq<real>)
    requires minValue.Length == D && maxValue.Length == D && minValue != maxValue && |rgb| == D
    modifies minValue, maxValue
    ensures forall c :: 0 <= c < D ==> minValue[c] == FMin(old(minValue[c]), Fin(rgb[c]))
    ensures forall c :: 0 <= c < D ==> maxValue[c] == FMax(old(maxValue[c]), Fin(rgb[c]))
  {
    for line := 0 to D
      invariant forall c :: 0 <= c < line ==> minValue[c] == FMin(old(minValue[c]), Fin(rgb[c]))
      invariant forall c :: 0 <= c < line ==> maxValue[c] == FMax(old(maxValue[c]), Fin(rgb[c]))
      invariant forall c :: line <= c < D ==> minValue[c] == old(minValue[c]) && maxValue[c] == old(maxValue[c])
    {
      if Less(Fin(rgb[line]), minValue[line]) {
        minValue[line] := Fin(rgb[line]);
      }
      if Less(maxValue[line], Fin(rgb[line])) {
        maxValue[line] := Fin(rgb[line]);
      }
    }
  }

  /** Component c of every pixel before (i, j) lies between lo and hi. */
  predicate ExtentsCover(data: Buffer, c: int, lo: Float, hi: Float, i: int, j: int)
    reads data
  {
    0 <= c < data.Length2 &&
    forall r, k :: 0 <= r < data.Length0 && 0 <= k < data.Length1 && RowMajorBefore(r, k, i, j) ==>
      LessEq(lo, data[r, k, c]) && LessEq(data[r, k, c], hi)
  }

  /** Some pixel before (i, j) has component c equal to x. */
  predicate AttainedBefore(data: Buffer, c: int, x: Float, i: int, j: int)
    reads data
  {
    0 <= c < data.Length2 &&
    exists r, k :: 0 <= r < data.Length0 && 0 <= k < data.Length1 && RowMajorBefore(r, k, i, j) && data[r, k, c] == x
  }

  lemma LessEqTransitive(a: Float, b: Float, c: Float)
    requires LessEq(a, b) && LessEq(b, c)
    ensures LessEq(a, c)
  {
  }

  /** The affine stretch of `construct_image`, sending [lo, hi] onto [OUT_MIN, OUT_MAX]. */
  function Stretch(lo: real, hi: real, x: real): real
    requires lo != hi
  {
    ((OUT_MAX - OUT_MIN) / (hi - lo)) * x + (OUT_MIN * hi - OUT_MAX * lo) / (hi - lo)
  }

  /** The stretch is 255 (x - lo) / (hi - lo). */
  lemma StretchIsScaledOffset(lo: real, hi: real, x: real)
    requires lo != hi
    ensures Stretch(lo, hi, x) == OUT_MAX * ((x - lo) / (hi - lo))
  {
    var d := hi - lo;
    calc {
      Stretch(lo, hi, x);
      (255.0 / d) * x + (0.0 * hi - 255.0 * lo) / d;
      { assert (255.0 / d) * x == (255.0 * x) / d; }
      (255.0 * x) / d + (-255.0 * lo) / d;
      (255.0 * x - 255.0 * lo) / d;
      255.0 * ((x - lo) / d);
    }
  }

  /** The darkest value of a channel goes to 0 and the brightest to 255. */
  lemma StretchEnds(lo: real, hi: real)
    requires lo != hi
    ensures Stretch(lo, hi, lo) == OUT_MIN && Stretch(lo, hi, hi) == OUT_MAX
  {
    StretchIsScaledOffset(lo, hi, lo);
    StretchIsScaledOffset(lo, hi, hi);
  }

  /** Values between the extents stay within [0, 255]. */
  lemma StretchBetween(lo: real, hi: real, x: real)
    requires lo < hi && lo <= x <= hi
    ensures OUT_MIN <= Stretch(lo, hi, x) <= OUT_MAX
  {
    StretchIsScaledOffset(lo, hi, x);
    var d := hi - lo;
    var t := (x - lo) / d;
    assert 0.0 <= t;
    assert t * d == x - lo;
  }

  /** What `construct_image` writes for a component x of channel range [lo, hi]. */
  function OutComponent(lo: real, hi: real, x: real): (u: UShort)
    requires lo < hi && lo <= x <= hi
    ensures u <= 255
    ensures x == lo ==> u == 0
    ensures x == hi ==> u == 255
  {
    StretchBetween(lo, hi, x);
    StretchEnds(lo, hi);
    ToUShort(Stretch(lo, hi, x))
  }

  /** Each channel's extents are finite, distinct, and cover that channel of the buffer. */
  predicate StretchableBy(data: Buffer, minValue: array<Float>, maxValue: array<Float>)
    reads data, minValue, maxValue
  {
    data.Length2 == D && minValue.Length == D && maxValue.Length == D &&
    forall c :: 0 <= c < D ==>
      minValue[c].Fin? && maxValue[c].Fin? && minValue[c].v != maxValue[c].v &&
      Within(data, c, minValue[c], maxValue[c])
  }

  /** Component (i, j, c) of the image is the stretched buffer component, truncated. */
  predicate IsOutComponent(ims: Image, data: Buffer, minValue: array<Float>, maxValue: array<Float>, i: int, j: int, c: int)
    reads ims, data, minValue, maxValue
    requires IsRgb(ims) && InImage(ims, i, j, c) && IsBufferFor(data, ims.Length0, ims.Length1) && AllFinite(data)
    requires StretchableBy(data, minValue, maxValue)
  {
    ims[i, j, c] as real <= Stretch(minValue[c].v, maxValue[c].v, data[i, j, c].v) < ims[i, j, c] as real + 1.0
  }

  /**
   * `construct_image`: component (i, j, c) of the image is the buffer's
   * component stretched by the extents of channel c and truncated; it
   * lies in [0, 255] (see `OutComponent` for the extents themselves).
   * The extents must differ (the source divides by their difference) and
   * cover the buffer, which is what `lalphabeta_to_rgb` leaves behind.
   */
  method ConstructImage(ims: Image, data: Buffer, minValue: array<Float>, maxValue: array<Float>)
    requires IsRgb(ims) && IsBufferFor(data, ims.Length0, ims.Length1) && AllFinite(data)
    requires StretchableBy(data, minValue, maxValue)
    modifies ims
    ensures forall i, j, c :: InImage(ims, i, j, c) ==> IsOutComponent(ims, data, minValue, maxValue, i, j, c) && ims[i, j, c] <= 255
  {
    for i := 0 to ims.Length0
      invariant forall r, k, c :: InImage(ims, r, k, c) && r < i ==>
        IsOutComponent(ims, data, minValue, maxValue, r, k, c) && ims[r, k, c] <= 255
    {
      for j := 0 to ims.Length1
        invariant forall r, k, c :: InImage(ims, r, k, c) && RowMajorBefore(r, k, i, j) ==>
          IsOutComponent(ims, data, minValue, maxValue, r, k, c) && ims[r, k, c] <= 255
      {
        for c := 0 to D
          invariant forall r, k, ch :: InImage(ims, r, k, ch) && (RowMajorBefore(r, k, i, j) || (r == i && k == j && ch < c)) ==>
            IsOutComponent(ims, data, minValue, maxValue, r, k, ch) && ims[r, k, ch] <= 255
        {
          var lo, hi, x := minValue[c].v, maxValue[c].v, data[i, j, c].v;
          var norm := ((OUT_MAX - OUT_MIN) / (hi - lo)) * x + (OUT_MIN * hi - OUT_MAX * lo) / (hi - lo);
          assert LessEq(minValue[c], data[i, j, c]) && LessEq(data[i, j, c], maxValue[c]);
          StretchBetween(lo, hi, x);
          ims[i, j, c] := ToUShort(norm);
        }
      }
    }
  }
}
