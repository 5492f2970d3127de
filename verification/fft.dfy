/**
 * Index plumbing around the FFT of the zoom tool.  The complex buffers of
 * the source are flat and column-major: the entry of row i and column j of
 * a buffer with `rows` rows is at i + rows * j.  Here such a buffer is an
 * `array2` whose element [i, j] is that entry; the Fourier transforms
 * themselves are not part of this model.
 */
module ZoomFft {
  import opened Pnm

  /**
   * The position of entry (i, j) in the flat column-major buffer lies
   * inside it, and no two entries share a position: the `array2` view and
   * the flat buffer hold the same data.
   */
  lemma FlatIndex(rows: nat, cols: nat, i: nat, j: nat, i': nat, j': nat)
    requires i < rows && j < cols && i' < rows && j' < cols
    ensures i + rows * j < rows * cols
    ensures i + rows * j == i' + rows * j' ==> i == i' && j == j'
  {
    MulMonotonic(rows, j + 1, cols);
    assert rows * j + rows == rows * (j + 1);
    if j < j' {
      MulMonotonic(rows, j + 1, j');
      assert i + rows * j < i' + rows * j';
    } else if j' < j {
      MulMonotonic(rows, j' + 1, j);
      assert rows * j' + rows == rows * (j' + 1);
      assert i' + rows * j' < i + rows * j;
    }
  }

  lemma MulMonotonic(a: nat, b: nat, c: nat)
    requires b <= c
    ensures a * b <= a * c
  {
    assert a * c - a * b == a * (c - b);
  }

  /**
   * Where coordinate i of a dimension of length n reads from in the
   * quadrant swap: the first n/2 positions read n/2 further on, the next
   * n/2 read n/2 back.  On an odd length the last position is not moved.
   */
  function Shift(n: nat, i: nat): nat
  {
    var h := n / 2;
    if i < h then i + h else i - h
  }

  /** On an even length the swap is the cyclic shift by half the length. */
  lemma ShiftIsHalfRotation(n: nat, i: nat)
    requires n % 2 == 0 && i < n
    ensures Shift(n, i) == (i + n / 2) % n
  {
    var h := n / 2;
    assert n == 2 * h;
    if i < h {
      ModUnique(i + h, n, 0, i + h);
    } else {
      ModUnique(i + h, n, 1, i - h);
    }
  }

  /** The swap stays inside the swapped part and undoes itself. */
  lemma ShiftInvolution(n: nat, i: nat)
    requires i < 2 * (n / 2)
    ensures Shift(n, i) < 2 * (n / 2) && Shift(n, Shift(n, i)) == i
  {
  }

  /**
   * `decenter`: the four quadrants of `tab` are swapped diagonally into
   * `tmp`.  Every position of the swapped part, which is all of it when
   * both sizes are even, is written with the entry the swap names; on an
   * odd size the last row or column of `tmp` is not written, and `tab`
   * is only read.
   */
  method Decenter<T>(cols: nat, rows: nat, tab: array2<T>, tmp: array2<T>)
    requires tab.Length0 == rows && tab.Length1 == cols && tmp.Length0 == rows && tmp.Length1 == cols
    requires tab != tmp
    modifies tmp
    ensures forall i, j :: 0 <= i < 2 * (rows / 2) && 0 <= j < 2 * (cols / 2) ==>
      tmp[i, j] == tab[Shift(rows, i), Shift(cols, j)]
    ensures forall i, j :: 0 <= i < rows && 0 <= j < cols && (i >= 2 * (rows / 2) || j >= 2 * (cols / 2)) ==>
      tmp[i, j] == old(tmp[i, j])
  {
    var h, k := rows / 2, cols / 2;
    for j := 0 to k
      invariant forall a, b :: 0 <= a < 2 * h && (0 <= b < j || k <= b < k + j) ==>
        tmp[a, b] == tab[Shift(rows, a), Shift(cols, b)]
      invariant forall a, b :: 0 <= a < rows && 0 <= b < cols && !(a < 2 * h && (b < j || k <= b < k + j)) ==>
        tmp[a, b] == old(tmp[a, b])
    {
      SwapColumns(cols, rows, tab, tmp, j);
    }
  }

  /**
   * The inner loop of `decenter`: columns j and j + cols/2 of `tmp`
   * receive the swapped entries, down the swapped rows.
   */
  method SwapColumns<T>(cols: nat, rows: nat, tab: array2<T>, tmp: array2<T>, j: nat)
    requires tab.Length0 == rows && tab.Length1 == cols && tmp.Length0 == rows && tmp.Length1 == cols
    requires tab != tmp && j < cols / 2
    modifies tmp
    ensures forall a, b :: 0 <= a < 2 * (rows / 2) && (b == j || b == j + cols / 2) ==>
      tmp[a, b] == tab[Shift(rows, a), Shift(cols, b)]
    ensures forall a, b :: 0 <= a < rows && 0 <= b < cols && !(a < 2 * (rows / 2) && (b == j || b == j + cols / 2)) ==>
      tmp[a, b] == old(tmp[a, b])
  {
    var h, k := rows / 2, cols / 2;
    for i := 0 to h
      invariant forall a, b :: 0 <= a < 2 * h && (b == j || b == j + k) && (a < i || h <= a < h + i) ==>
        tmp[a, b] == tab[Shift(rows, a), Shift(cols, b)]
      invariant forall a, b :: 0 <= a < rows && 0 <= b < cols && !((b == j || b == j + k) && (a < i || h <= a < h + i)) ==>
        tmp[a, b] == old(tmp[a, b])
    {
      tmp[i, j] := tab[i + h, j + k];
      tmp[i + h, j] := tab[i, j + k];
      tmp[i, j + k] := tab[i + h, j];
      tmp[i + h, j + k] := tab[i, j];
    }
  }

  /**
   * `forward` ends with `decenter` and `backward` begins with it: on even
   * sizes the second swap gives back exactly what the first was given.
   */
  method DecenterTwice<T>(cols: nat, rows: nat, tab: array2<T>, tmp: array2<T>, back: array2<T>)
    requires rows % 2 == 0 && cols % 2 == 0
    requires tab.Length0 == rows && tab.Length1 == cols && tmp.Length0 == rows && tmp.Length1 == cols
    requires back.Length0 == rows && back.Length1 == cols
    requires tab != tmp && tmp != back && tab != back
    modifies tmp, back
    ensures forall i, j :: 0 <= i < rows && 0 <= j < cols ==> back[i, j] == tab[i, j]
  {
    Decenter(cols, rows, tab, tmp);
    Decenter(cols, rows, tmp, back);
    forall i, j | 0 <= i < rows && 0 <= j < cols
      ensures back[i, j] == tab[i, j]
    {
      ShiftInvolution(rows, i);
      ShiftInvolution(cols, j);
    }
  }

  /**
   * The conversion of a normalised real part to a grey level in `backward`:
   * 0 below 0, 255 above 255, truncation in between.
   */
  function Clamp(x: real): (v: UShort)
    ensures 0 <= v <= 255
    ensures x < 0.0 ==> v == 0
    ensures x > 255.0 ==> v == 255
    ensures 0.0 <= x <= 255.0 ==> v as real <= x < v as real + 1.0
  {
    if x < 0.0 then 0 else if x > 255.0 then 255 else x.Floor
  }

  /** A brighter real part never gives a darker grey level. */
  lemma ClampMonotonic(x: real, y: real)
    requires x <= y
    ensures Clamp(x) <= Clamp(y)
  {
    if 0.0 <= x <= 255.0 && 0.0 <= y <= 255.0 {
      assert x.Floor <= y.Floor;
    }
  }

  /**
   * The loop of `backward` after the inverse transform: each real part is
   * divided by the size of the image the spectrum came from and clamped
   * to a grey level, position by position.
   */
  method NormaliseAndClamp(re: array2<real>, prevSize: int, img: array2<UShort>)
    requires prevSize > 0
    requires img.Length0 == re.Length0 && img.Length1 == re.Length1
    modifies img
    ensures forall i, j :: 0 <= i < img.Length0 && 0 <= j < img.Length1 ==>
      img[i, j] == Clamp(re[i, j] / prevSize as real)
  {
    var rows, cols := re.Length0, re.Length1;
    for j := 0 to cols
      invariant forall a, b :: 0 <= a < rows && 0 <= b < j ==> img[a, b] == Clamp(re[a, b] / prevSize as real)
    {
      for i := 0 to rows
        invariant forall a, b :: 0 <= a < rows && 0 <= b < j ==> img[a, b] == Clamp(re[a, b] / prevSize as real)
        invariant forall a :: 0 <= a < i ==> img[a, j] == Clamp(re[a, j] / prevSize as real)
      {
        var real_ := re[i, j] / (prevSize as real);
        if real_ < 0.0 {
          img[i, j] := 0;
        } else if real_ > 255.0 {
          img[i, j] := 255;
        } else {
          img[i, j] := real_.Floor;
        }
      }
    }
  }
}
