/**
 * The layout part of `create_fourier_magnitude_image_from_complex`: the
 * magnitude image is cut to even width and height, and its four quadrants
 * are exchanged in place (top-left with bottom-right, top-right with
 * bottom-left) so that the zero frequency moves from the corners to the
 * centre. Magnitude, logarithm and normalisation are not modelled; the
 * samples are opaque.
 */
module MagnitudeLayout {
  import opened Grid

  /**
   * `n & -2` for a non-negative `int`: `-2` has every bit set but bit 0, so
   * the result is `n` with its lowest bit cleared.
   */
  function ClearLowBit(n: nat): (r: nat)
    ensures r % 2 == 0 && r <= n && n <= r + 1
    ensures r == n <==> n % 2 == 0
  {
    (n / 2) * 2
  }

  /** `out(Rect(0, 0, out.cols & -2, out.rows & -2))`: the even-sized top-left view. */
  function TruncateToEven<T>(m: Mat<T>): (t: Mat<T>)
    requires m.Valid()
    ensures t.Valid() && t.rows == ClearLowBit(m.rows) && t.cols == ClearLowBit(m.cols)
    ensures t.rows % 2 == 0 && t.cols % 2 == 0
    ensures t.rows <= m.rows <= t.rows + 1 && t.cols <= m.cols <= t.cols + 1
    ensures forall i, j | 0 <= i < t.rows && 0 <= j < t.cols :: t.cells[i][j] == m.cells[i][j]
  {
    Region(m, 0, 0, ClearLowBit(m.rows), ClearLowBit(m.cols))
  }

  /** Truncating an already even-sized matrix leaves it as it is. */
  lemma TruncateEvenIsIdentity<T>(m: Mat<T>)
    requires m.Valid() && m.rows % 2 == 0 && m.cols % 2 == 0
    ensures TruncateToEven(m) == m
  {
    RegionWhole(m);
  }

  /** The `%` fact behind `ShiftIndexIsRotation`: below twice the divisor, `%` subtracts it at most once. */
  lemma ModBelowTwice(x: int, n: int)
    requires n > 0 && 0 <= x < 2 * n
    ensures x % n == if x < n then x else x - n
  {
  }

  /** Where index `i` of an axis of length `2 * half` moves under the swap. */
  function ShiftIndex(i: nat, half: nat): (k: nat)
    requires i < 2 * half
    ensures k < 2 * half
  {
    if i < half then i + half else i - half
  }

  /** The move is a rotation of the axis by `half`. */
  lemma ShiftIndexIsRotation(i: nat, half: nat)
    requires i < 2 * half
    ensures ShiftIndex(i, half) == (i + half) % (2 * half)
    ensures ShiftIndex(ShiftIndex(i, half), half) == i
  {
    ModBelowTwice(i + half, 2 * half);
  }

  /**
   * The swapped layout of an even-sized matrix of height 2h and width 2w:
   * each index moves by half the axis, wrapping around.
   */
  function FftShift<T>(m: Mat<T>): (s: Mat<T>)
    requires m.Valid() && m.rows % 2 == 0 && m.cols % 2 == 0
    ensures s.Valid() && SameSize(s, m)
  {
    var h, w := m.rows / 2, m.cols / 2;
    Mat(m.rows, m.cols, seq(m.rows, i requires 0 <= i < m.rows =>
                                     seq(m.cols, j requires 0 <= j < m.cols =>
                                           m.cells[ShiftIndex(i, h)][ShiftIndex(j, w)])))
  }

  /** Proof helper: `FftShift` unfolded at one position. */
  lemma FftShiftAt<T>(m: Mat<T>, i: nat, j: nat)
    requires m.Valid() && m.rows % 2 == 0 && m.cols % 2 == 0 && i < m.rows && j < m.cols
    ensures FftShift(m).cells[i][j] == m.cells[ShiftIndex(i, m.rows / 2)][ShiftIndex(j, m.cols / 2)]
  {
  }

  /**
   * Sample (i, j) of the swapped layout is the original sample at
   * ((i + h) mod 2h, (j + w) mod 2w).
   */
  lemma FftShiftIsRotation<T>(m: Mat<T>)
    requires m.Valid() && m.rows % 2 == 0 && m.cols % 2 == 0
    ensures forall i, j | 0 <= i < m.rows && 0 <= j < m.cols ::
              FftShift(m).cells[i][j] == m.cells[(i + m.rows / 2) % m.rows][(j + m.cols / 2) % m.cols]
  {
    var h, w := m.rows / 2, m.cols / 2;
    assert m.rows == 2 * h && m.cols == 2 * w;
    forall i, j | 0 <= i < m.rows && 0 <= j < m.cols
      ensures FftShift(m).cells[i][j] == m.cells[(i + m.rows / 2) % m.rows][(j + m.cols / 2) % m.cols]
    {
      FftShiftAt(m, i, j);
      ShiftIndexIsRotation(i, h);
      ShiftIndexIsRotation(j, w);
    }
  }

  /**
   * Quadrant `q` of an even-sized matrix, numbered as the source's q0..q3:
   * 0 top-left, 1 top-right, 2 bottom-left, 3 bottom-right.
   */
  function Quadrant<T>(m: Mat<T>, q: nat): (r: Mat<T>)
    requires m.Valid() && m.rows % 2 == 0 && m.cols % 2 == 0 && q < 4
    ensures r.Valid() && r.rows == m.rows / 2 && r.cols == m.cols / 2
  {
    var h, w := m.rows / 2, m.cols / 2;
    Region(m, if q < 2 then 0 else h, if q % 2 == 0 then 0 else w, h, w)
  }

  /** The swap exchanges quadrant 0 with 3 and quadrant 1 with 2. */
  lemma FftShiftExchangesQuadrants<T>(m: Mat<T>)
    requires m.Valid() && m.rows % 2 == 0 && m.cols % 2 == 0
    ensures Quadrant(FftShift(m), 0) == Quadrant(m, 3)
    ensures Quadrant(FftShift(m), 3) == Quadrant(m, 0)
    ensures Quadrant(FftShift(m), 1) == Quadrant(m, 2)
    ensures Quadrant(FftShift(m), 2) == Quadrant(m, 1)
  {
    ShiftedQuadrant(m, 0);
    ShiftedQuadrant(m, 1);
    ShiftedQuadrant(m, 2);
    ShiftedQuadrant(m, 3);
  }

  lemma ShiftedQuadrant<T>(m: Mat<T>, q: nat)
    requires m.Valid() && m.rows % 2 == 0 && m.cols % 2 == 0 && q < 4
    ensures Quadrant(FftShift(m), q) == Quadrant(m, 3 - q)
  {
    var h, w := m.rows / 2, m.cols / 2;
    var top, left := if q < 2 then 0 else h, if q % 2 == 0 then 0 else w;
    var top', left' := if q < 2 then h else 0, if q % 2 == 0 then w else 0;
    var a, b := Quadrant(FftShift(m), q), Quadrant(m, 3 - q);
    assert a == Region(FftShift(m), top, left, h, w);
    assert b == Region(m, top', left', h, w);
    forall i, j | 0 <= i < h && 0 <= j < w
      ensures a.cells[i][j] == b.cells[i][j]
    {
      FftShiftAt(m, top + i, left + j);
    }
    Extensionality(a, b);
  }

  /**
   * The four quadrants cover the matrix: two even-sized matrices of one size
   * whose quadrants agree are equal.
   */
  lemma QuadrantsCover<T>(a: Mat<T>, b: Mat<T>)
    requires a.Valid() && b.Valid() && SameSize(a, b) && a.rows % 2 == 0 && a.cols % 2 == 0
    requires forall q | 0 <= q < 4 :: Quadrant(a, q) == Quadrant(b, q)
    ensures a == b
  {
    var h, w := a.rows / 2, a.cols / 2;
    forall i, j | 0 <= i < a.rows && 0 <= j < a.cols
      ensures a.cells[i][j] == b.cells[i][j]
    {
      var top, left := if i < h then 0 else h, if j < w then 0 else w;
      var q := (if i < h then 0 else 2) + (if j < w then 0 else 1);
      assert Quadrant(a, q) == Region(a, top, left, h, w);
      assert Quadrant(b, q) == Region(b, top, left, h, w);
      assert Quadrant(a, q).cells[i - top][j - left] == Quadrant(b, q).cells[i - top][j - left];
    }
    Extensionality(a, b);
  }

  /** Swapping the quadrants twice restores the matrix. */
  lemma FftShiftInvolution<T>(m: Mat<T>)
    requires m.Valid() && m.rows % 2 == 0 && m.cols % 2 == 0
    ensures FftShift(FftShift(m)) == m
  {
    var h, w := m.rows / 2, m.cols / 2;
    var s := FftShift(m);
    forall i, j | 0 <= i < m.rows && 0 <= j < m.cols
      ensures FftShift(s).cells[i][j] == m.cells[i][j]
    {
      assert FftShift(s).cells[i][j] == s.cells[ShiftIndex(i, h)][ShiftIndex(j, w)];
    }
    Extensionality(FftShift(s), m);
  }

  /**
   * The six copies of the source as operations on matrix values, for
   * quadrants of `h` by `w` samples: with `tmp` holding q0, q3 is written
   * over q0 and `tmp` over q3; then with `tmp` holding q1, q2 is written
   * over q1 and `tmp` over q2.
   */
  function SwapThroughTmp<T>(m0: Mat<T>, h: nat, w: nat): (m4: Mat<T>)
    requires m0.Valid() && 2 * h <= m0.rows && 2 * w <= m0.cols
    ensures m4.Valid() && SameSize(m4, m0)
  {
    var tmp0 := Region(m0, 0, 0, h, w);
    var m1 := Paste(m0, 0, 0, Region(m0, h, w, h, w));
    var m2 := Paste(m1, h, w, tmp0);
    var tmp1 := Region(m2, 0, w, h, w);
    var m3 := Paste(m2, 0, w, Region(m2, h, 0, h, w));
    Paste(m3, h, 0, tmp1)
  }

  /** Each sample of the top-left 2h by 2w block ends up at its swapped position. */
  lemma SwapThroughTmpAt<T>(m0: Mat<T>, h: nat, w: nat, i: nat, j: nat)
    requires m0.Valid() && 2 * h <= m0.rows && 2 * w <= m0.cols
    requires i < 2 * h && j < 2 * w
    ensures SwapThroughTmp(m0, h, w).cells[i][j] == m0.cells[ShiftIndex(i, h)][ShiftIndex(j, w)]
  {
  }

  /** Every sample outside the top-left 2h by 2w block is kept. */
  lemma SwapThroughTmpOutside<T>(m0: Mat<T>, h: nat, w: nat, i: nat, j: nat)
    requires m0.Valid() && 2 * h <= m0.rows && 2 * w <= m0.cols
    requires i < m0.rows && j < m0.cols && !InBlock(i, j, 0, 0, 2 * h, 2 * w)
    ensures SwapThroughTmp(m0, h, w).cells[i][j] == m0.cells[i][j]
  {
  }

  /**
   * On the even-sized view, exchanging through `tmp` is the swapped layout;
   * it leaves the odd last row and column alone.
   */
  lemma SwapThroughTmpIsFftShift<T>(m0: Mat<T>)
    requires m0.Valid()
    ensures var m4 := SwapThroughTmp(m0, m0.rows / 2, m0.cols / 2);
            && TruncateToEven(m4) == FftShift(TruncateToEven(m0))
            && forall i, j | 0 <= i < m0.rows && 0 <= j < m0.cols &&
                             (i >= ClearLowBit(m0.rows) || j >= ClearLowBit(m0.cols)) ::
                 m4.cells[i][j] == m0.cells[i][j]
  {
    var h, w := m0.rows / 2, m0.cols / 2;
    assert ClearLowBit(m0.rows) == 2 * h && ClearLowBit(m0.cols) == 2 * w;
    var m4 := SwapThroughTmp(m0, h, w);
    var whole := TruncateToEven(m0);
    var view := TruncateToEven(m4);
    var shifted := FftShift(whole);
    assert whole.rows / 2 == h && whole.cols / 2 == w;
    forall i, j | 0 <= i < 2 * h && 0 <= j < 2 * w
      ensures view.cells[i][j] == shifted.cells[i][j]
    {
      SwapThroughTmpAt(m0, h, w, i, j);
      FftShiftAt(whole, i, j);
    }
    Extensionality(view, shifted);
    forall i, j | 0 <= i < m0.rows && 0 <= j < m0.cols && (i >= 2 * h || j >= 2 * w)
      ensures m4.cells[i][j] == m0.cells[i][j]
    {
      SwapThroughTmpOutside(m0, h, w, i, j);
    }
  }

  /**
   * Lines 52-70 of `create_fourier_magnitude_image_from_complex`: `out`
   * becomes its even-sized top-left view and that view's quadrants are
   * exchanged in place, in three-step exchanges through the buffer `tmp`.
   * The odd last row and column, if any, lie outside the view and keep
   * their samples.
   */
  method TruncateAndSwapQuadrants<T(0)>(out: array2<T>)
    modifies out
    ensures Snapshot(out) == SwapThroughTmp(old(Snapshot(out)), out.Length0 / 2, out.Length1 / 2)
    ensures TruncateToEven(Snapshot(out)) == FftShift(TruncateToEven(old(Snapshot(out))))
    ensures forall i, j | 0 <= i < out.Length0 && 0 <= j < out.Length1 &&
                          (i >= ClearLowBit(out.Length0) || j >= ClearLowBit(out.Length1)) ::
              out[i, j] == old(out[i, j])
  {
    var halfWidth := ClearLowBit(out.Length1) / 2;
    var halfHeight := ClearLowBit(out.Length0) / 2;
    var h, w := halfHeight, halfWidth;
    ghost var m0 := Snapshot(out);
    assert h == m0.rows / 2 && w == m0.cols / 2;

    var tmp := new T[h, w];
    ghost var tmpFresh := Snapshot(tmp);
    ghost var tmp0 := Region(m0, 0, 0, h, w);
    CopyBlock(out, 0, 0, tmp, 0, 0, h, w);   // q0.copyTo(tmp)
    PasteWhole(tmpFresh, tmp0);
    RegionWhole(tmp0);
    assert Snapshot(out) == m0;
    CopyBlock(out, h, w, out, 0, 0, h, w);   // q3.copyTo(q0)
    ghost var m1 := Paste(m0, 0, 0, Region(m0, h, w, h, w));
    assert Snapshot(out) == m1;
    CopyBlock(tmp, 0, 0, out, h, w, h, w);   // tmp.copyTo(q3)
    ghost var m2 := Paste(m1, h, w, tmp0);
    assert Snapshot(out) == m2;

    ghost var tmp1 := Region(m2, 0, w, h, w);
    CopyBlock(out, 0, w, tmp, 0, 0, h, w);   // q1.copyTo(tmp)
    PasteWhole(tmp0, tmp1);
    RegionWhole(tmp1);
    assert Snapshot(out) == m2;
    CopyBlock(out, h, 0, out, 0, w, h, w);   // q2.copyTo(q1)
    ghost var m3 := Paste(m2, 0, w, Region(m2, h, 0, h, w));
    assert Snapshot(out) == m3;
    CopyBlock(tmp, 0, 0, out, h, 0, h, w);   // tmp.copyTo(q2)
    assert Snapshot(out) == Paste(m3, h, 0, tmp1);

    SwapThroughTmpIsFftShift(m0);
    forall i, j | 0 <= i < out.Length0 && 0 <= j < out.Length1 &&
                  (i >= ClearLowBit(out.Length0) || j >= ClearLowBit(out.Length1))
      ensures out[i, j] == old(out[i, j])
    {
      assert Snapshot(out).cells[i][j] == m0.cells[i][j];
    }
  }
}
