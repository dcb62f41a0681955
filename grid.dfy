/**
 * The image buffers of the program (cv::Mat values) as rectangular grids of
 * opaque samples, with the few library operations the program's own code is
 * built from: a zero-filled matrix, a rectangular region copied out of a
 * matrix, the 8-bit to float conversion, and merging/splitting the two
 * channels of a complex image.
 */
module Grid {

  /** An 8-bit unsigned sample (CV_8U): grayscale pixels and mask values. */
  type Byte = x: int | 0 <= x < 256

  /**
   * One sample of a two-channel floating-point image (CV_32FC2): channel 0
   * holds the real part and channel 1 the imaginary part. Floats are exact
   * reals here; no step of the model does floating-point arithmetic.
   */
  datatype Complex = Complex(re: real, im: real)

  const ComplexZero := Complex(0.0, 0.0)

  /** A matrix with `rows` rows of `cols` samples each, stored row by row. */
  datatype Mat<T> = Mat(rows: nat, cols: nat, cells: seq<seq<T>>) {
    predicate Valid() {
      |cells| == rows && forall i | 0 <= i < rows :: |cells[i]| == cols
    }
  }

  predicate SameSize<T, U>(a: Mat<T>, b: Mat<U>) {
    a.rows == b.rows && a.cols == b.cols
  }

  /** Two valid matrices of one size that agree at every position are equal. */
  lemma Extensionality<T>(a: Mat<T>, b: Mat<T>)
    requires a.Valid() && b.Valid() && SameSize(a, b)
    requires forall i, j | 0 <= i < a.rows && 0 <= j < a.cols :: a.cells[i][j] == b.cells[i][j]
    ensures a == b
  {
    forall i | 0 <= i < a.rows
      ensures a.cells[i] == b.cells[i]
    {
    }
  }

  /** `Mat(rows, cols, type, Scalar(v))`; with v the zero sample, `Mat::zeros`. */
  function Filled<T>(rows: nat, cols: nat, v: T): (m: Mat<T>)
    ensures m.Valid() && m.rows == rows && m.cols == cols
    ensures forall i, j | 0 <= i < rows && 0 <= j < cols :: m.cells[i][j] == v
  {
    Mat(rows, cols, seq(rows, i => seq(cols, j => v)))
  }

  /**
   * The region `Rect(left, top, cols, rows)` of `m` copied into a matrix of
   * its own (`m(rect).copyTo(out)`). The library demands that the region
   * lie inside `m`.
   */
  function Region<T>(m: Mat<T>, top: nat, left: nat, rows: nat, cols: nat): (r: Mat<T>)
    requires m.Valid() && top + rows <= m.rows && left + cols <= m.cols
    ensures r.Valid() && r.rows == rows && r.cols == cols
    ensures forall i, j | 0 <= i < rows && 0 <= j < cols :: r.cells[i][j] == m.cells[top + i][left + j]
  {
    Mat(rows, cols, seq(rows, i requires 0 <= i < rows =>
                               seq(cols, j requires 0 <= j < cols => m.cells[top + i][left + j])))
  }

  /** A region anchored at the origin of `m` that spans all of `m` is `m` itself. */
  lemma RegionWhole<T>(m: Mat<T>)
    requires m.Valid()
    ensures Region(m, 0, 0, m.rows, m.cols) == m
  {
    Extensionality(Region(m, 0, 0, m.rows, m.cols), m);
  }

  /** `Mat_<float>(m)`: each 8-bit sample converted exactly to a float. */
  function ToReal(m: Mat<Byte>): (r: Mat<real>)
    requires m.Valid()
    ensures r.Valid() && SameSize(r, m)
    ensures forall i, j | 0 <= i < m.rows && 0 <= j < m.cols :: r.cells[i][j] == m.cells[i][j] as real
  {
    Mat(m.rows, m.cols, seq(m.rows, i requires 0 <= i < m.rows =>
                                     seq(m.cols, j requires 0 <= j < m.cols => m.cells[i][j] as real)))
  }

  /** `merge(planes, 2, out)`: two single-channel planes of one size as one two-channel image. */
  function Merge(re: Mat<real>, im: Mat<real>): (c: Mat<Complex>)
    requires re.Valid() && im.Valid() && SameSize(re, im)
    ensures c.Valid() && SameSize(c, re)
    ensures forall i, j | 0 <= i < re.rows && 0 <= j < re.cols ::
              c.cells[i][j] == Complex(re.cells[i][j], im.cells[i][j])
  {
    Mat(re.rows, re.cols, seq(re.rows, i requires 0 <= i < re.rows =>
                                       seq(re.cols, j requires 0 <= j < re.cols =>
                                             Complex(re.cells[i][j], im.cells[i][j]))))
  }

  /** `split(c, planes)`, plane 0: the real channel. */
  function Channel0(c: Mat<Complex>): (p: Mat<real>)
    requires c.Valid()
    ensures p.Valid() && SameSize(p, c)
    ensures forall i, j | 0 <= i < c.rows && 0 <= j < c.cols :: p.cells[i][j] == c.cells[i][j].re
  {
    Mat(c.rows, c.cols, seq(c.rows, i requires 0 <= i < c.rows =>
                                     seq(c.cols, j requires 0 <= j < c.cols => c.cells[i][j].re)))
  }

  /** `split(c, planes)`, plane 1: the imaginary channel. */
  function Channel1(c: Mat<Complex>): (p: Mat<real>)
    requires c.Valid()
    ensures p.Valid() && SameSize(p, c)
    ensures forall i, j | 0 <= i < c.rows && 0 <= j < c.cols :: p.cells[i][j] == c.cells[i][j].im
  {
    Mat(c.rows, c.cols, seq(c.rows, i requires 0 <= i < c.rows =>
                                     seq(c.cols, j requires 0 <= j < c.cols => c.cells[i][j].im)))
  }

  /** Splitting a merged image gives back both planes. */
  lemma SplitMerge(re: Mat<real>, im: Mat<real>)
    requires re.Valid() && im.Valid() && SameSize(re, im)
    ensures Channel0(Merge(re, im)) == re
    ensures Channel1(Merge(re, im)) == im
  {
    Extensionality(Channel0(Merge(re, im)), re);
    Extensionality(Channel1(Merge(re, im)), im);
  }

  /** Merging the two planes of a split image gives back the image. */
  lemma MergeSplit(c: Mat<Complex>)
    requires c.Valid()
    ensures Merge(Channel0(c), Channel1(c)) == c
  {
    Extensionality(Merge(Channel0(c), Channel1(c)), c);
  }

  /** True when (i, j) lies in the block of `rows` by `cols` samples whose corner is (top, left). */
  predicate InBlock(i: int, j: int, top: int, left: int, rows: int, cols: int) {
    top <= i < top + rows && left <= j < left + cols
  }

  /**
   * `b.copyTo(m(Rect(left, top, b.cols, b.rows)))`: `b` written over the
   * region of `m` at (top, left); every sample outside that region is kept.
   */
  function Paste<T>(m: Mat<T>, top: nat, left: nat, b: Mat<T>): (p: Mat<T>)
    requires m.Valid() && b.Valid() && top + b.rows <= m.rows && left + b.cols <= m.cols
    ensures p.Valid() && SameSize(p, m)
    ensures Region(p, top, left, b.rows, b.cols) == b
    ensures forall i, j | 0 <= i < m.rows && 0 <= j < m.cols ::
              p.cells[i][j] == if InBlock(i, j, top, left, b.rows, b.cols) then b.cells[i - top][j - left]
                               else m.cells[i][j]
  {
    var p := Mat(m.rows, m.cols, seq(m.rows, i requires 0 <= i < m.rows =>
                                            seq(m.cols, j requires 0 <= j < m.cols =>
                                                  if InBlock(i, j, top, left, b.rows, b.cols)
                                                  then b.cells[i - top][j - left]
                                                  else m.cells[i][j])));
    Extensionality(Region(p, top, left, b.rows, b.cols), b);
    p
  }

  /** Pasting over the whole of `m` replaces it. */
  lemma PasteWhole<T>(m: Mat<T>, b: Mat<T>)
    requires m.Valid() && b.Valid() && SameSize(m, b)
    ensures Paste(m, 0, 0, b) == b
  {
    var p := Paste(m, 0, 0, b);
    assert Region(p, 0, 0, b.rows, b.cols) == b;
    RegionWhole(p);
  }

  /** The matrix currently stored in the array `a`. */
  function Snapshot<T>(a: array2<T>): (m: Mat<T>)
    reads a
    ensures m.Valid() && m.rows == a.Length0 && m.cols == a.Length1
    ensures forall i, j | 0 <= i < a.Length0 && 0 <= j < a.Length1 :: m.cells[i][j] == a[i, j]
  {
    Mat(a.Length0, a.Length1, seq(a.Length0, i requires 0 <= i < a.Length0 reads a =>
                                                seq(a.Length1, j requires 0 <= j < a.Length1 reads a => a[i, j])))
  }

  /**
   * `src(Rect(sc, sr, w, h)).copyTo(dst(Rect(dc, dr, w, h)))`: the block
   * copied sample by sample. When both views share one buffer the two
   * regions must not overlap, as for the quadrants of one matrix.
   */
  method CopyBlock<T>(src: array2<T>, sr: nat, sc: nat, dst: array2<T>, dr: nat, dc: nat, h: nat, w: nat)
    requires sr + h <= src.Length0 && sc + w <= src.Length1
    requires dr + h <= dst.Length0 && dc + w <= dst.Length1
    requires src == dst ==> !(sr < dr + h && dr < sr + h && sc < dc + w && dc < sc + w)
    modifies dst
    ensures Snapshot(dst) == Paste(old(Snapshot(dst)), dr, dc, Region(old(Snapshot(src)), sr, sc, h, w))
  {
    ghost var before := Snapshot(dst);
    ghost var block := Region(Snapshot(src), sr, sc, h, w);
    var i := 0;
    while i < h
      invariant 0 <= i <= h
      invariant forall r, c | 0 <= r < dst.Length0 && 0 <= c < dst.Length1 ::
                  dst[r, c] == if InBlock(r, c, dr, dc, i, w) then block.cells[r - dr][c - dc] else before.cells[r][c]
    {
      var j := 0;
      while j < w
        invariant 0 <= j <= w
        invariant forall r, c | 0 <= r < dst.Length0 && 0 <= c < dst.Length1 ::
                    dst[r, c] == if InBlock(r, c, dr, dc, i, w) || (r == dr + i && dc <= c < dc + j)
                                 then block.cells[r - dr][c - dc] else before.cells[r][c]
      {
        dst[dr + i, dc + j] := src[sr + i, sc + j];
        j := j + 1;
      }
      i := i + 1;
    }
    Extensionality(Snapshot(dst), Paste(before, dr, dc, block));
  }
}
