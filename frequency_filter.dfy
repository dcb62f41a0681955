/**
 * The frequency-domain filters built in `main`: a fixed 512 by 512 low-pass
 * mask, its bitwise complement as the high-pass mask, and the masked copies
 * of the complex spectrum that keep a sample where the mask is set and are
 * zero elsewhere.
 */
module FrequencyFilter {
  import opened Grid

  /** Both masks are allocated as 512 by 512 8-bit matrices. */
  const FilterSize: nat := 512

  /** `~m` on an 8-bit matrix: every byte's bits inverted. */
  function Complement(m: Mat<Byte>): (c: Mat<Byte>)
    requires m.Valid()
    ensures c.Valid() && SameSize(c, m)
    ensures forall i, j | 0 <= i < m.rows && 0 <= j < m.cols :: c.cells[i][j] as int + m.cells[i][j] as int == 255
  {
    Mat(m.rows, m.cols, seq(m.rows, i requires 0 <= i < m.rows =>
                                     seq(m.cols, j requires 0 <= j < m.cols => 255 - m.cells[i][j])))
  }

  /** Complementing twice restores the mask. */
  lemma ComplementInvolution(m: Mat<Byte>)
    requires m.Valid()
    ensures Complement(Complement(m)) == m
  {
    Extensionality(Complement(Complement(m)), m);
  }

  /** Every sample of the mask is 0 (off) or 255 (on), as the drawn low-pass mask is. */
  predicate IsBinaryMask(m: Mat<Byte>) {
    m.Valid() && forall i, j | 0 <= i < m.rows && 0 <= j < m.cols :: m.cells[i][j] == 0 || m.cells[i][j] == 255
  }

  /**
   * The complement of a 0/255 mask is a 0/255 mask, and at every position
   * exactly one of the two is set: together they cover the grid and they
   * never overlap.
   */
  lemma ComplementPartitions(m: Mat<Byte>)
    requires IsBinaryMask(m)
    ensures IsBinaryMask(Complement(m))
    ensures forall i, j | 0 <= i < m.rows && 0 <= j < m.cols ::
              (m.cells[i][j] != 0) != (Complement(m).cells[i][j] != 0)
  {
  }

  /**
   * `src.copyTo(dst, mask)` into a newly allocated, zero-filled `dst`: the
   * sample of `src` where the mask is non-zero, `zero` elsewhere. The
   * library demands that the mask have the size of `src`.
   */
  function MaskedCopy<T>(src: Mat<T>, mask: Mat<Byte>, zero: T): (d: Mat<T>)
    requires src.Valid() && mask.Valid() && SameSize(src, mask)
    ensures d.Valid() && SameSize(d, src)
    ensures forall i, j | 0 <= i < src.rows && 0 <= j < src.cols && mask.cells[i][j] != 0 ::
              d.cells[i][j] == src.cells[i][j]
    ensures forall i, j | 0 <= i < src.rows && 0 <= j < src.cols && mask.cells[i][j] == 0 ::
              d.cells[i][j] == zero
  {
    Mat(src.rows, src.cols, seq(src.rows, i requires 0 <= i < src.rows =>
                                           seq(src.cols, j requires 0 <= j < src.cols =>
                                                 if mask.cells[i][j] != 0 then src.cells[i][j] else zero)))
  }

  /** Applying the same mask again changes nothing. */
  lemma MaskedCopyIdempotent<T>(src: Mat<T>, mask: Mat<Byte>, zero: T)
    requires src.Valid() && mask.Valid() && SameSize(src, mask)
    ensures MaskedCopy(MaskedCopy(src, mask, zero), mask, zero) == MaskedCopy(src, mask, zero)
  {
    Extensionality(MaskedCopy(MaskedCopy(src, mask, zero), mask, zero), MaskedCopy(src, mask, zero));
  }

  /** What a 0/255 mask keeps, its complement removes entirely. */
  lemma ComplementRemovesKept<T>(src: Mat<T>, mask: Mat<Byte>, zero: T)
    requires src.Valid() && IsBinaryMask(mask) && SameSize(src, mask)
    ensures MaskedCopy(MaskedCopy(src, mask, zero), Complement(mask), zero) == Filled(src.rows, src.cols, zero)
  {
    var d := MaskedCopy(MaskedCopy(src, mask, zero), Complement(mask), zero);
    ComplementPartitions(mask);
    Extensionality(d, Filled(src.rows, src.cols, zero));
  }

  /** The sum of two complex samples, part by part. */
  function Add(a: Complex, b: Complex): (s: Complex) {
    Complex(a.re + b.re, a.im + b.im)
  }

  /** Sample-wise sum of two complex images of one size. */
  function AddMats(a: Mat<Complex>, b: Mat<Complex>): (s: Mat<Complex>)
    requires a.Valid() && b.Valid() && SameSize(a, b)
    ensures s.Valid() && SameSize(s, a)
    ensures forall i, j | 0 <= i < a.rows && 0 <= j < a.cols :: s.cells[i][j] == Add(a.cells[i][j], b.cells[i][j])
  {
    Mat(a.rows, a.cols, seq(a.rows, i requires 0 <= i < a.rows =>
                                     seq(a.cols, j requires 0 <= j < a.cols => Add(a.cells[i][j], b.cells[i][j]))))
  }

  /**
   * Lines 122-137 of `main`: the low-pass spectrum keeps the samples where
   * `filterLow` is set and the high-pass spectrum those where its complement
   * is set. The masks are 512 by 512, so the spectrum must be too.
   */
  function FilterSpectrum(spectrum: Mat<Complex>, filterLow: Mat<Byte>): (r: (Mat<Complex>, Mat<Complex>))
    requires spectrum.Valid() && spectrum.rows == FilterSize && spectrum.cols == FilterSize
    requires filterLow.Valid() && filterLow.rows == FilterSize && filterLow.cols == FilterSize
    ensures r.0.Valid() && r.1.Valid() && SameSize(r.0, spectrum) && SameSize(r.1, spectrum)
    ensures forall i, j | 0 <= i < FilterSize && 0 <= j < FilterSize ::
              r.0.cells[i][j] == (if filterLow.cells[i][j] != 0 then spectrum.cells[i][j] else ComplexZero)
    ensures forall i, j | 0 <= i < FilterSize && 0 <= j < FilterSize ::
              r.1.cells[i][j] == (if filterLow.cells[i][j] != 255 then spectrum.cells[i][j] else ComplexZero)
  {
    var filterHigh := Complement(filterLow);
    (MaskedCopy(spectrum, filterLow, ComplexZero), MaskedCopy(spectrum, filterHigh, ComplexZero))
  }

  /** With a 0/255 low-pass mask the two filtered spectra add up to the spectrum. */
  lemma FilteredSpectraSum(spectrum: Mat<Complex>, filterLow: Mat<Byte>)
    requires spectrum.Valid() && spectrum.rows == FilterSize && spectrum.cols == FilterSize
    requires IsBinaryMask(filterLow) && filterLow.rows == FilterSize && filterLow.cols == FilterSize
    ensures var (lowpass, highpass) := FilterSpectrum(spectrum, filterLow);
            AddMats(lowpass, highpass) == spectrum
  {
    var (lowpass, highpass) := FilterSpectrum(spectrum, filterLow);
    forall i, j | 0 <= i < FilterSize && 0 <= j < FilterSize
      ensures AddMats(lowpass, highpass).cells[i][j] == spectrum.cells[i][j]
    {
      assert filterLow.cells[i][j] == 0 || filterLow.cells[i][j] == 255;
    }
    Extensionality(AddMats(lowpass, highpass), spectrum);
  }

  /** With a 0/255 low-pass mask every sample goes to exactly one of the two filtered spectra. */
  lemma FilteredSpectraDisjoint(spectrum: Mat<Complex>, filterLow: Mat<Byte>, i: nat, j: nat)
    requires spectrum.Valid() && spectrum.rows == FilterSize && spectrum.cols == FilterSize
    requires IsBinaryMask(filterLow) && filterLow.rows == FilterSize && filterLow.cols == FilterSize
    requires i < FilterSize && j < FilterSize
    ensures var (lowpass, highpass) := FilterSpectrum(spectrum, filterLow);
            (lowpass.cells[i][j] == ComplexZero || highpass.cells[i][j] == ComplexZero)
            && (lowpass.cells[i][j] == spectrum.cells[i][j] || highpass.cells[i][j] == spectrum.cells[i][j])
  {
    assert filterLow.cells[i][j] == 0 || filterLow.cells[i][j] == 255;
  }
}
