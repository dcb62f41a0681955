/**
 * `create_complex_dft_image`: the grayscale image is padded on the bottom
 * and right with zeros up to the transform size the library finds
 * efficient, converted to floats, and packed as channel 0 of a two-channel
 * image whose channel 1 is zero.
 */
module ComplexImage {
  import opened Grid

  /**
   * `copyMakeBorder(m, out, 0, bottom, 0, right, BORDER_CONSTANT, zero)`:
   * `bottom` rows and `right` columns of `zero` added below and to the right.
   */
  function CopyMakeBorder<T>(m: Mat<T>, bottom: nat, right: nat, zero: T): (p: Mat<T>)
    requires m.Valid()
    ensures p.Valid() && p.rows == m.rows + bottom && p.cols == m.cols + right
    ensures Region(p, 0, 0, m.rows, m.cols) == m
    ensures forall i, j | 0 <= i < p.rows && 0 <= j < p.cols && !InBlock(i, j, 0, 0, m.rows, m.cols) ::
              p.cells[i][j] == zero
  {
    var p := Mat(m.rows + bottom, m.cols + right,
                 seq(m.rows + bottom, i requires 0 <= i < m.rows + bottom =>
                       seq(m.cols + right, j requires 0 <= j < m.cols + right =>
                             if InBlock(i, j, 0, 0, m.rows, m.cols) then m.cells[i][j] else zero)));
    Extensionality(Region(p, 0, 0, m.rows, m.cols), m);
    p
  }

  /**
   * The packed image for an 8-bit image `img`. `optimal` stands for the
   * library's `getOptimalDFTSize`, of which the model knows only that it
   * does not shrink the two dimensions it is asked about; `copyMakeBorder`
   * needs those border widths to be non-negative.
   */
  function CreateComplexDftImage(img: Mat<Byte>, optimal: nat -> nat): (c: Mat<Complex>)
    requires img.Valid()
    requires optimal(img.rows) >= img.rows && optimal(img.cols) >= img.cols
    ensures c.Valid() && c.rows == optimal(img.rows) && c.cols == optimal(img.cols)
    ensures c.rows >= img.rows && c.cols >= img.cols
    ensures Region(Channel0(c), 0, 0, img.rows, img.cols) == ToReal(img)
    ensures forall i, j | 0 <= i < c.rows && 0 <= j < c.cols && !InBlock(i, j, 0, 0, img.rows, img.cols) ::
              c.cells[i][j].re == 0.0
    ensures Channel1(c) == Filled(c.rows, c.cols, 0.0)
  {
    var realImage := ToReal(CopyMakeBorder(img, optimal(img.rows) - img.rows, optimal(img.cols) - img.cols, 0));
    var c := Merge(realImage, Filled(realImage.rows, realImage.cols, 0.0));
    SplitMerge(realImage, Filled(realImage.rows, realImage.cols, 0.0));
    PaddedRealRegion(img, optimal(img.rows) - img.rows, optimal(img.cols) - img.cols);
    c
  }

  /** Converting after padding keeps the image's samples in the top-left region. */
  lemma PaddedRealRegion(img: Mat<Byte>, bottom: nat, right: nat)
    requires img.Valid()
    ensures Region(ToReal(CopyMakeBorder(img, bottom, right, 0)), 0, 0, img.rows, img.cols) == ToReal(img)
  {
    var padded := CopyMakeBorder(img, bottom, right, 0);
    forall i, j | 0 <= i < img.rows && 0 <= j < img.cols
      ensures Region(ToReal(padded), 0, 0, img.rows, img.cols).cells[i][j] == ToReal(img).cells[i][j]
    {
      assert Region(padded, 0, 0, img.rows, img.cols).cells[i][j] == img.cells[i][j];
    }
    Extensionality(Region(ToReal(padded), 0, 0, img.rows, img.cols), ToReal(img));
  }

  /** Padding an image that already has the target size changes nothing. */
  lemma CopyMakeBorderNothing<T>(m: Mat<T>, zero: T)
    requires m.Valid()
    ensures CopyMakeBorder(m, 0, 0, zero) == m
  {
    RegionWhole(CopyMakeBorder(m, 0, 0, zero));
  }
}
