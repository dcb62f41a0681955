/**
 * The crop in `create_inverse_fourier_image_from_complex`: channel 0 of an
 * inverse-transformed complex image, cut back to the size of the original
 * image. The normalisation that follows is not modelled.
 */
module InverseImage {
  import opened Grid
  import ComplexImage

  /**
   * `splitted_image[0](Rect(0, 0, origin.cols, origin.rows)).copyTo(out)`.
   * Only the dimensions of `origin` are used; the library demands that the
   * rectangle lie inside the image.
   */
  function CreateInverseFourierImage(c: Mat<Complex>, origin: Mat<Byte>): (out: Mat<real>)
    requires c.Valid() && origin.rows <= c.rows && origin.cols <= c.cols
    ensures out.Valid() && SameSize(out, origin)
    ensures forall i, j | 0 <= i < origin.rows && 0 <= j < origin.cols :: out.cells[i][j] == c.cells[i][j].re
  {
    Region(Channel0(c), 0, 0, origin.rows, origin.cols)
  }

  /**
   * Cropping the packed image of `img` gives back the samples of `img`: the
   * padding loses nothing in the region the crop keeps.
   */
  lemma CropUndoesPacking(img: Mat<Byte>, optimal: nat -> nat)
    requires img.Valid()
    requires optimal(img.rows) >= img.rows && optimal(img.cols) >= img.cols
    ensures CreateInverseFourierImage(ComplexImage.CreateComplexDftImage(img, optimal), img) == ToReal(img)
  {
    var c := ComplexImage.CreateComplexDftImage(img, optimal);
    assert Region(Channel0(c), 0, 0, img.rows, img.cols) == ToReal(img);
  }

  /** The crop depends only on channel 0 of the samples it keeps. */
  lemma CropIgnoresChannel1(a: Mat<Complex>, b: Mat<Complex>, origin: Mat<Byte>)
    requires a.Valid() && b.Valid() && origin.rows <= a.rows && origin.cols <= a.cols
    requires origin.rows <= b.rows && origin.cols <= b.cols
    requires forall i, j | 0 <= i < origin.rows && 0 <= j < origin.cols :: a.cells[i][j].re == b.cells[i][j].re
    ensures CreateInverseFourierImage(a, origin) == CreateInverseFourierImage(b, origin)
  {
    Extensionality(CreateInverseFourierImage(a, origin), CreateInverseFourierImage(b, origin));
  }
}
