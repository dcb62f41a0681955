# Frequency-domain filtering demo: the buffer logic, in Dafny

The program loads a grayscale image and pads it to an efficient transform
size. It packs the image into a two-channel complex buffer, transforms it,
and shows the log-magnitude spectrum with its quadrants swapped so that the
zero frequency sits in the centre. It masks the spectrum with a 512 by 512
low-pass mask and with that mask's complement, transforms each result back,
and crops it to the original size.

All the numerics are library calls: the transforms, magnitude, logarithm,
normalisation and circle drawing. What the program's own code decides is
the index and buffer logic around those calls. This project models that
logic and treats the samples as opaque:

- `Grid` (`grid.dfy`): matrices as `Mat<T>` values. A row count, a column
  count and the rows. It also defines 8-bit samples (`Byte`) and complex
  samples (`Complex`, with floats as exact reals). The library pieces the
  program is built from are here too: a filled matrix, a region copied out
  (`Region`), a block written into a region (`Paste`), the 8-bit to float
  conversion, and merge/split of the two channels. Lastly it has the
  array-level block copy `CopyBlock`, which stands for `copyTo` between two
  region views.
- `ComplexImage` (`complex_image.dfy`): `create_complex_dft_image`. This is
  bottom/right zero padding to the size `getOptimalDFTSize` picks, then
  packing with a zero imaginary channel.
- `MagnitudeLayout` (`magnitude_layout.dfy`): the layout part of
  `create_fourier_magnitude_image_from_complex`. The image is cut to even
  width and height (`& -2`). Then its quadrants are exchanged in place
  through a temporary buffer. `TruncateAndSwapQuadrants` is a method on a
  2D array. It is proved equal to the six copy steps (`SwapThroughTmp`),
  and those are proved equal to the swapped layout `FftShift`.
- `InverseImage` (`inverse_image.dfy`): the crop of channel 0 in
  `create_inverse_fourier_image_from_complex`.
- `FrequencyFilter` (`frequency_filter.dfy`): the high-pass mask as the
  byte complement of the low-pass mask. Also each masked copy of the
  spectrum, on the hard-coded 512 by 512 size.

The program's own code uses two bit operations. `n & -2` acts on matrix
dimensions, which are non-negative C++ `int`s, and clears bit 0; it is
written `(n / 2) * 2` on `nat`. `~` acts on the unsigned 8-bit mask bytes
and inverts all eight bits, which gives 255 - x; it is written so on
`Byte`, the 8-bit range. Apart from these, no integer width affects the
result.

## Model

| member | source | states |
|---|---|---|
| `ComplexImage.CopyMakeBorder` | DFT.cpp:26-29 | the padded matrix has `bottom` more rows and `right` more columns; its top-left region of the input's size is the input; every other sample is the border value |
| `ComplexImage.CreateComplexDftImage` | DFT.cpp:19-34 | the packed image has exactly the optimal row and column counts, so it is at least as large as the image; channel 0 holds the image's samples as floats in the top-left region and 0 elsewhere; channel 1 is all zero |
| `ComplexImage.PaddedRealRegion` | DFT.cpp:26-32 | padding then converting to float keeps the converted image in the top-left region |
| `ComplexImage.CopyMakeBorderNothing` | DFT.cpp:26-29 | when the optimal size equals the image size the padding is the identity |
| `Grid.Filled` | DFT.cpp:32 | `Mat::zeros` of a size: that size, every sample the given value |
| `Grid.ToReal` | DFT.cpp:32 | `Mat_<float>` keeps the size and converts each sample exactly |
| `Grid.Merge` | DFT.cpp:33 | merging two planes of one size gives a two-channel image of that size whose sample pairs are the planes' samples |
| `Grid.Channel0` | DFT.cpp:83 | plane 0 of `split` has the image's size and holds the real parts |
| `Grid.Channel1` | DFT.cpp:43 | plane 1 of `split` has the image's size and holds the imaginary parts |
| `Grid.SplitMerge` | DFT.cpp:32-33 | splitting a merged image gives back both planes |
| `Grid.MergeSplit` | DFT.cpp:42-43 | merging the planes of a split image gives back the image |
| `Grid.Region` | DFT.cpp:86 | a region copy has the rectangle's size, and sample (i, j) is the source's sample at the rectangle's corner plus (i, j) |
| `Grid.RegionWhole` | DFT.cpp:52 | a region spanning the whole matrix is the matrix |
| `Grid.Paste` | DFT.cpp:66-70 | copying a block into a region view of a matrix keeps the matrix's size; the region then equals the block and every sample outside the region is unchanged |
| `Grid.PasteWhole` | DFT.cpp:65 | copying a block into a whole matrix of the block's size replaces the matrix |
| `Grid.CopyBlock` | DFT.cpp:65-70 | after a block copy between views, the destination array is the old destination with the old source block pasted at the destination corner, and nothing outside that block changes; one buffer is allowed as both source and destination when the blocks are disjoint |
| `MagnitudeLayout.ClearLowBit` | DFT.cpp:52 | `n & -2` is even, at most `n`, smaller by at most 1, and equal to `n` exactly when `n` is even |
| `MagnitudeLayout.TruncateToEven` | DFT.cpp:52 | the truncated view has even height `rows & -2` and even width `cols & -2`, each at most one less than before; its samples are the top-left samples unchanged |
| `MagnitudeLayout.TruncateEvenIsIdentity` | DFT.cpp:52 | truncating an even-sized matrix leaves it unchanged |
| `MagnitudeLayout.ShiftIndex` | DFT.cpp:55-63 | a row or column index below 2h moves to an index that is again below 2h |
| `MagnitudeLayout.ShiftIndexIsRotation` | DFT.cpp:55-63 | the move is `(i + h) mod 2h`, and moving twice returns to `i` |
| `MagnitudeLayout.FftShift` | DFT.cpp:55-70 | the swapped layout keeps the matrix's height and width |
| `MagnitudeLayout.FftShiftIsRotation` | DFT.cpp:55-70 | sample (i, j) of the swapped layout is the original sample at ((i + h) mod 2h, (j + w) mod 2w) |
| `MagnitudeLayout.Quadrant` | DFT.cpp:60-63 | each of q0..q3 has half the height and half the width |
| `MagnitudeLayout.ShiftedQuadrant` | DFT.cpp:60-70 | quadrant q of the swapped layout is quadrant 3 - q of the original |
| `MagnitudeLayout.FftShiftExchangesQuadrants` | DFT.cpp:60-70 | in the swapped layout q0 holds the old q3, q3 the old q0, q1 the old q2 and q2 the old q1 |
| `MagnitudeLayout.QuadrantsCover` | DFT.cpp:60-63 | the four quadrants cover the matrix: two even-sized matrices with the same four quadrants are equal |
| `MagnitudeLayout.FftShiftInvolution` | DFT.cpp:55-70 | swapping the quadrants twice gives back the original matrix |
| `MagnitudeLayout.SwapThroughTmp` | DFT.cpp:58-70 | the six copy steps through `tmp` keep the matrix's size |
| `MagnitudeLayout.SwapThroughTmpAt` | DFT.cpp:65-70 | after the six copy steps, each sample of the 2h by 2w block holds the sample from its swapped position |
| `MagnitudeLayout.SwapThroughTmpOutside` | DFT.cpp:58-70 | the six copy steps leave every sample outside the 2h by 2w block unchanged |
| `MagnitudeLayout.SwapThroughTmpIsFftShift` | DFT.cpp:52-70 | on the even-sized view, the six copy steps give exactly the swapped layout, and the dropped odd row and column keep their samples |
| `MagnitudeLayout.TruncateAndSwapQuadrants` | DFT.cpp:52-70 | the array afterwards is the result of the six copies on the old array; its even-sized view is the swapped layout of the old view; samples outside the view are unchanged |
| `InverseImage.CreateInverseFourierImage` | DFT.cpp:82-86 | the crop has exactly the original image's rows and columns, and each sample is the real part of the same-position sample of the input |
| `InverseImage.CropUndoesPacking` | DFT.cpp:86 | cropping the packed image of an image gives back that image's samples as floats: the padding loses nothing |
| `InverseImage.CropIgnoresChannel1` | DFT.cpp:83-86 | two inputs whose kept samples have equal real parts crop to the same image |
| `FrequencyFilter.Complement` | DFT.cpp:135 | `~m` keeps the size, and each byte plus its complement is 255 |
| `FrequencyFilter.ComplementInvolution` | DFT.cpp:135 | complementing a mask twice gives back the mask |
| `FrequencyFilter.ComplementPartitions` | DFT.cpp:122-135 | the complement of a 0/255 mask is 0/255, and at every position exactly one of the pair is set (union is everything, intersection is empty) |
| `FrequencyFilter.MaskedCopy` | DFT.cpp:129 | the masked copy has the source's size; it holds the source sample where the mask is non-zero and zero where the mask is zero |
| `FrequencyFilter.MaskedCopyIdempotent` | DFT.cpp:129 | masking again with the same mask changes nothing |
| `FrequencyFilter.ComplementRemovesKept` | DFT.cpp:129-137 | masking the low-pass result with the complement of a 0/255 mask leaves all zeros |
| `FrequencyFilter.FilterSpectrum` | DFT.cpp:122-137 | for a 512 by 512 spectrum, the low-pass output keeps a sample exactly where the low mask is non-zero and the high-pass output exactly where the low mask is not 255; every other sample is zero |
| `FrequencyFilter.FilteredSpectraSum` | DFT.cpp:128-137 | with a 0/255 low-pass mask, the low-pass and high-pass spectra add up sample by sample to the spectrum |
| `FrequencyFilter.FilteredSpectraDisjoint` | DFT.cpp:128-137 | with a 0/255 low-pass mask, each sample is kept by exactly one of the two outputs and is zero in the other |

## Left out

- `dft` and `idft` (DFT.cpp:115, 144, 151, 158) are library numerics and are not modelled. The model's functions take their results as inputs.
- `magnitude`, the `+ 1`, `log` and both `normalize(..., CV_MINMAX)` calls (DFT.cpp:46-50, 73, 87) are floating-point arithmetic. `TruncateAndSwapQuadrants` works on an array of opaque samples, which stands for the magnitude image.
- `getOptimalDFTSize` (DFT.cpp:27-28) is a library function. It enters `CreateComplexDftImage` as the parameter `optimal`, of which only "does not shrink" is assumed, for the two sizes asked about.
- The rasterisation of the four filled circles of radius `FILTER_R` = 70 (DFT.cpp:16, 123-126) is library drawing code. The low-pass mask is an arbitrary 512 by 512 byte matrix, and the lemmas that need it to be 0/255 say so.
- `imread` and the empty-image error, the argument-count check and usage message, the windows, `waitKey` and the eight `imwrite` calls (DFT.cpp:93-107, 163-188) are I/O and UI.
- FilterSpectrum: requires a 512 by 512 spectrum. In the source, any other padded size fails the library's size assertion inside `copyTo`, an uncaught exception. That failure path is not modelled.
- MaskedCopy: the source first allocates `lowpass_out` and `highpass_out` as 512 by 512 8-bit zeros (DFT.cpp:128, 136). `copyTo` then reallocates them with the spectrum's two-channel float type and clears them to zero. The model gives only that final result.
- TruncateAndSwapQuadrants: `out = out(Rect(...))` rebinds `out` to a view of the same buffer. The model keeps the whole array and states what happens inside the view and outside it, instead of modelling a view header.
- Floats are exact reals, so no rounding is modelled. The 8-bit to float conversion is exact in both the source and the model.
