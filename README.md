# Sobel and Prewitt edge detection, modelled in Dafny

The repository detects edges in grayscale images with two 3x3 gradient
operators, Sobel and Prewitt. Each operator class has the same three
integer routines, copied almost line for line:

- `getPaddedArray(arr, n)` surrounds the image with a zero border.
- `apply{Sobel,Prewitt}Filter(arr)` computes, at every cell away from the
  one-cell frame, the horizontal and vertical responses `gx` and `gy` of the
  kernel pair and stores `min(255, (int)Math.sqrt(gx*gx + gy*gy))`.
- `applyNormalized{Sobel,Prewitt}Filter(arr)` makes a first pass that stores
  the unclamped magnitudes and tracks their maximum `maxGradient`, and then a
  second pass that rescales every interior cell to `magnitude / maxGradient * 255`.
  Prewitt returns before the second pass when `maxGradient == 0`. Sobel has no
  such guard.

Around these sits the packing of a gray level into an RGB pixel and the
extraction of the red, green and blue channels.

The model keeps the source's imperative form. Grids are `array2<int>`, and
every loop of the source is a `while` loop with invariants. The four filters
run one shared engine, module `Convolution`, with the operator's kernels as
arguments, as the two Java copies differ only in their constants. Each
method is proved against specification functions on immutable grids
(`seq<seq<int>>`):

- `Response` is the weighted neighbourhood sum.
- `MagAt` is the magnitude of a cell.
- `MaxMagnitude` is the largest interior magnitude.
- `NormalizedAt` is a cell after rescaling.

`Snapshot(arr)` reads an array as such a grid. Lemmas then prove what those
functions mean:

- the exact integer square root;
- bounds on the magnitude;
- that the maximum is an upper bound that is attained;
- that rescaling lands in 0 .. 255, is monotone and sends the maximum to 255;
- that uniform input has no edges;
- that a strong step saturates the filter.

Modules:

- `MagnitudeMath` (magnitude.dfy): integer square root, magnitude, clamp,
  rescaling of one cell.
- `Convolution` (convolution.dfy): grids, kernel response, first and second
  passes shared by both operators, the maximum and its properties.
- `Sobel` (sobel.dfy), `Prewitt` (prewitt.dfy): the kernel constants and the
  two filters of each class.
- `Operators` (operators.dfy): a neighbourhood on which the two operators disagree.
- `Padding` (padding.dfy): `getPaddedArray`, identical in both classes.
- `Pixel` (pixel.dfy): gray packing and channel extraction on 32-bit words.

## Model

| member | source | states |
|---|---|---|
| MagnitudeMath.ISqrtIsRoot | edgeDetection/sobel.java:81 | `ISqrt(n)` is the largest r with r*r <= n, i.e. `(int)Math.sqrt(n)` for non-negative n |
| MagnitudeMath.ISqrtUnique | edgeDetection/sobel.java:81 | any r with r*r <= n < (r+1)*(r+1) is `ISqrt(n)`, so the root is determined by its two bounds |
| MagnitudeMath.MagnitudeIsNorm | edgeDetection/sobel.java:81 | the magnitude of (gx, gy) is the truncated square root of gx*gx + gy*gy |
| MagnitudeMath.MagnitudeZeroIff | edgeDetection/sobel.java:81 | the magnitude is 0 exactly when gx and gy are both 0 |
| MagnitudeMath.MagnitudeLowerBound | edgeDetection/sobel.java:81 | the magnitude is at least abs(gx) and at least abs(gy) |
| MagnitudeMath.MagnitudeUpperBound | edgeDetection/sobel.java:81 | the magnitude is at most abs(gx) + abs(gy) |
| MagnitudeMath.Clamp | edgeDetection/sobel.java:82 | the clamped value is at most 255 and at most its argument, and is either its argument or 255 (also prewitt.java:67) |
| MagnitudeMath.NormalizedCell | edgeDetection/sobel.java:152 | a value bounded by maxGradient rescales into 0 .. 255; maxGradient == 0 leaves the value (then 0) unchanged; the value maxGradient > 0 becomes exactly 255 |
| MagnitudeMath.NormalizedCellMonotone | edgeDetection/sobel.java:152 | rescaling preserves the order of magnitudes |
| Convolution.WindowTermsComplete | edgeDetection/sobel.java:72-78 | the running sum of the two accumulation loops, after all nine offsets, is the weighted neighbourhood sum `Response` |
| Convolution.UniformResponse | edgeDetection/sobel.java:72-78 | on a neighbourhood of equal values c the response is c times the kernel's weight sum |
| Convolution.TabulatesUnique | edgeDetection/sobel.java:122-147 | a grid with the first pass's dimensions, interior and frame is `Magnitudes` itself |
| Convolution.RowMaxIsUpperBound | edgeDetection/sobel.java:140-142 | the running maximum over a prefix of a row bounds every interior cell of that prefix |
| Convolution.RowMaxIsAttained | edgeDetection/sobel.java:140-142 | over a non-empty interior prefix of a row the running maximum is one of its cells |
| Convolution.GridMaxIsUpperBound | edgeDetection/sobel.java:122-147 | the running maximum over a prefix of rows bounds every interior cell of those rows |
| Convolution.GridMaxIsAttained | edgeDetection/sobel.java:122-147 | over at least one interior row of a grid with an interior column the running maximum is one of the cells |
| Convolution.GridMaxOfNarrowGrid | edgeDetection/sobel.java:119-147 | with fewer than three columns the maximum keeps its initial 0 |
| Convolution.MaxMagnitudeIsUpperBound | edgeDetection/sobel.java:119-147 | maxGradient is at least every interior magnitude |
| Convolution.MaxMagnitudeIsAttained | edgeDetection/sobel.java:119-147 | on a grid of at least 3x3, maxGradient equals the magnitude of some interior cell |
| Convolution.MaxMagnitudeOfNoInterior | edgeDetection/sobel.java:119-147 | on a grid with fewer than three rows or columns maxGradient is 0 |
| Convolution.NormalizedAt | edgeDetection/sobel.java:150-154 | a normalised interior cell lies in 0 .. 255, is 0 when maxGradient is 0, and is 255 when its magnitude equals maxGradient > 0 |
| Convolution.UniformGridHasNoEdges | edgeDetection/sobel.java:66-85 | for kernels whose weights sum to 0, a grid of one value has magnitude 0 everywhere and maxGradient 0 |
| Convolution.WindowGradients | edgeDetection/sobel.java:68-78 | the accumulation loops leave gx and gy equal to the two kernels' responses at (k, m) |
| Convolution.CellMagnitude | edgeDetection/sobel.java:68-81 | the computed magnitude of an interior cell is `MagAt` |
| Convolution.ClampedRow | edgeDetection/sobel.java:67-86 | one pass of the m loop writes the clamped magnitude into every interior cell of row k and leaves every other cell as it was |
| Convolution.ClampedRows | edgeDetection/sobel.java:66-87 | the k loop turns a zeroed array into the clamped magnitudes on the interior and 0 on the frame |
| Convolution.ClampedFilter | edgeDetection/sobel.java:47-99 | a fresh array of the argument's dimensions with `Clamp(MagAt)` on the interior and 0 on the frame |
| Convolution.MagnitudeRow | edgeDetection/sobel.java:123-146 | one pass of the m loop writes the magnitudes of row k and returns the running maximum extended by that row's cells; other cells are unchanged |
| Convolution.MagnitudeRows | edgeDetection/sobel.java:122-147 | the first pass turns a zeroed array into the magnitude grid and returns its maximum |
| Convolution.MagnitudePass | edgeDetection/sobel.java:101-147 | a fresh array of the argument's dimensions holding `MagAt` inside and 0 on the frame, and maxGradient == `MaxMagnitude` of the argument |
| Convolution.RescaleInPlace | edgeDetection/sobel.java:150-154 | every interior cell is replaced by its rescaled value; the frame is unchanged |
| Sobel.SobelDifferences | edgeDetection/sobel.java:53-63 | the Sobel responses are the column and row differences with centre weight 2 |
| Sobel.ApplySobelFilter | edgeDetection/sobel.java:47-99 | the result is a freshly allocated array of the argument's dimensions; interior cells are `min(255, magnitude)` for the Sobel kernels; the frame is 0; every cell is in 0 .. 255 |
| Sobel.ApplyNormalizedSobelFilter | edgeDetection/sobel.java:101-156 | the result is a freshly allocated array of the argument's dimensions; interior cells are `NormalizedAt`; the frame is 0; all cells are in 0 .. 255; a cell whose magnitude is maxGradient > 0 is 255; with maxGradient 0 every cell is 0 |
| Sobel.KernelsCancel | edgeDetection/sobel.java:53-63 | both Sobel kernels have weights summing to 0 |
| Sobel.UniformInputHasNoEdges | edgeDetection/sobel.java:66-85 | the plain Sobel filter of a one-valued grid is 0 everywhere, and so is maxGradient |
| Sobel.StepEdgeSaturates | edgeDetection/sobel.java:75-82 | a left-to-right step of at least 64 saturates the plain Sobel filter at 255 |
| Prewitt.PrewittDifferences | edgeDetection/prewitt.java:41-51 | the Prewitt responses are the plain column and row differences |
| Prewitt.ApplyPrewittFilter | edgeDetection/prewitt.java:35-73 | the result is a freshly allocated array of the argument's dimensions; interior cells are `min(255, magnitude)` for the Prewitt kernels; the frame is 0; every cell is in 0 .. 255 |
| Prewitt.ApplyNormalizedPrewittFilter | edgeDetection/prewitt.java:75-122 | as for Sobel; in addition, when maxGradient is 0 the first-pass array is returned as it is: the interior holds the magnitudes, all 0 |
| Prewitt.KernelsCancel | edgeDetection/prewitt.java:41-51 | both Prewitt kernels have weights summing to 0 |
| Prewitt.UniformInputHasNoEdges | edgeDetection/prewitt.java:53-70 | the plain Prewitt filter of a one-valued grid is 0 everywhere, and so is maxGradient |
| Prewitt.StepEdgeSaturates | edgeDetection/prewitt.java:60-67 | a left-to-right step of at least 85 saturates the plain Prewitt filter at 255 |
| Operators.DiagonalRampSeparatesOperators | edgeDetection/sobel.java:53-63 | the Sobel kernels here and the Prewitt kernels (prewitt.java:41-51) give different results: on a diagonal ramp g[i][j] == i + j the Sobel magnitude is 11 and the Prewitt magnitude is 8, and both plain-filter outputs differ |
| Padding.PadRow | edgeDetection/sobel.java:30-40 | one pass of the j loop writes 0 on the frame cells of row i and `arr[i-1][j-1]` on the others, leaving other rows unchanged |
| Padding.GetPaddedArray | edgeDetection/sobel.java:23-43 | a fresh (H+2n) x (W+2n) array, 0 on its outermost ring and `arr[i-1][j-1]` elsewhere; for n == 1 cropping the border gives arr back (the Prewitt class's copy, prewitt.java:12-32, is identical) |
| Pixel.GrayPixel | edgeDetection/sobel.java:190 | a gray level below 256 packs into the low 24 bits |
| Pixel.Blue | edgeDetection/sobel.java:252 | the blue channel is a byte |
| Pixel.Green | edgeDetection/sobel.java:253 | the green channel is a byte |
| Pixel.Red | edgeDetection/sobel.java:254 | the red channel is a byte |
| Pixel.GrayRoundTrip | edgeDetection/sobel.java:190 | packing a level v in 0 .. 255 and extracting with the three masks gives red = green = blue = v |
| Pixel.ChannelsDetermineColour | edgeDetection/sobel.java:252-254 | the three channels reassemble the pixel's low 24 bits: only alpha is lost |

## Left out

- Image I/O is not modelled: reading and writing files, `BufferedImage` access, `printArray` and both `main` methods. They are library and console calls.
- `convertToGrayscale` is not modelled. Its luma `0.299*r + 0.587*g + 0.114*b` is floating point. The channel extraction it starts with is modelled, in `Pixel`.
- The `imageReader` package is not part of this model. It repeats the I/O, the grayscale conversion and the gray packing.
- MagnitudeMath.NormalizedCell: `(int)(((double) v / maxGradient) * 255)` is modelled as the exact floor of `v * 255 / maxGradient`. Floating-point rounding of the quotient could differ by one just below an integer. The case `v == maxGradient`, which gives 255, is exact in doubles too.
- Sobel.ApplyNormalizedSobelFilter: with maxGradient 0 Java divides 0.0 by 0, and `(int)NaN` is 0. The model writes that value, 0, directly, without a division.
- 32-bit overflow is not modelled: pixel values and `gx*gx + gy*gy` are unbounded integers. With gray levels 0 .. 255 no Java int overflows. `main` passes raw ARGB words, where it can overflow.
- Java `int[][]` may be jagged. The model's grids are rectangular `array2<int>`.
- The class-level `Gx`/`Gy` fields of the Sobel class (sobel.java:12-21) are not modelled. The filters shadow them with local kernels.
- Padding.GetPaddedArray: arguments that make Java throw are excluded by the precondition. These are an empty `arr`, a negative padded dimension, and `n >= 2`, which reads past the end of `arr` (first at `arr[0][W]`). For n other than 1 the interior still copies `arr[i-1][j-1]`, as the code does. It is a real padding only for n == 1, the value every caller passes.
- The filters require a non-empty argument, because Java reads `arr[0].length`.
- Three consequences of the code as written, which the model follows:
  - A filter returns an array with the dimensions of its argument. That argument is the padded grid, not the original image.
  - Normalisation truncates toward zero rather than rounding.
  - A filter applied directly to a uniform grid gives all zeros (`UniformInputHasNoEdges`). A uniform grid whose value is not 0 gains edges along its border once it is zero-padded.
