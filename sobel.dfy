/** The Sobel edge detector: the engine of module Convolution run with the
    Sobel kernel pair declared locally in both filters. */
module Sobel {
  import opened MagnitudeMath
  import opened Convolution

  /** Horizontal-gradient kernel: right column minus left column, with the
      centre row weighted twice. */
  const Gx: Kernel := [[-1, 0, 1], [-2, 0, 2], [-1, 0, 1]]

  /** Vertical-gradient kernel: bottom row minus top row, with the centre
      column weighted twice. */
  const Gy: Kernel := [[-1, -2, -1], [0, 0, 0], [1, 2, 1]]

  /** The Sobel responses in the usual difference form. */
  lemma SobelDifferences(g: Grid, k: int, m: int)
    requires Interior(g, k, m)
    ensures Response(g, k, m, Gx) ==
      (g[k - 1][m + 1] + 2 * g[k][m + 1] + g[k + 1][m + 1]) - (g[k - 1][m - 1] + 2 * g[k][m - 1] + g[k + 1][m - 1])
    ensures Response(g, k, m, Gy) ==
      (g[k + 1][m - 1] + 2 * g[k + 1][m] + g[k + 1][m + 1]) - (g[k - 1][m - 1] + 2 * g[k - 1][m] + g[k - 1][m + 1])
  {
  }

  /** applySobelFilter: a fresh array of the argument's dimensions whose
      interior cells hold min(255, magnitude) and whose one-cell frame, never
      written, is 0. The argument is only read. */
  method ApplySobelFilter(arr: array2<int>) returns (xy: array2<int>)
    requires arr.Length0 >= 1
    ensures fresh(xy)
    ensures xy.Length0 == arr.Length0 && xy.Length1 == arr.Length1
    ensures forall k, m :: Inner(arr.Length0, arr.Length1, k, m) ==>
      xy[k, m] == Clamp(MagAt(Snapshot(arr), Gx, Gy, k, m))
    ensures forall i, j ::
      0 <= i < xy.Length0 && 0 <= j < xy.Length1 && !Inner(xy.Length0, xy.Length1, i, j)
      ==> xy[i, j] == 0
    ensures forall i, j :: 0 <= i < xy.Length0 && 0 <= j < xy.Length1 ==> 0 <= xy[i, j] <= 255
  {
    xy := ClampedFilter(arr, Gx, Gy);
  }

  /** applyNormalizedSobelFilter: the first pass stores the magnitudes and
      their maximum, the second rescales every interior cell into 0 .. 255,
      with no guard for a zero maximum (every cell is then 0 already and
      stays 0). */
  method ApplyNormalizedSobelFilter(arr: array2<int>) returns (xy: array2<int>)
    requires arr.Length0 >= 1
    ensures fresh(xy)
    ensures xy.Length0 == arr.Length0 && xy.Length1 == arr.Length1
    ensures forall k, m :: Inner(arr.Length0, arr.Length1, k, m) ==>
      xy[k, m] == NormalizedAt(Snapshot(arr), Gx, Gy, k, m)
    ensures forall i, j ::
      0 <= i < xy.Length0 && 0 <= j < xy.Length1 && !Inner(xy.Length0, xy.Length1, i, j)
      ==> xy[i, j] == 0
    ensures forall i, j :: 0 <= i < xy.Length0 && 0 <= j < xy.Length1 ==> 0 <= xy[i, j] <= 255
    ensures forall k, m ::
      Inner(arr.Length0, arr.Length1, k, m) && MagAt(Snapshot(arr), Gx, Gy, k, m) == MaxMagnitude(Snapshot(arr), Gx, Gy) > 0
      ==> xy[k, m] == 255
    ensures MaxMagnitude(Snapshot(arr), Gx, Gy) == 0 ==>
      forall i, j :: 0 <= i < xy.Length0 && 0 <= j < xy.Length1 ==> xy[i, j] == 0
  {
    var maxGradient;
    xy, maxGradient := MagnitudePass(arr, Gx, Gy);
    MaxMagnitudeIsUpperBound(Snapshot(arr), Gx, Gy);
    RescaleInPlace(xy, maxGradient);
  }

  /** Both Sobel kernels have weights summing to 0. */
  lemma KernelsCancel()
    ensures WeightSum(Gx) == 0 && WeightSum(Gy) == 0
  {
  }

  /** A grid of one value has no Sobel edge: every magnitude, and so every
      cell of the plain filter's result, is 0. */
  lemma UniformInputHasNoEdges(g: Grid, c: int)
    requires forall i, j :: 0 <= i < |g| && 0 <= j < Width(g) ==> g[i][j] == c
    ensures forall k, m :: Interior(g, k, m) ==> Clamp(MagAt(g, Gx, Gy, k, m)) == 0
    ensures MaxMagnitude(g, Gx, Gy) == 0
  {
    KernelsCancel();
    UniformGridHasNoEdges(g, Gx, Gy, c);
  }

  /** A vertical step of height at least 64 between the left and right
      neighbours saturates the plain filter at 255. */
  lemma StepEdgeSaturates(g: Grid, k: int, m: int, low: int, high: int)
    requires Interior(g, k, m)
    requires g[k - 1][m - 1] == g[k][m - 1] == g[k + 1][m - 1] == low
    requires g[k - 1][m + 1] == g[k][m + 1] == g[k + 1][m + 1] == high
    requires high - low >= 64
    ensures Clamp(MagAt(g, Gx, Gy, k, m)) == 255
  {
    SobelDifferences(g, k, m);
    assert Response(g, k, m, Gx) == 4 * (high - low);
    MagnitudeLowerBound(Response(g, k, m, Gx), Response(g, k, m, Gy));
  }
}
