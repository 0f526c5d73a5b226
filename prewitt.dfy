/** The Prewitt edge detector: the engine of module Convolution run with the
    Prewitt kernel pair declared locally in both filters. */
module Prewitt {
  import opened MagnitudeMath
  import opened Convolution

  /** Horizontal-gradient kernel: right column minus left column. */
  const Gx: Kernel := [[-1, 0, 1], [-1, 0, 1], [-1, 0, 1]]

  /** Vertical-gradient kernel: bottom row minus top row. */
  const Gy: Kernel := [[-1, -1, -1], [0, 0, 0], [1, 1, 1]]

  /** The Prewitt responses in the usual difference form. */
  lemma PrewittDifferences(g: Grid, k: int, m: int)
    requires Interior(g, k, m)
    ensures Response(g, k, m, Gx) ==
      (g[k - 1][m + 1] + g[k][m + 1] + g[k + 1][m + 1]) - (g[k - 1][m - 1] + g[k][m - 1] + g[k + 1][m - 1])
    ensures Response(g, k, m, Gy) ==
      (g[k + 1][m - 1] + g[k + 1][m] + g[k + 1][m + 1]) - (g[k - 1][m - 1] + g[k - 1][m] + g[k - 1][m + 1])
  {
  }

  /** applyPrewittFilter: a fresh array of the argument's dimensions whose
      interior cells hold the magnitude capped at 255 and whose one-cell
      frame, never written, is 0. The argument is only read. */
  method ApplyPrewittFilter(arr: array2<int>) returns (out: array2<int>)
    requires arr.Length0 >= 1
    ensures fresh(out)
    ensures out.Length0 == arr.Length0 && out.Length1 == arr.Length1
    ensures forall y, x :: Inner(arr.Length0, arr.Length1, y, x) ==>
      out[y, x] == Clamp(MagAt(Snapshot(arr), Gx, Gy, y, x))
    ensures forall i, j ::
      0 <= i < out.Length0 && 0 <= j < out.Length1 && !Inner(out.Length0, out.Length1, i, j)
      ==> out[i, j] == 0
    ensures forall i, j :: 0 <= i < out.Length0 && 0 <= j < out.Length1 ==> 0 <= out[i, j] <= 255
  {
    out := ClampedFilter(arr, Gx, Gy);
  }

  /** applyNormalizedPrewittFilter: the first pass stores the magnitudes and
      their maximum; when the maximum is 0 the first-pass array, all 0, is
      returned as it is, otherwise every interior cell is rescaled into
      0 .. 255. */
  method ApplyNormalizedPrewittFilter(arr: array2<int>) returns (out: array2<int>)
    requires arr.Length0 >= 1
    ensures fresh(out)
    ensures out.Length0 == arr.Length0 && out.Length1 == arr.Length1
    ensures forall y, x :: Inner(arr.Length0, arr.Length1, y, x) ==>
      out[y, x] == NormalizedAt(Snapshot(arr), Gx, Gy, y, x)
    ensures forall i, j ::
      0 <= i < out.Length0 && 0 <= j < out.Length1 && !Inner(out.Length0, out.Length1, i, j)
      ==> out[i, j] == 0
    ensures forall i, j :: 0 <= i < out.Length0 && 0 <= j < out.Length1 ==> 0 <= out[i, j] <= 255
    ensures forall y, x ::
      Inner(arr.Length0, arr.Length1, y, x) && MagAt(Snapshot(arr), Gx, Gy, y, x) == MaxMagnitude(Snapshot(arr), Gx, Gy) > 0
      ==> out[y, x] == 255
    ensures MaxMagnitude(Snapshot(arr), Gx, Gy) == 0 ==>
      (forall y, x :: Inner(arr.Length0, arr.Length1, y, x) ==> out[y, x] == MagAt(Snapshot(arr), Gx, Gy, y, x)) &&
      (forall i, j :: 0 <= i < out.Length0 && 0 <= j < out.Length1 ==> out[i, j] == 0)
  {
    var maxGradient;
    out, maxGradient := MagnitudePass(arr, Gx, Gy);
    MaxMagnitudeIsUpperBound(Snapshot(arr), Gx, Gy);
    if maxGradient == 0 {
      return;
    }
    RescaleInPlace(out, maxGradient);
  }

  /** Both Prewitt kernels have weights summing to 0. */
  lemma KernelsCancel()
    ensures WeightSum(Gx) == 0 && WeightSum(Gy) == 0
  {
  }

  /** A grid of one value has no Prewitt edge. */
  lemma UniformInputHasNoEdges(g: Grid, c: int)
    requires forall i, j :: 0 <= i < |g| && 0 <= j < Width(g) ==> g[i][j] == c
    ensures forall k, m :: Interior(g, k, m) ==> Clamp(MagAt(g, Gx, Gy, k, m)) == 0
    ensures MaxMagnitude(g, Gx, Gy) == 0
  {
    KernelsCancel();
    UniformGridHasNoEdges(g, Gx, Gy, c);
  }

  /** A vertical step of height at least 85 between the left and right
      neighbours saturates the plain filter at 255. */
  lemma StepEdgeSaturates(g: Grid, k: int, m: int, low: int, high: int)
    requires Interior(g, k, m)
    requires g[k - 1][m - 1] == g[k][m - 1] == g[k + 1][m - 1] == low
    requires g[k - 1][m + 1] == g[k][m + 1] == g[k + 1][m + 1] == high
    requires high - low >= 85
    ensures Clamp(MagAt(g, Gx, Gy, k, m)) == 255
  {
    PrewittDifferences(g, k, m);
    assert Response(g, k, m, Gx) == 3 * (high - low);
    MagnitudeLowerBound(Response(g, k, m, Gx), Response(g, k, m, Gy));
  }
}
