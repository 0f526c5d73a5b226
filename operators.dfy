/** How the two operators differ: the same neighbourhood seen through the
    Sobel and the Prewitt kernels. */
module Operators {
  import opened MagnitudeMath
  import opened Convolution
  import Sobel
  import Prewitt

  /** On a diagonal ramp, a neighbourhood with g[i][j] == i + j, both
      operators see the same direction but Sobel's doubled centre weights
      give the larger response: Sobel's gx = gy = 8, magnitude
      ISqrt(128) == 11, against Prewitt's gx = gy = 6, magnitude
      ISqrt(72) == 8. Neither is clamped, so the plain filters differ too. */
  lemma DiagonalRampSeparatesOperators(g: Grid, k: int, m: int)
    requires Interior(g, k, m)
    requires forall i, j :: k - 1 <= i <= k + 1 && m - 1 <= j <= m + 1 ==> g[i][j] == i + j
    ensures MagAt(g, Sobel.Gx, Sobel.Gy, k, m) == 11
    ensures MagAt(g, Prewitt.Gx, Prewitt.Gy, k, m) == 8
    ensures Clamp(MagAt(g, Sobel.Gx, Sobel.Gy, k, m)) != Clamp(MagAt(g, Prewitt.Gx, Prewitt.Gy, k, m))
  {
    assert g[k - 1][m - 1] == k + m - 2 && g[k - 1][m] == k + m - 1 && g[k - 1][m + 1] == k + m;
    assert g[k][m - 1] == k + m - 1 && g[k][m + 1] == k + m + 1;
    assert g[k + 1][m - 1] == k + m && g[k + 1][m] == k + m + 1 && g[k + 1][m + 1] == k + m + 2;
    Sobel.SobelDifferences(g, k, m);
    Prewitt.PrewittDifferences(g, k, m);
    assert Response(g, k, m, Sobel.Gx) == 8 && Response(g, k, m, Sobel.Gy) == 8;
    assert Response(g, k, m, Prewitt.Gx) == 6 && Response(g, k, m, Prewitt.Gy) == 6;
    ISqrtUnique(128, 11);
    ISqrtUnique(72, 8);
  }
}
