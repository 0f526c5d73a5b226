/** The gradient engine shared by the Sobel and Prewitt classes: a 3x3 kernel
    pair slid over every cell of a grid that has a full neighbourhood, the
    first-pass magnitudes with their running maximum, and the in-place
    rescaling of the normalised variants. The Java int[][] arguments are
    array2<int> values (row index first); what the filters compute is
    specified on a Grid, the rows of such an array taken as a value. */
module Convolution {
  import opened MagnitudeMath

  /** A 3x3 weight matrix, indexed K[row][column]. */
  type Kernel = K: seq<seq<int>> | |K| == 3 && forall r :: 0 <= r < |K| ==> |K[r]| == 3
    witness [[0, 0, 0], [0, 0, 0], [0, 0, 0]]

  /** The length of the first row: the width the Java code reads from
      arr[0].length. */
  function Width(g: seq<seq<int>>): nat
  {
    if |g| == 0 then 0 else |g[0]|
  }

  /** Rows of equal length. */
  type Grid = g: seq<seq<int>> | forall i :: 0 <= i < |g| ==> |g[i]| == Width(g)

  /** The cells of a 2D array, row by row. */
  ghost function Snapshot(a: array2<int>): (g: Grid)
    reads a
    ensures Mirrors(a, g)
  {
    var rows := seq(a.Length0, i requires 0 <= i < a.Length0 reads a =>
      seq(a.Length1, j requires 0 <= j < a.Length1 reads a => a[i, j]));
    assert forall i :: 0 <= i < |rows| ==> |rows[i]| == a.Length1;
    assert |rows| > 0 ==> Width(rows) == a.Length1;
    rows
  }

  /** g holds exactly the cells of a. */
  ghost predicate Mirrors(a: array2<int>, g: seq<seq<int>>)
    reads a
  {
    |g| == a.Length0 && (forall i :: 0 <= i < |g| ==> |g[i]| == a.Length1) &&
    forall i, j :: 0 <= i < a.Length0 && 0 <= j < a.Length1 ==> g[i][j] == a[i, j]
  }

  lemma MirrorExists(a: array2<int>)
    ensures exists g: Grid :: Mirrors(a, g)
  {
    assert Mirrors(a, Snapshot(a));
  }

  /** Only one grid holds the cells of an array. */
  lemma MirrorsUnique(a: array2<int>, g: Grid)
    requires Mirrors(a, g)
    ensures g == Snapshot(a)
  {
    var s := Snapshot(a);
    forall i | 0 <= i < |g|
      ensures g[i] == s[i]
    {
      assert forall j :: 0 <= j < |g[i]| ==> g[i][j] == a[i, j] == s[i][j];
    }
  }

  /** Cells of a height x width grid whose 3x3 neighbourhood lies inside it:
      the cells the filters visit. The rest is the one-cell frame. */
  predicate Inner(height: int, width: int, k: int, m: int)
  {
    1 <= k < height - 1 && 1 <= m < width - 1
  }

  predicate Interior(g: Grid, k: int, m: int)
  {
    Inner(|g|, Width(g), k, m)
  }

  /** The weighted sum of the 3x3 neighbourhood of (k, m): each neighbour
      g[k + i][m + j] times K[i + 1][j + 1], for i and j in -1..1. */
  function Response(g: Grid, k: int, m: int, K: Kernel): int
    requires Interior(g, k, m)
  {
    g[k - 1][m - 1] * K[0][0] + g[k - 1][m] * K[0][1] + g[k - 1][m + 1] * K[0][2] +
    g[k][m - 1] * K[1][0] + g[k][m] * K[1][1] + g[k][m + 1] * K[1][2] +
    g[k + 1][m - 1] * K[2][0] + g[k + 1][m] * K[2][1] + g[k + 1][m + 1] * K[2][2]
  }

  /** The sum of all nine weights of a kernel. */
  function WeightSum(K: Kernel): int
  {
    K[0][0] + K[0][1] + K[0][2] + K[1][0] + K[1][1] + K[1][2] + K[2][0] + K[2][1] + K[2][2]
  }

  /** What the inner accumulation loop has added for row offset i after the
      column offsets -1 .. jEnd - 1. */
  function RowTerms(g: Grid, k: int, m: int, K: Kernel, i: int, jEnd: int): int
    requires Interior(g, k, m) && -1 <= i <= 1 && -1 <= jEnd <= 2
    decreases jEnd + 1
  {
    if jEnd == -1 then 0
    else RowTerms(g, k, m, K, i, jEnd - 1) + g[k + i][m + jEnd - 1] * K[i + 1][jEnd]
  }

  /** What the accumulation loops have added after the row offsets
      -1 .. iEnd - 1. */
  function WindowTerms(g: Grid, k: int, m: int, K: Kernel, iEnd: int): int
    requires Interior(g, k, m) && -1 <= iEnd <= 2
    decreases iEnd + 1
  {
    if iEnd == -1 then 0
    else WindowTerms(g, k, m, K, iEnd - 1) + RowTerms(g, k, m, K, iEnd - 1, 2)
  }

  /** One row offset's three terms, spelled out. */
  lemma RowTermsComplete(g: Grid, k: int, m: int, K: Kernel, i: int)
    requires Interior(g, k, m) && -1 <= i <= 1
    ensures RowTerms(g, k, m, K, i, 2) ==
      g[k + i][m - 1] * K[i + 1][0] + g[k + i][m] * K[i + 1][1] + g[k + i][m + 1] * K[i + 1][2]
  {
    assert RowTerms(g, k, m, K, i, 0) == g[k + i][m - 1] * K[i + 1][0];
    assert RowTerms(g, k, m, K, i, 1) == RowTerms(g, k, m, K, i, 0) + g[k + i][m] * K[i + 1][1];
  }

  /** Once all nine neighbours are visited the running sum is the weighted
      neighbourhood sum. */
  lemma WindowTermsComplete(g: Grid, k: int, m: int, K: Kernel)
    requires Interior(g, k, m)
    ensures WindowTerms(g, k, m, K, 2) == Response(g, k, m, K)
  {
    RowTermsComplete(g, k, m, K, -1);
    RowTermsComplete(g, k, m, K, 0);
    RowTermsComplete(g, k, m, K, 1);
    assert WindowTerms(g, k, m, K, 0) == RowTerms(g, k, m, K, -1, 2);
    assert WindowTerms(g, k, m, K, 1) == WindowTerms(g, k, m, K, 0) + RowTerms(g, k, m, K, 0, 2);
  }

  /** A neighbourhood of equal values has response value times the weight
      sum; for a kernel whose weights cancel, zero. */
  lemma UniformResponse(g: Grid, k: int, m: int, K: Kernel, c: int)
    requires Interior(g, k, m)
    requires forall i, j :: k - 1 <= i <= k + 1 && m - 1 <= j <= m + 1 ==> g[i][j] == c
    ensures Response(g, k, m, K) == c * WeightSum(K)
  {
    assert g[k - 1][m - 1] == g[k - 1][m] == g[k - 1][m + 1] == c;
    assert g[k][m - 1] == g[k][m] == g[k][m + 1] == c;
    assert g[k + 1][m - 1] == g[k + 1][m] == g[k + 1][m + 1] == c;
    assert c * WeightSum(K) ==
      c * K[0][0] + c * K[0][1] + c * K[0][2] + c * K[1][0] + c * K[1][1] + c * K[1][2] +
      c * K[2][0] + c * K[2][1] + c * K[2][2];
  }

  /** The first-pass magnitude of an interior cell. */
  function MagAt(g: Grid, Gx: Kernel, Gy: Kernel, k: int, m: int): nat
    requires Interior(g, k, m)
  {
    Magnitude(Response(g, k, m, Gx), Response(g, k, m, Gy))
  }

  /** A grid of magnitudes. */
  type Image = M: seq<seq<nat>> | forall i :: 0 <= i < |M| ==> |M[i]| == Width(M)

  /** M is what the first pass of the normalised filters stores for g: the
      magnitude on every interior cell, 0 on the frame. */
  ghost predicate Tabulates(M: Image, g: Grid, Gx: Kernel, Gy: Kernel)
  {
    |M| == |g| && Width(M) == Width(g) &&
    (forall k, m {:trigger MagAt(g, Gx, Gy, k, m)} :: Interior(g, k, m) ==> M[k][m] == MagAt(g, Gx, Gy, k, m)) &&
    (forall i, j :: 0 <= i < |g| && 0 <= j < Width(g) && !Interior(g, i, j) ==> M[i][j] == 0)
  }

  /** The first-pass magnitudes of g. */
  function Magnitudes(g: Grid, Gx: Kernel, Gy: Kernel): (M: Image)
    ensures Tabulates(M, g, Gx, Gy)
  {
    var M := seq(|g|, i requires 0 <= i < |g| =>
      seq(Width(g), j requires 0 <= j < Width(g) => if Interior(g, i, j) then MagAt(g, Gx, Gy, i, j) else 0));
    assert forall i :: 0 <= i < |M| ==> |M[i]| == Width(g);
    assert |M| > 0 ==> Width(M) == Width(g);
    M
  }

  lemma TabulationExists(g: Grid, Gx: Kernel, Gy: Kernel)
    ensures exists M: Image :: Tabulates(M, g, Gx, Gy)
  {
    assert Tabulates(Magnitudes(g, Gx, Gy), g, Gx, Gy);
  }

  /** Only one image tabulates a grid. */
  lemma TabulatesUnique(M: Image, g: Grid, Gx: Kernel, Gy: Kernel)
    requires Tabulates(M, g, Gx, Gy)
    ensures M == Magnitudes(g, Gx, Gy)
  {
    var N := Magnitudes(g, Gx, Gy);
    forall i | 0 <= i < |M|
      ensures M[i] == N[i]
    {
      forall j | 0 <= j < Width(g)
        ensures M[i][j] == N[i][j]
      {
        if Interior(g, i, j) {
          assert M[i][j] == MagAt(g, Gx, Gy, i, j);
        }
      }
    }
  }

  /** The running maximum after row k's columns 1 .. n - 1, from 0. */
  function RowMax(M: Image, k: int, n: int): nat
    requires 0 <= k < |M|
    requires n <= 1 || n <= Width(M) - 1
    decreases n
  {
    if n <= 1 then 0 else Max(RowMax(M, k, n - 1), M[k][n - 1])
  }

  /** The running maximum after the interior rows 1 .. n - 1. */
  function GridMax(M: Image, n: int): nat
    requires n <= 1 || n <= |M| - 1
    decreases n
  {
    if n <= 1 then 0 else Max(GridMax(M, n - 1), RowMax(M, n - 1, Width(M) - 1))
  }

  /** The value maxGradient holds after the first pass: the largest interior
      magnitude, or 0 when there is no interior cell. */
  function MaxMagnitude(g: Grid, Gx: Kernel, Gy: Kernel): nat
  {
    var M := Magnitudes(g, Gx, Gy);
    GridMax(M, |M| - 1)
  }

  lemma {:induction false} RowMaxIsUpperBound(M: Image, k: int, n: int)
    requires 0 <= k < |M|
    requires n <= 1 || n <= Width(M) - 1
    ensures forall m :: 1 <= m < n ==> M[k][m] <= RowMax(M, k, n)
    decreases n
  {
    if n > 1 {
      RowMaxIsUpperBound(M, k, n - 1);
    }
  }

  lemma {:induction false} RowMaxIsAttained(M: Image, k: int, n: int)
    requires 0 <= k < |M|
    requires 2 <= n <= Width(M) - 1
    ensures exists m :: 1 <= m < n && M[k][m] == RowMax(M, k, n)
    decreases n
  {
    if n == 2 {
      assert M[k][1] == RowMax(M, k, n);
    } else if RowMax(M, k, n - 1) < M[k][n - 1] {
      assert M[k][n - 1] == RowMax(M, k, n);
    } else {
      RowMaxIsAttained(M, k, n - 1);
    }
  }

  lemma {:induction false} GridMaxIsUpperBound(M: Image, n: int)
    requires n <= 1 || n <= |M| - 1
    ensures forall k, m :: 1 <= k < n && 1 <= m < Width(M) - 1 ==> M[k][m] <= GridMax(M, n)
    decreases n
  {
    if n > 1 {
      GridMaxIsUpperBound(M, n - 1);
      RowMaxIsUpperBound(M, n - 1, Width(M) - 1);
    }
  }

  lemma {:induction false} GridMaxIsAttained(M: Image, n: int)
    requires 2 <= n <= |M| - 1 && 3 <= Width(M)
    ensures exists k, m :: 1 <= k < n && 1 <= m < Width(M) - 1 && M[k][m] == GridMax(M, n)
    decreases n
  {
    RowMaxIsAttained(M, n - 1, Width(M) - 1);
    var m :| 1 <= m < Width(M) - 1 && M[n - 1][m] == RowMax(M, n - 1, Width(M) - 1);
    if n == 2 || GridMax(M, n - 1) < RowMax(M, n - 1, Width(M) - 1) {
      assert M[n - 1][m] == GridMax(M, n);
    } else {
      GridMaxIsAttained(M, n - 1);
    }
  }

  lemma {:induction false} GridMaxOfNarrowGrid(M: Image, n: int)
    requires Width(M) < 3
    requires n <= 1 || n <= |M| - 1
    ensures GridMax(M, n) == 0
    decreases n
  {
    if n > 1 {
      GridMaxOfNarrowGrid(M, n - 1);
    }
  }

  /** After the first pass maxGradient is at least every stored magnitude. */
  lemma MaxMagnitudeIsUpperBound(g: Grid, Gx: Kernel, Gy: Kernel)
    ensures forall k, m :: Interior(g, k, m) ==> MagAt(g, Gx, Gy, k, m) <= MaxMagnitude(g, Gx, Gy)
  {
    var M := Magnitudes(g, Gx, Gy);
    GridMaxIsUpperBound(M, |M| - 1);
  }

  /** On a grid with an interior, maxGradient is one of the stored
      magnitudes. */
  lemma MaxMagnitudeIsAttained(g: Grid, Gx: Kernel, Gy: Kernel)
    requires 3 <= |g| && 3 <= Width(g)
    ensures exists k, m :: Interior(g, k, m) && MagAt(g, Gx, Gy, k, m) == MaxMagnitude(g, Gx, Gy)
  {
    var M := Magnitudes(g, Gx, Gy);
    GridMaxIsAttained(M, |M| - 1);
    var k, m :| 1 <= k < |M| - 1 && 1 <= m < Width(M) - 1 && M[k][m] == GridMax(M, |M| - 1);
    assert Interior(g, k, m) && MagAt(g, Gx, Gy, k, m) == M[k][m];
  }

  /** On a grid with no interior cell maxGradient keeps its initial 0. */
  lemma MaxMagnitudeOfNoInterior(g: Grid, Gx: Kernel, Gy: Kernel)
    requires |g| < 3 || Width(g) < 3
    ensures MaxMagnitude(g, Gx, Gy) == 0
  {
    var M := Magnitudes(g, Gx, Gy);
    if Width(M) < 3 {
      GridMaxOfNarrowGrid(M, |M| - 1);
    }
  }

  /** What the normalised filters store at an interior cell: its magnitude
      rescaled by the largest one. */
  function NormalizedAt(g: Grid, Gx: Kernel, Gy: Kernel, k: int, m: int): (r: nat)
    requires Interior(g, k, m)
    ensures r <= 255
    ensures MaxMagnitude(g, Gx, Gy) == 0 ==> r == 0
    ensures MagAt(g, Gx, Gy, k, m) == MaxMagnitude(g, Gx, Gy) > 0 ==> r == 255
  {
    MaxMagnitudeIsUpperBound(g, Gx, Gy);
    NormalizedCell(MagAt(g, Gx, Gy, k, m), MaxMagnitude(g, Gx, Gy))
  }

  /** A grid of equal values, seen through kernels whose weights cancel, has
      no edge anywhere: every magnitude and their maximum are 0. */
  lemma UniformGridHasNoEdges(g: Grid, Gx: Kernel, Gy: Kernel, c: int)
    requires WeightSum(Gx) == 0 && WeightSum(Gy) == 0
    requires forall i, j :: 0 <= i < |g| && 0 <= j < Width(g) ==> g[i][j] == c
    ensures forall k, m :: Interior(g, k, m) ==> MagAt(g, Gx, Gy, k, m) == 0
    ensures MaxMagnitude(g, Gx, Gy) == 0
  {
    forall k, m | Interior(g, k, m)
      ensures MagAt(g, Gx, Gy, k, m) == 0
    {
      UniformResponse(g, k, m, Gx, c);
      UniformResponse(g, k, m, Gy, c);
      MagnitudeZeroIff(0, 0);
    }
    if 3 <= |g| && 3 <= Width(g) {
      MaxMagnitudeIsAttained(g, Gx, Gy);
    } else {
      MaxMagnitudeOfNoInterior(g, Gx, Gy);
    }
  }

  /** The two inner loops of both filters: accumulate gx and gy over the
      3x3 neighbourhood of (k, m). */
  method WindowGradients(a: array2<int>, ghost g: Grid, k: int, m: int, Gx: Kernel, Gy: Kernel)
    returns (gx: int, gy: int)
    requires Mirrors(a, g) && Interior(g, k, m)
    ensures gx == Response(g, k, m, Gx) && gy == Response(g, k, m, Gy)
  {
    gx, gy := 0, 0;
    var i := -1;
    while i <= 1
      invariant -1 <= i <= 2
      invariant gx == WindowTerms(g, k, m, Gx, i) && gy == WindowTerms(g, k, m, Gy, i)
    {
      var j := -1;
      while j <= 1
        invariant -1 <= j <= 2
        invariant gx == WindowTerms(g, k, m, Gx, i) + RowTerms(g, k, m, Gx, i, j)
        invariant gy == WindowTerms(g, k, m, Gy, i) + RowTerms(g, k, m, Gy, i, j)
      {
        var pixel := a[k + i, m + j];
        gx := gx + pixel * Gx[i + 1][j + 1];
        gy := gy + pixel * Gy[i + 1][j + 1];
        j := j + 1;
      }
      i := i + 1;
    }
    WindowTermsComplete(g, k, m, Gx);
    WindowTermsComplete(g, k, m, Gy);
  }

  /** The magnitude the filters compute for the interior cell (k, m). */
  method CellMagnitude(a: array2<int>, ghost g: Grid, k: int, m: int, Gx: Kernel, Gy: Kernel)
    returns (magnitude: nat)
    requires Mirrors(a, g) && Interior(g, k, m)
    ensures magnitude == MagAt(g, Gx, Gy, k, m)
  {
    var gx, gy := WindowGradients(a, g, k, m, Gx, Gy);
    magnitude := Magnitude(gx, gy);
  }

  /** One row k of the plain filter: store each interior magnitude of the
      row, clamped to 255. */
  method ClampedRow(arr: array2<int>, ghost g: Grid, ghost M: Image, Gx: Kernel, Gy: Kernel,
                    xy: array2<int>, k: int)
    requires Mirrors(arr, g) && Tabulates(M, g, Gx, Gy)
    requires xy != arr && xy.Length0 == arr.Length0 && xy.Length1 == arr.Length1
    requires 1 <= k < arr.Length0 - 1
    modifies xy
    ensures forall j :: 1 <= j < xy.Length1 - 1 ==> xy[k, j] == Clamp(M[k][j])
    ensures forall i, j ::
      0 <= i < xy.Length0 && 0 <= j < xy.Length1 && !(i == k && 1 <= j < xy.Length1 - 1)
      ==> xy[i, j] == old(xy[i, j])
  {
    var width := arr.Length1;
    var m := 1;
    while m < width - 1
      invariant 1 <= m && (m <= width - 1 || m == 1)
      invariant forall j :: 1 <= j < m ==> xy[k, j] == Clamp(M[k][j])
      invariant forall i, j ::
        0 <= i < xy.Length0 && 0 <= j < width && !(i == k && 1 <= j < m)
        ==> xy[i, j] == old(xy[i, j])
    {
      var magnitude := CellMagnitude(arr, g, k, m, Gx, Gy);
      xy[k, m] := Clamp(magnitude);
      m := m + 1;
    }
  }

  /** The row loop of the plain filter over a zero grid xy. */
  method ClampedRows(arr: array2<int>, ghost g: Grid, ghost M: Image, Gx: Kernel, Gy: Kernel, xy: array2<int>)
    requires Mirrors(arr, g) && Tabulates(M, g, Gx, Gy)
    requires xy != arr && xy.Length0 == arr.Length0 && xy.Length1 == arr.Length1
    requires forall i, j :: 0 <= i < xy.Length0 && 0 <= j < xy.Length1 ==> xy[i, j] == 0
    modifies xy
    ensures forall i, j :: 0 <= i < xy.Length0 && 0 <= j < xy.Length1 ==> xy[i, j] == Clamp(M[i][j])
  {
    var height, width := arr.Length0, arr.Length1;
    var k := 1;
    while k < height - 1
      invariant 1 <= k && (k <= height - 1 || k == 1)
      invariant forall i, j :: 1 <= i < k && 1 <= j < width - 1 ==> xy[i, j] == Clamp(M[i][j])
      invariant forall i, j ::
        0 <= i < height && 0 <= j < width && !(1 <= i < k && 1 <= j < width - 1)
        ==> xy[i, j] == 0
    {
      ClampedRow(arr, g, M, Gx, Gy, xy, k);
      k := k + 1;
    }
  }

  /** The plain filter: a fresh grid of the argument's dimensions whose
      interior cells receive the magnitude clamped to 255, and 0 on the
      frame. */
  method ClampedFilter(arr: array2<int>, Gx: Kernel, Gy: Kernel) returns (xy: array2<int>)
    requires arr.Length0 >= 1
    ensures fresh(xy)
    ensures xy.Length0 == arr.Length0 && xy.Length1 == arr.Length1
    ensures forall k, m :: Inner(arr.Length0, arr.Length1, k, m) ==>
      xy[k, m] == Clamp(MagAt(Snapshot(arr), Gx, Gy, k, m))
    ensures forall i, j ::
      0 <= i < xy.Length0 && 0 <= j < xy.Length1 && !Inner(xy.Length0, xy.Length1, i, j)
      ==> xy[i, j] == 0
  {
    MirrorExists(arr);
    ghost var g: Grid :| Mirrors(arr, g);
    TabulationExists(g, Gx, Gy);
    ghost var M: Image :| Tabulates(M, g, Gx, Gy);
    xy := new int[arr.Length0, arr.Length1]((i, j) => 0);
    ClampedRows(arr, g, M, Gx, Gy, xy);
    TabulatesSnapshot(arr, g, M, Gx, Gy);
  }

  /** One row k of the first pass of the normalised filters: store each
      interior magnitude of the row and fold it into the running maximum. */
  method MagnitudeRow(arr: array2<int>, ghost g: Grid, ghost M: Image, Gx: Kernel, Gy: Kernel,
                      xy: array2<int>, k: int, maxGradient: nat)
    returns (rowMax: nat)
    requires Mirrors(arr, g) && Tabulates(M, g, Gx, Gy)
    requires xy != arr && xy.Length0 == arr.Length0 && xy.Length1 == arr.Length1
    requires 1 <= k < arr.Length0 - 1
    modifies xy
    ensures rowMax == Max(maxGradient, RowMax(M, k, arr.Length1 - 1))
    ensures forall j :: 1 <= j < xy.Length1 - 1 ==> xy[k, j] == M[k][j]
    ensures forall i, j ::
      0 <= i < xy.Length0 && 0 <= j < xy.Length1 && !(i == k && 1 <= j < xy.Length1 - 1)
      ==> xy[i, j] == old(xy[i, j])
  {
    var width := arr.Length1;
    rowMax := maxGradient;
    var m := 1;
    while m < width - 1
      invariant 1 <= m && (m <= width - 1 || m == 1)
      invariant rowMax == Max(maxGradient, RowMax(M, k, m))
      invariant forall j :: 1 <= j < m ==> xy[k, j] == M[k][j]
      invariant forall i, j ::
        0 <= i < xy.Length0 && 0 <= j < width && !(i == k && 1 <= j < m)
        ==> xy[i, j] == old(xy[i, j])
    {
      var magnitude := CellMagnitude(arr, g, k, m, Gx, Gy);
      if magnitude > rowMax {
        rowMax := magnitude;
      }
      xy[k, m] := magnitude;
      m := m + 1;
    }
  }

  /** A tabulation of the grid of an array's cells, restated on the array's
      snapshot. */
  lemma TabulatesSnapshot(arr: array2<int>, g: Grid, M: Image, Gx: Kernel, Gy: Kernel)
    requires Mirrors(arr, g) && Tabulates(M, g, Gx, Gy)
    ensures Tabulates(M, Snapshot(arr), Gx, Gy)
    ensures GridMax(M, |M| - 1) == MaxMagnitude(Snapshot(arr), Gx, Gy)
  {
    MirrorsUnique(arr, g);
    TabulatesUnique(M, g, Gx, Gy);
  }

  /** The row loop of the first pass over a zero grid xy: afterwards xy
      holds M on the interior, still 0 on the frame, and the result is the
      running maximum of M. */
  method MagnitudeRows(arr: array2<int>, ghost g: Grid, ghost M: Image, Gx: Kernel, Gy: Kernel, xy: array2<int>)
    returns (maxGradient: nat)
    requires Mirrors(arr, g) && Tabulates(M, g, Gx, Gy)
    requires xy != arr && xy.Length0 == arr.Length0 && xy.Length1 == arr.Length1
    requires forall i, j :: 0 <= i < xy.Length0 && 0 <= j < xy.Length1 ==> xy[i, j] == 0
    modifies xy
    ensures maxGradient == GridMax(M, |M| - 1)
    ensures forall i, j :: 0 <= i < xy.Length0 && 0 <= j < xy.Length1 ==> xy[i, j] == M[i][j]
  {
    var height, width := arr.Length0, arr.Length1;
    maxGradient := 0;
    var k := 1;
    while k < height - 1
      invariant 1 <= k && (k <= height - 1 || k == 1)
      invariant maxGradient == GridMax(M, k)
      invariant forall i, j :: 1 <= i < k && 1 <= j < width - 1 ==> xy[i, j] == M[i][j]
      invariant forall i, j ::
        0 <= i < height && 0 <= j < width && !(1 <= i < k && 1 <= j < width - 1)
        ==> xy[i, j] == 0
    {
      maxGradient := MagnitudeRow(arr, g, M, Gx, Gy, xy, k, maxGradient);
      k := k + 1;
    }
  }

  /** The first pass of both normalised filters: a fresh grid of the
      argument's dimensions whose interior cells receive the unclamped
      magnitudes, 0 on the frame, and the running maximum of the
      magnitudes. */
  method MagnitudePass(arr: array2<int>, Gx: Kernel, Gy: Kernel) returns (xy: array2<int>, maxGradient: nat)
    requires arr.Length0 >= 1
    ensures fresh(xy)
    ensures xy.Length0 == arr.Length0 && xy.Length1 == arr.Length1
    ensures forall k, m :: Inner(arr.Length0, arr.Length1, k, m) ==> xy[k, m] == MagAt(Snapshot(arr), Gx, Gy, k, m)
    ensures forall i, j ::
      0 <= i < xy.Length0 && 0 <= j < xy.Length1 && !Inner(xy.Length0, xy.Length1, i, j)
      ==> xy[i, j] == 0
    ensures maxGradient == MaxMagnitude(Snapshot(arr), Gx, Gy)
  {
    MirrorExists(arr);
    ghost var g: Grid :| Mirrors(arr, g);
    TabulationExists(g, Gx, Gy);
    ghost var M: Image :| Tabulates(M, g, Gx, Gy);
    xy := new int[arr.Length0, arr.Length1]((i, j) => 0);
    maxGradient := MagnitudeRows(arr, g, M, Gx, Gy, xy);
    TabulatesSnapshot(arr, g, M, Gx, Gy);
  }

  /** The second pass of the normalised filters: every interior cell of xy,
      relative to xy's own dimensions, is rescaled in place by maxGradient;
      the frame is left as it was. */
  method RescaleInPlace(xy: array2<int>, maxGradient: nat)
    requires forall k, m :: Inner(xy.Length0, xy.Length1, k, m) ==> 0 <= xy[k, m] <= maxGradient
    modifies xy
    ensures forall k, m ::
      Inner(xy.Length0, xy.Length1, k, m)
      ==> xy[k, m] == NormalizedCell(old(xy[k, m]), maxGradient)
    ensures forall i, j ::
      0 <= i < xy.Length0 && 0 <= j < xy.Length1 && !Inner(xy.Length0, xy.Length1, i, j)
      ==> xy[i, j] == old(xy[i, j])
  {
    var height, width := xy.Length0, xy.Length1;
    var k := 1;
    while k < height - 1
      invariant 1 <= k && (k <= height - 1 || k == 1)
      invariant forall i, j ::
        1 <= i < k && 1 <= j < width - 1
        ==> xy[i, j] == NormalizedCell(old(xy[i, j]), maxGradient)
      invariant forall i, j ::
        0 <= i < height && 0 <= j < width && !(1 <= i < k && 1 <= j < width - 1)
        ==> xy[i, j] == old(xy[i, j])
    {
      var m := 1;
      while m < width - 1
        invariant 1 <= m && (m <= width - 1 || m == 1)
        invariant forall i, j ::
          1 <= i < k && 1 <= j < width - 1
          ==> xy[i, j] == NormalizedCell(old(xy[i, j]), maxGradient)
        invariant forall j :: 1 <= j < m ==> xy[k, j] == NormalizedCell(old(xy[k, j]), maxGradient)
        invariant forall i, j ::
          0 <= i < height && 0 <= j < width && !(1 <= i < k && 1 <= j < width - 1) && !(i == k && 1 <= j < m)
          ==> xy[i, j] == old(xy[i, j])
      {
        xy[k, m] := NormalizedCell(xy[k, m], maxGradient);
        m := m + 1;
      }
      k := k + 1;
    }
  }
}
