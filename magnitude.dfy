/** Scalar arithmetic of the gradient engine: the truncated square root that
    turns a gradient pair into a magnitude, the clamp to 255 used by the plain
    filters and the per-cell rescaling used by the normalised filters. */
module MagnitudeMath {

  function Abs(x: int): nat
  {
    if x < 0 then -x else x
  }

  function Max(a: int, b: int): int
  {
    if a < b then b else a
  }

  /** Squaring is monotone on the naturals. */
  lemma SquareMonotone(a: nat, b: nat)
    requires a <= b
    ensures a * a <= b * b
  {
    MulMonotone(a, b, a);
    MulMonotone(a, b, b);
  }

  /** Counting up to the root: r is the candidate and sq tracks r * r, so
      that each step adds 2 * r + 1 and the definition stays linear. */
  function RootFrom(n: nat, r: nat, sq: nat): nat
    decreases n - sq
  {
    if n < sq + 2 * r + 1 then r else RootFrom(n, r + 1, sq + 2 * r + 1)
  }

  /** The integer square root of n. */
  function ISqrt(n: nat): nat
  {
    RootFrom(n, 0, 0)
  }

  lemma {:induction false} RootFromIsRoot(n: nat, r: nat, sq: nat)
    requires sq == r * r <= n
    ensures RootFrom(n, r, sq) * RootFrom(n, r, sq) <= n
    ensures n < (RootFrom(n, r, sq) + 1) * (RootFrom(n, r, sq) + 1)
    decreases n - sq
  {
    assert (r + 1) * (r + 1) == sq + 2 * r + 1;
    if sq + 2 * r + 1 <= n {
      RootFromIsRoot(n, r + 1, sq + 2 * r + 1);
    }
  }

  /** ISqrt(n) is the largest r with r * r <= n. For the non-negative ints
      Java hands to Math.sqrt the double result is correctly rounded, so the
      cast (int)Math.sqrt(n) is exactly this root. */
  lemma ISqrtIsRoot(n: nat)
    ensures ISqrt(n) * ISqrt(n) <= n < (ISqrt(n) + 1) * (ISqrt(n) + 1)
  {
    RootFromIsRoot(n, 0, 0);
  }

  /** The two inequalities of ISqrt's contract determine the root. */
  lemma ISqrtUnique(n: nat, r: nat)
    requires r * r <= n < (r + 1) * (r + 1)
    ensures r == ISqrt(n)
  {
    var s := ISqrt(n);
    ISqrtIsRoot(n);
    if r < s {
      SquareMonotone(r + 1, s);
    } else if s < r {
      SquareMonotone(s + 1, r);
    }
  }

  /** Squares of an integer and of its absolute value agree. */
  lemma AbsSquare(x: int)
    ensures Abs(x) * Abs(x) == x * x >= 0
  {
    if x < 0 {
      assert Abs(x) * Abs(x) == (-x) * (-x);
    }
  }

  /** Gradient magnitude of a pair: (int)Math.sqrt(gx * gx + gy * gy),
      over unbounded integers. */
  function Magnitude(gx: int, gy: int): nat
  {
    ISqrt(Abs(gx) * Abs(gx) + Abs(gy) * Abs(gy))
  }

  /** The magnitude is the truncated Euclidean norm of the pair. */
  lemma MagnitudeIsNorm(gx: int, gy: int)
    ensures Magnitude(gx, gy) * Magnitude(gx, gy) <= gx * gx + gy * gy
    ensures gx * gx + gy * gy < (Magnitude(gx, gy) + 1) * (Magnitude(gx, gy) + 1)
  {
    AbsSquare(gx);
    AbsSquare(gy);
    ISqrtIsRoot(gx * gx + gy * gy);
  }

  /** A magnitude is zero exactly when both gradient components are. */
  lemma MagnitudeZeroIff(gx: int, gy: int)
    ensures Magnitude(gx, gy) == 0 <==> gx == 0 && gy == 0
  {
    var x, y := Abs(gx), Abs(gy);
    var n: nat := x * x + y * y;
    ISqrtIsRoot(n);
    if x != 0 {
      SquareMonotone(1, x);
    }
    if y != 0 {
      SquareMonotone(1, y);
    }
  }

  /** Multiplying by a natural keeps an inequality. */
  lemma MulMonotone(a: int, b: int, d: nat)
    requires a <= b
    ensures a * d <= b * d
  {
    assert b * d - a * d == (b - a) * d;
  }

  lemma SquareOfSumPlusOne(x: nat, y: nat)
    ensures (x + y + 1) * (x + y + 1) > x * x + y * y
  {
    var s := x + y + 1;
    assert s * s == s * x + s * y + s;
    assert s * x == x * x + y * x + x;
    assert s * y == x * y + y * y + y;
    assert x * y >= 0 && y * x >= 0;
  }

  /** A root bounds every natural whose square is at most the radicand. */
  lemma RootDominates(n: nat, r: nat, x: nat)
    requires n < (r + 1) * (r + 1) && x * x <= n
    ensures x <= r
  {
    if r < x {
      SquareMonotone(r + 1, x);
    }
  }

  /** The truncated Euclidean norm is at least each component's absolute
      value. */
  lemma MagnitudeLowerBound(gx: int, gy: int)
    ensures Abs(gx) <= Magnitude(gx, gy) && Abs(gy) <= Magnitude(gx, gy)
  {
    var r := Magnitude(gx, gy);
    var n: nat := gx * gx + gy * gy;
    MagnitudeIsNorm(gx, gy);
    AbsSquare(gx);
    AbsSquare(gy);
    RootDominates(n, r, Abs(gx));
    RootDominates(n, r, Abs(gy));
  }

  /** Squares order their non-negative roots. */
  lemma SquareLess(r: nat, s: nat)
    requires r * r < s * s
    ensures r < s
  {
    if s <= r {
      SquareMonotone(s, r);
    }
  }

  /** The truncated Euclidean norm is at most the sum of the components'
      absolute values. */
  lemma MagnitudeUpperBound(gx: int, gy: int)
    ensures Magnitude(gx, gy) <= Abs(gx) + Abs(gy)
  {
    var x, y := Abs(gx), Abs(gy);
    var n: nat := x * x + y * y;
    var r := ISqrt(n);
    ISqrtIsRoot(n);
    SquareOfSumPlusOne(x, y);
    SquareLess(r, x + y + 1);
  }

  /** Math.min(255, magnitude) of the plain filters. */
  function Clamp(v: int): (r: int)
    ensures r <= 255 && r <= v
    ensures r == v || r == 255
  {
    if v > 255 then 255 else v
  }

  /** Floor division by d of something at most c * d is at most c. */
  lemma FloorDivAtMost(x: nat, c: nat, d: nat)
    requires d > 0 && x <= c * d
    ensures x / d <= c
  {
    var q := x / d;
    assert q * d <= x;
    if q > c {
      MulMonotone(c + 1, q, d);
    }
  }

  /** Floor division undoes multiplication. */
  lemma MulDivCancel(c: nat, d: nat)
    requires d > 0
    ensures (c * d) / d == c
  {
    var q, rem := (c * d) / d, (c * d) % d;
    assert q * d + rem == c * d;
    assert (c - q) * d == rem;
    if c - q >= 1 {
      MulMonotone(1, c - q, d);
    } else if c - q <= -1 {
      MulMonotone(c - q, -1, d);
    }
  }

  /** The second pass of the normalised filters,
      (int)(((double) v / maxGradient) * 255), in exact arithmetic: the floor
      of v * 255 / maxGradient. Both normalised filters only rescale cells
      that the first pass bounded by maxGradient. When maxGradient is 0 every
      such cell is 0 and Java computes (int)(NaN) == 0, so the cell stays 0. */
  function NormalizedCell(v: nat, maxGradient: nat): (r: nat)
    requires v <= maxGradient
    ensures r <= 255
    ensures maxGradient == 0 ==> r == v
    ensures 0 < maxGradient == v ==> r == 255
  {
    if maxGradient == 0 then 0
    else
      MulMonotone(v, maxGradient, 255);
      FloorDivAtMost(v * 255, 255, maxGradient);
      assert v == maxGradient ==> v * 255 / maxGradient == 255 by {
        if v == maxGradient { MulDivCancel(255, maxGradient); }
      }
      v * 255 / maxGradient
  }

  /** Floor division by a positive divisor is monotone. */
  lemma FloorDivMonotone(x1: nat, x2: nat, d: nat)
    requires x1 <= x2 && d > 0
    ensures x1 / d <= x2 / d
  {
    var q1, q2 := x1 / d, x2 / d;
    assert q1 * d <= x1;
    assert x2 < q2 * d + d;
    assert (q2 + 1) * d == q2 * d + d;
    if q2 < q1 {
      MulMonotone(q2 + 1, q1, d);
    }
  }

  /** Rescaling keeps the order of magnitudes. */
  lemma NormalizedCellMonotone(v1: nat, v2: nat, maxGradient: nat)
    requires v1 <= v2 <= maxGradient
    ensures NormalizedCell(v1, maxGradient) <= NormalizedCell(v2, maxGradient)
  {
    if maxGradient > 0 {
      MulMonotone(v1, v2, 255);
      FloorDivMonotone(v1 * 255, v2 * 255, maxGradient);
    }
  }
}
