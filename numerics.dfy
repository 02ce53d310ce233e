/**
 * Shared numeric vocabulary of the model: result wrappers, the scalar helpers
 * the C++ code takes from <cmath>/<algorithm>, sums over per-group vectors,
 * three-vectors, and the laws assumed of the square root, which Dafny's
 * reals do not provide and which is therefore passed in as a function.
 */
module Numerics {

  datatype Option<T> = None | Some(value: T)

  datatype Result<T, E> = Ok(value: T) | Err(error: E)

  function Abs(x: real): real
  {
    if x < 0.0 then -x else x
  }

  /** The usual sign function: -1, 0 or +1. */
  function Sgn(x: real): real
  {
    if x > 0.0 then 1.0 else if x < 0.0 then -1.0 else 0.0
  }

  /** std::min: returns the first argument unless the second is smaller. */
  function Min(a: real, b: real): (r: real)
    ensures r <= a && r <= b && (r == a || r == b)
  {
    if b < a then b else a
  }

  /** std::max: returns the first argument unless it is smaller than the second. */
  function Max(a: real, b: real): (r: real)
    ensures r >= a && r >= b && (r == a || r == b)
  {
    if a < b then b else a
  }

  /** std::clamp(v, lo, hi). */
  function Clamp(v: real, lo: real, hi: real): (r: real)
    requires lo <= hi
    ensures lo <= r <= hi
    ensures lo <= v <= hi ==> r == v
  {
    if v < lo then lo else if hi < v then hi else v
  }

  /** Sum of a vector, accumulated left to right like the source's loops. */
  function Sum(s: seq<real>): real
  {
    SumTo(s, |s|)
  }

  /** The sum of the first n entries, accumulated left to right. */
  function SumTo(s: seq<real>, n: nat): real
    requires n <= |s|
  {
    if n == 0 then 0.0 else SumTo(s, n - 1) + s[n - 1]
  }

  /** The sum of the first n entries depends on those entries only. */
  lemma {:induction false} SumToPrefix(s: seq<real>, t: seq<real>, n: nat)
    requires n <= |s| && n <= |t|
    requires forall i :: 0 <= i < n ==> s[i] == t[i]
    ensures SumTo(s, n) == SumTo(t, n)
  {
    if n > 0 {
      SumToPrefix(s, t, n - 1);
    }
  }

  /** A non-empty sum is the sum of all but the last entry, plus the last. */
  lemma SumLast(s: seq<real>)
    requires |s| > 0
    ensures Sum(s) == Sum(s[..|s| - 1]) + s[|s| - 1]
  {
    SumToPrefix(s, s[..|s| - 1], |s| - 1);
  }

  /** A sum accumulated one entry at a time: the step every summing loop uses. */
  lemma SumSnoc(s: seq<real>, i: nat)
    requires i < |s|
    ensures Sum(s[..i + 1]) == Sum(s[..i]) + s[i]
  {
    SumLast(s[..i + 1]);
    assert s[..i + 1][..i] == s[..i];
  }

  lemma {:induction false} SumNonNegative(s: seq<real>)
    requires forall i :: 0 <= i < |s| ==> s[i] >= 0.0
    ensures Sum(s) >= 0.0
  {
    if |s| > 0 {
      SumNonNegative(s[..|s| - 1]);
      SumLast(s);
    }
  }

  /** Summation is linear: scaling every entry scales the sum. */
  lemma {:induction false} SumScale(s: seq<real>, k: real, t: seq<real>)
    requires |t| == |s|
    requires forall i :: 0 <= i < |s| ==> t[i] == k * s[i]
    ensures Sum(t) == k * Sum(s)
  {
    if |s| > 0 {
      SumScale(s[..|s| - 1], k, t[..|t| - 1]);
      SumLast(s);
      SumLast(t);
    }
  }

  /** Summation is additive: sum of entrywise sums. */
  lemma {:induction false} SumAdd(s: seq<real>, t: seq<real>, u: seq<real>)
    requires |t| == |s| && |u| == |s|
    requires forall i :: 0 <= i < |s| ==> u[i] == s[i] + t[i]
    ensures Sum(u) == Sum(s) + Sum(t)
  {
    if |s| > 0 {
      SumAdd(s[..|s| - 1], t[..|t| - 1], u[..|u| - 1]);
      SumLast(s);
      SumLast(t);
      SumLast(u);
    }
  }

  /** Summation is additive for differences too. */
  lemma {:induction false} SumSubtract(s: seq<real>, t: seq<real>, u: seq<real>)
    requires |t| == |s| && |u| == |s|
    requires forall i :: 0 <= i < |s| ==> u[i] == s[i] - t[i]
    ensures Sum(u) == Sum(s) - Sum(t)
  {
    if |s| > 0 {
      SumSubtract(s[..|s| - 1], t[..|t| - 1], u[..|u| - 1]);
      SumLast(s);
      SumLast(t);
      SumLast(u);
    }
  }

  /** Every entry divided by m. */
  function Quotients(s: seq<real>, m: real): (r: seq<real>)
    requires m != 0.0
    ensures |r| == |s|
  {
    seq(|s|, i requires 0 <= i < |s| => s[i] / m)
  }

  /** Dividing every entry by m divides the sum by m. */
  lemma {:induction false} SumQuotients(s: seq<real>, m: real)
    requires m != 0.0
    ensures Sum(Quotients(s, m)) == Sum(s) / m
  {
    if |s| > 0 {
      var n := |s| - 1;
      assert Quotients(s, m)[..n] == Quotients(s[..n], m);
      SumQuotients(s[..n], m);
      SumLast(s);
      SumLast(Quotients(s, m));
      AddQuotients(Sum(s[..n]), s[n], m);
    }
  }

  lemma AddQuotients(x: real, y: real, m: real)
    requires m != 0.0
    ensures x / m + y / m == (x + y) / m
  {
  }

  lemma SubtractQuotients(x: real, y: real, z: real, m: real)
    requires m != 0.0 && z == x - y
    ensures z / m == x / m - y / m
  {
  }

  /** Two vectors that agree entrywise have the same sum. */
  lemma SumExt(s: seq<real>, t: seq<real>)
    requires |t| == |s|
    requires forall i :: 0 <= i < |s| ==> t[i] == s[i]
    ensures Sum(t) == Sum(s)
  {
    assert t == s;
  }

  /** A sum of zeros is zero. */
  lemma {:induction false} SumZero(s: seq<real>)
    requires forall i :: 0 <= i < |s| ==> s[i] == 0.0
    ensures Sum(s) == 0.0
  {
    if |s| > 0 {
      SumZero(s[..|s| - 1]);
      SumLast(s);
    }
  }

  /** A sum of non-negative entries is zero only if every entry is. */
  lemma {:induction false} SumZeroOnlyIfZeros(s: seq<real>)
    requires forall i :: 0 <= i < |s| ==> s[i] >= 0.0
    requires Sum(s) == 0.0
    ensures forall i :: 0 <= i < |s| ==> s[i] == 0.0
  {
    if |s| > 0 {
      SumLast(s);
      SumNonNegative(s[..|s| - 1]);
      SumZeroOnlyIfZeros(s[..|s| - 1]);
      forall i | 0 <= i < |s| ensures s[i] == 0.0 {
        if i < |s| - 1 {
          assert s[..|s| - 1][i] == s[i];
        }
      }
    }
  }

  /** The sum of the entries selected by a mask. */
  function MaskedSum(s: seq<real>, mask: seq<bool>): real
    requires |mask| == |s|
  {
    MaskedSumTo(s, mask, |s|)
  }

  /** The masked sum of the first n entries, accumulated left to right. */
  function MaskedSumTo(s: seq<real>, mask: seq<bool>, n: nat): real
    requires |mask| == |s| && n <= |s|
  {
    if n == 0 then 0.0 else MaskedSumTo(s, mask, n - 1) + (if mask[n - 1] then s[n - 1] else 0.0)
  }

  /** The masked sum of the first n entries depends on those entries and flags only. */
  lemma {:induction false} MaskedSumToPrefix(s: seq<real>, mask: seq<bool>, t: seq<real>, tmask: seq<bool>, n: nat)
    requires |mask| == |s| && |tmask| == |t| && n <= |s| && n <= |t|
    requires forall i :: 0 <= i < n ==> s[i] == t[i] && mask[i] == tmask[i]
    ensures MaskedSumTo(s, mask, n) == MaskedSumTo(t, tmask, n)
  {
    if n > 0 {
      MaskedSumToPrefix(s, mask, t, tmask, n - 1);
    }
  }

  /** A non-empty masked sum is the masked sum of all but the last entry, plus the last if selected. */
  lemma MaskedSumLast(s: seq<real>, mask: seq<bool>)
    requires |mask| == |s| && |s| > 0
    ensures MaskedSum(s, mask)
         == MaskedSum(s[..|s| - 1], mask[..|s| - 1]) + (if mask[|s| - 1] then s[|s| - 1] else 0.0)
  {
    MaskedSumToPrefix(s, mask, s[..|s| - 1], mask[..|s| - 1], |s| - 1);
  }

  lemma MaskedSumSnoc(s: seq<real>, mask: seq<bool>, i: nat)
    requires |mask| == |s| && i < |s|
    ensures MaskedSum(s[..i + 1], mask[..i + 1])
         == MaskedSum(s[..i], mask[..i]) + (if mask[i] then s[i] else 0.0)
  {
    MaskedSumLast(s[..i + 1], mask[..i + 1]);
    assert s[..i + 1][..i] == s[..i];
    assert mask[..i + 1][..i] == mask[..i];
  }

  /** Triangle inequality for masked sums. */
  lemma {:induction false} MaskedSumAbs(s: seq<real>, a: seq<real>, mask: seq<bool>)
    requires |mask| == |s| && |a| == |s|
    requires forall i :: 0 <= i < |s| ==> a[i] == Abs(s[i])
    ensures Abs(MaskedSum(s, mask)) <= MaskedSum(a, mask)
  {
    if |s| > 0 {
      MaskedSumAbs(s[..|s| - 1], a[..|s| - 1], mask[..|s| - 1]);
      MaskedSumLast(s, mask);
      MaskedSumLast(a, mask);
    }
  }

  /** With every entry selected, the masked sum is the plain sum. */
  lemma {:induction false} MaskedSumAll(s: seq<real>, mask: seq<bool>)
    requires |mask| == |s| && forall i :: 0 <= i < |s| ==> mask[i]
    ensures MaskedSum(s, mask) == Sum(s)
  {
    if |s| > 0 {
      MaskedSumAll(s[..|s| - 1], mask[..|s| - 1]);
      SumLast(s);
      MaskedSumLast(s, mask);
    }
  }

  lemma {:induction false} MaskedSumScale(s: seq<real>, k: real, t: seq<real>, mask: seq<bool>)
    requires |t| == |s| && |mask| == |s|
    requires forall i :: 0 <= i < |s| ==> t[i] == k * s[i]
    ensures MaskedSum(t, mask) == k * MaskedSum(s, mask)
  {
    if |s| > 0 {
      var n := |s| - 1;
      MaskedSumScale(s[..n], k, t[..n], mask[..n]);
      MaskedSumLast(s, mask);
      MaskedSumLast(t, mask);
      var a := MaskedSum(s[..n], mask[..n]);
      var b := if mask[n] then s[n] else 0.0;
      assert (if mask[n] then t[n] else 0.0) == k * b;
      assert MaskedSum(s, mask) == a + b;
      assert k * (a + b) == k * a + k * b;
    }
  }

  lemma {:induction false} MaskedSumAdd(s: seq<real>, t: seq<real>, u: seq<real>, mask: seq<bool>)
    requires |t| == |s| && |u| == |s| && |mask| == |s|
    requires forall i :: 0 <= i < |s| ==> u[i] == s[i] + t[i]
    ensures MaskedSum(u, mask) == MaskedSum(s, mask) + MaskedSum(t, mask)
  {
    if |s| > 0 {
      MaskedSumAdd(s[..|s| - 1], t[..|s| - 1], u[..|s| - 1], mask[..|s| - 1]);
      MaskedSumLast(s, mask);
      MaskedSumLast(t, mask);
      MaskedSumLast(u, mask);
    }
  }

  /** A cell value and its six face neighbours, as refinement criteria read them. */
  datatype Stencil = Stencil(centre: real, xPlus: real, xMinus: real, yPlus: real, yMinus: real, zPlus: real, zMinus: real)

  datatype Vec3 = Vec3(x: real, y: real, z: real)

  /** Component d (0, 1 or 2) of a three-vector. */
  function Component(v: Vec3, d: nat): real
    requires d < 3
  {
    if d == 0 then v.x else if d == 1 then v.y else v.z
  }

  function Dot(a: Vec3, b: Vec3): real
  {
    a.x * b.x + a.y * b.y + a.z * b.z
  }

  function Norm2(v: Vec3): real
  {
    Dot(v, v)
  }

  function Add(a: Vec3, b: Vec3): Vec3
  {
    Vec3(a.x + b.x, a.y + b.y, a.z + b.z)
  }

  function Scale(k: real, v: Vec3): Vec3
  {
    Vec3(k * v.x, k * v.y, k * v.z)
  }

  /** The law assumed of the square root at one argument. */
  ghost predicate SqrtHoldsAt(sqrt: real -> real, x: real)
  {
    x >= 0.0 ==> sqrt(x) >= 0.0 && sqrt(x) * sqrt(x) == x
  }

  /**
   * The laws assumed of the square-root function the model is given in
   * place of std::sqrt: on non-negative arguments it returns the
   * non-negative square root. The law is used one argument at a time,
   * through SqrtFact.
   */
  ghost predicate SqrtLaw(sqrt: real -> real)
  {
    forall x :: SqrtHoldsAt(sqrt, x)
  }

  lemma SqrtFact(sqrt: real -> real, x: real)
    requires SqrtLaw(sqrt) && x >= 0.0
    ensures sqrt(x) >= 0.0 && sqrt(x) * sqrt(x) == x
  {
    assert SqrtHoldsAt(sqrt, x);
  }

  /** A product of positive numbers is positive. */
  lemma MulPos(x: real, y: real)
    requires x > 0.0 && y > 0.0
    ensures x * y > 0.0
  {
  }

  lemma QuotientPositive(a: real, b: real)
    requires a > 0.0 && b > 0.0
    ensures a / b > 0.0
  {
    MulPos(a, 1.0 / b);
  }

  /** A product of non-zero numbers is non-zero. */
  lemma MulNonZero(x: real, y: real)
    requires x != 0.0 && y != 0.0
    ensures x * y != 0.0
  {
  }

  /** A product of non-negative numbers is non-negative. */
  lemma MulNonNeg(x: real, y: real)
    requires x >= 0.0 && y >= 0.0
    ensures x * y >= 0.0
  {
  }

  lemma SquareNonNeg(x: real)
    ensures x * x >= 0.0
  {
    if x < 0.0 {
      MulPos(-x, -x);
    }
  }

  lemma SumOfSquaresNonNeg(x: real, y: real, z: real)
    ensures x * x + y * y + z * z >= 0.0
  {
    SquareNonNeg(x);
    SquareNonNeg(y);
    SquareNonNeg(z);
  }

  /** Multiplying by a non-negative factor preserves order. */
  lemma MulLeft(k: real, a: real, b: real)
    requires k >= 0.0 && a <= b
    ensures k * a <= k * b
  {
    MulNonNeg(k, b - a);
    assert k * (b - a) == k * b - k * a;
  }

  /** Multiplying by a positive factor preserves strict order. */
  lemma MulLeftStrict(k: real, a: real, b: real)
    requires k > 0.0 && a < b
    ensures k * a < k * b
  {
    MulPos(k, b - a);
    assert k * (b - a) == k * b - k * a;
  }

  lemma SquareStrict(a: real, b: real)
    requires a > b >= 0.0
    ensures b * b < a * a
  {
    ProductStrict(a, b, a, b);
  }

  lemma ProductStrict(a: real, b: real, c: real, d: real)
    requires a > b >= 0.0 && c > d >= 0.0
    ensures b * d < a * c
  {
    MulLeftStrict(a, d, c);
    MulLeft(d, b, a);
    assert d * b == b * d && d * a == a * d;
  }

  lemma SquareLe(a: real, b: real)
    requires 0.0 <= a <= b
    ensures a * a <= b * b
  {
    MulNonNeg(a, b - a);
    MulNonNeg(b, b - a);
    assert a * (b - a) == a * b - a * a;
    assert b * (b - a) == b * b - a * b;
  }

  /** Squares of non-negative numbers compare like the numbers. */
  lemma SquareMonotone(a: real, b: real)
    requires 0.0 <= a && 0.0 <= b
    ensures a <= b <==> a * a <= b * b
  {
    if a <= b {
      SquareLe(a, b);
    } else {
      SquareStrict(a, b);
    }
  }

  /** The square root of a square of a non-negative number is that number. */
  lemma SqrtOfSquare(sqrt: real -> real, x: real)
    requires SqrtLaw(sqrt) && x >= 0.0
    ensures sqrt(x * x) == x
  {
    MulNonNeg(x, x);
    SqrtFact(sqrt, x * x);
    var s := sqrt(x * x);
    SquareMonotone(s, x);
    SquareMonotone(x, s);
  }

  /** sqrt is monotone: comparing roots is comparing arguments. */
  lemma SqrtMonotone(sqrt: real -> real, x: real, y: real)
    requires SqrtLaw(sqrt) && x >= 0.0 && y >= 0.0
    ensures sqrt(x) <= sqrt(y) <==> x <= y
  {
    SqrtFact(sqrt, x);
    SqrtFact(sqrt, y);
    SquareMonotone(sqrt(x), sqrt(y));
  }

  /** A square root is at most a bound b >= 0 exactly when its argument is at most b * b. */
  lemma SqrtAtMost(sqrt: real -> real, x: real, b: real)
    requires SqrtLaw(sqrt) && x >= 0.0 && b >= 0.0
    ensures sqrt(x) <= b <==> x <= b * b
  {
    SqrtFact(sqrt, x);
    SquareMonotone(sqrt(x), b);
  }

  /** A square root is at least b >= 0 when its argument is at least b * b. */
  lemma SqrtAtLeast(sqrt: real -> real, x: real, b: real)
    requires SqrtLaw(sqrt) && b >= 0.0 && x >= b * b
    ensures sqrt(x) >= b
  {
    MulNonNeg(b, b);
    SqrtFact(sqrt, x);
    if sqrt(x) < b {
      SquareStrict(b, sqrt(x));
    }
  }

  /** Comparing a quotient with a positive denominator against k is comparing N with k * D. */
  lemma DivCompare(n: real, d: real, k: real)
    requires d > 0.0
    ensures n / d <= k <==> n <= k * d
    ensures n / d >= k <==> n >= k * d
    ensures n / d < k <==> n < k * d
  {
    var q := n / d;
    assert q * d == n;
    if q <= k { MulLeft(d, q, k); } else { MulLeftStrict(d, k, q); }
    if q >= k { MulLeft(d, k, q); } else { MulLeftStrict(d, q, k); }
    assert d * q == q * d && d * k == k * d;
  }

  /** Algebra of quotients, stated once so that callers reason linearly. */
  lemma DivMulDiv(a: real, b: real, c: real, d: real)
    requires b != 0.0 && d != 0.0
    ensures (a / b) * (c / d) == (a * c) / (b * d)
  {
  }

  /**
   * Quotients by a product share their denominator. Stated for a product of
   * two factors: callers with a square pass the same factor twice.
   */
  lemma DivAdd3(a: real, b: real, c: real, f: real, g: real)
    requires f != 0.0 && g != 0.0
    ensures a / (f * g) + b / (f * g) + c / (f * g) == (a + b + c) / (f * g)
  {
  }

  lemma DivSelf(f: real, g: real)
    requires f != 0.0 && g != 0.0
    ensures (f * g) / (f * g) == 1.0
  {
  }

  /** A quotient of products, with 0 <= a b <= f g and f, g > 0, lies in [0, 1]. */
  lemma UnitQuotient(a: real, b: real, f: real, g: real)
    requires f > 0.0 && g > 0.0 && 0.0 <= a * b <= f * g
    ensures 0.0 <= (a * b) / (f * g) <= 1.0
  {
    MulPos(f, g);
    DivCompare(a * b, f * g, 1.0);
    DivCompare(a * b, f * g, 0.0);
  }

  /*
   * The lemmas below are stated over distinct factors and instantiated by
   * callers with repeated arguments (QuotientProduct(x, c, e, x, c, e)):
   * the solver settles such products far more reliably than squares.
   */

  lemma QuotientProduct(a: real, b1: real, b2: real, c: real, d1: real, d2: real)
    requires b1 != 0.0 && b2 != 0.0 && d1 != 0.0 && d2 != 0.0
    ensures (a / (b1 * b2)) * (c / (d1 * d2)) == (a * c) / ((b1 * b2) * (d1 * d2))
  {
  }

  lemma QuotientSquares(x: real, y: real, z: real, f1: real, f2: real, g1: real, g2: real)
    requires f1 != 0.0 && f2 != 0.0 && g1 != 0.0 && g2 != 0.0
    ensures (x * x) / ((f1 * f2) * (g1 * g2)) + (y * y) / ((f1 * f2) * (g1 * g2)) + (z * z) / ((f1 * f2) * (g1 * g2))
            == (x * x + y * y + z * z) / ((f1 * f2) * (g1 * g2))
  {
  }

  lemma DivCompareProducts(n: real, f1: real, f2: real, g1: real, g2: real, k: real)
    requires f1 > 0.0 && f2 > 0.0 && g1 > 0.0 && g2 > 0.0
    ensures n / ((f1 * f2) * (g1 * g2)) <= k <==> n <= k * ((f1 * f2) * (g1 * g2))
  {
  }

  /** Squares of non-negative numbers compare like the numbers, for a product on the right. */
  lemma SquareMonotoneProduct(s: real, f: real, g: real)
    requires s >= 0.0 && f * g >= 0.0
    ensures s <= f * g <==> s * s <= (f * g) * (f * g)
  {
    var b := f * g;
    if s <= b {
      MulNonNeg(s, b - s);
      MulNonNeg(b, b - s);
      assert s * (b - s) == s * b - s * s;
      assert b * (b - s) == b * b - b * s;
    } else {
      MulPos(s, s - b);
      MulNonNeg(b, s - b);
      assert s * (s - b) == s * s - s * b;
      assert b * (s - b) == b * s - b * b;
    }
  }

  /** A square root is at most a non-negative product exactly when its argument is at most the product squared. */
  lemma SqrtAtMostProduct(sqrt: real -> real, x: real, f: real, g: real)
    requires SqrtLaw(sqrt) && x >= 0.0 && f * g >= 0.0
    ensures sqrt(x) <= f * g <==> x <= (f * g) * (f * g)
  {
    SqrtFact(sqrt, x);
    SquareMonotoneProduct(sqrt(x), f, g);
  }

  /** The square of a number in [0, 1] is in [0, f]. */
  lemma SquareUnit(f: real)
    requires 0.0 <= f <= 1.0
    ensures 0.0 <= f * f <= f <= 1.0
  {
    MulNonNeg(f, f);
    MulLeft(f, f, 1.0);
  }

  /** With 0 <= n1 <= n2 and 0 < d2 <= d1, n1 / d1 <= n2 / d2. */
  lemma QuotientMonotone(n1: real, d1: real, n2: real, d2: real)
    requires 0.0 <= n1 <= n2 && 0.0 < d2 <= d1
    ensures n1 / d1 <= n2 / d2
  {
    var q1, q2 := n1 / d1, n2 / d2;
    assert q1 * d1 == n1 && q2 * d2 == n2;
    MulNonNeg(n1, 1.0 / d1);
    assert q1 >= 0.0;
    MulLeft(q1, d2, d1);
    assert q1 * d2 <= n2;
    DivCompare(n2, d2, q1);
  }

  /** The square root of a positive number is positive. */
  lemma SqrtPositive(sqrt: real -> real, x: real)
    requires SqrtLaw(sqrt) && x > 0.0
    ensures sqrt(x) > 0.0
  {
    SqrtFact(sqrt, x);
    var s := sqrt(x);
    assert s * s == x;
  }

  /** The quotient of C++ integer division, which truncates toward zero. */
  function TruncatedQuotient(a: int, m: int): int
    requires m > 0
  {
    if a >= 0 then a / m else -((-a) / m)
  }

  /** The remainder of C++ integer division, which truncates toward zero. */
  function TruncatedRemainder(a: int, m: int): (r: int)
    requires m > 0
    ensures a >= 0 ==> 0 <= r < m
    ensures a < 0 ==> -m < r <= 0
  {
    if a >= 0 then a % m else -((-a) % m)
  }

  /** A multiple of m leaves no remainder. */
  lemma MultipleRemainder(k: int, m: int)
    requires m > 0
    ensures (k * m) % m == 0
  {
    var x := k * m;
    var q := x / m;
    var r := x % m;
    assert x == q * m + r;
    assert r == (k - q) * m;
    if k - q >= 1 {
      assert false;
    } else if k - q <= -1 {
      assert false;
    }
  }

  /** m divides a exactly when it divides -a. */
  lemma NegatedRemainder(a: int, m: int)
    requires m > 0
    ensures (-a) % m == 0 <==> a % m == 0
  {
    if a % m == 0 {
      var q := a / m;
      assert -a == (-q) * m;
      MultipleRemainder(-q, m);
    }
    if (-a) % m == 0 {
      var p := (-a) / m;
      assert a == (-p) * m;
      MultipleRemainder(-p, m);
    }
  }

  /** The truncated remainder is zero exactly when m divides a. */
  lemma TruncatedRemainderZero(a: int, m: int)
    requires m > 0
    ensures TruncatedRemainder(a, m) == 0 <==> a % m == 0
  {
    if a < 0 {
      NegatedRemainder(a, m);
    }
  }

  /** C++ division and remainder reassemble the dividend. */
  lemma TruncatedDivision(a: int, m: int)
    requires m > 0
    ensures a == TruncatedQuotient(a, m) * m + TruncatedRemainder(a, m)
  {
    if a < 0 {
      assert -a == ((-a) / m) * m + (-a) % m;
    }
  }
}
