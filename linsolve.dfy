/**
 * The two closed-form linear solvers of the radiation subsystem
 * (src/radiation_system.hpp, SolveLinearEqs and Solve3x3matrix).
 *
 * Both divide by pivots that the source does not test. A zero pivot makes the
 * C++ result infinite or NaN; the model returns None in exactly those cases and
 * otherwise the unique solution of the system.
 */
module LinearSolvers {
  import opened Numerics

  /** Entrywise product of two vectors of the same length (valarray a * b). */
  function Times(a: seq<real>, b: seq<real>): (p: seq<real>)
    requires |b| == |a|
    ensures |p| == |a|
  {
    seq(|a|, i requires 0 <= i < |a| => a[i] * b[i])
  }

  /** Every diagonal entry a_ii is non-zero. */
  predicate DiagonalNonZero(aii: seq<real>)
  {
    forall i :: 0 <= i < |aii| ==> aii[i] != 0.0
  }

  /** The ratios a_0i / a_ii of the first row to the diagonal. */
  function Ratios(a0i: seq<real>, aii: seq<real>): (r: seq<real>)
    requires |aii| == |a0i| && DiagonalNonZero(aii)
    ensures |r| == |a0i|
  {
    seq(|a0i|, i requires 0 <= i < |a0i| => a0i[i] / aii[i])
  }

  /** sum_i (a0i / aii) v_i: the first row's weights applied to a column v. */
  function RatioSum(a0i: seq<real>, aii: seq<real>, v: seq<real>): real
    requires |aii| == |a0i| && |v| == |a0i| && DiagonalNonZero(aii)
  {
    Sum(Times(Ratios(a0i, aii), v))
  }

  /** The pivot of the first unknown after eliminating the others: a00 - sum_i a0i ai0 / aii. */
  function Pivot(a00: real, a0i: seq<real>, ai0: seq<real>, aii: seq<real>): real
    requires |ai0| == |a0i| && |aii| == |a0i| && DiagonalNonZero(aii)
  {
    -RatioSum(a0i, aii, ai0) + a00
  }

  /**
   * (x0, xi) solves the arrowhead system
   *   a00 x0 + sum_i a0i xi = y0   and   ai0 x0 + aii xi = yi for every i.
   */
  predicate ArrowSolves(a00: real, a0i: seq<real>, ai0: seq<real>, aii: seq<real>, y0: real, yi: seq<real>,
                        x0: real, xi: seq<real>)
    requires |ai0| == |a0i| && |aii| == |a0i| && |yi| == |a0i|
  {
    |xi| == |a0i|
    && a00 * x0 + Sum(Times(a0i, xi)) == y0
    && DiagonalRows(ai0, aii, yi, x0, xi)
  }

  /** Every row i > 0 of the arrowhead system holds: ai0 x0 + aii xi = yi. */
  predicate DiagonalRows(ai0: seq<real>, aii: seq<real>, yi: seq<real>, x0: real, xi: seq<real>)
    requires |aii| == |ai0| && |yi| == |ai0| && |xi| == |ai0|
  {
    forall i :: 0 <= i < |ai0| ==> ai0[i] * x0 + aii[i] * xi[i] == yi[i]
  }

  datatype ArrowSolution = ArrowSolution(x0: real, xi: seq<real>)

  /** Back substitution: xi = (yi - ai0 x0) / aii, entry by entry. */
  function BackSubstitute(ai0: seq<real>, aii: seq<real>, yi: seq<real>, x0: real): (xi: seq<real>)
    requires |aii| == |ai0| && |yi| == |ai0| && DiagonalNonZero(aii)
    ensures |xi| == |ai0| && DiagonalRows(ai0, aii, yi, x0, xi)
  {
    var xi := seq(|ai0|, i requires 0 <= i < |ai0| => (yi[i] - ai0[i] * x0) / aii[i]);
    forall i | 0 <= i < |ai0| ensures ai0[i] * x0 + aii[i] * xi[i] == yi[i] {
      DivCancel(yi[i] - ai0[i] * x0, aii[i]);
    }
    xi
  }

  /**
   * SolveLinearEqs: ratios = a0i / aii, x0 = (y0 - sum(ratios yi)) / (a00 - sum(ratios ai0)),
   * xi = (yi - ai0 x0) / aii. It returns a solution exactly when no pivot is
   * zero, and the solution it returns solves the system.
   */
  function SolveLinearEqs(a00: real, a0i: seq<real>, ai0: seq<real>, aii: seq<real>, y0: real, yi: seq<real>)
    : (r: Option<ArrowSolution>)
    requires |ai0| == |a0i| && |aii| == |a0i| && |yi| == |a0i|
    ensures r.Some? <==> DiagonalNonZero(aii) && Pivot(a00, a0i, ai0, aii) != 0.0
    ensures r.Some? ==> ArrowSolves(a00, a0i, ai0, aii, y0, yi, r.value.x0, r.value.xi)
  {
    if !DiagonalNonZero(aii) || Pivot(a00, a0i, ai0, aii) == 0.0 then None
    else
      var x0 := (-RatioSum(a0i, aii, yi) + y0) / (-RatioSum(a0i, aii, ai0) + a00);
      var xi := BackSubstitute(ai0, aii, yi, x0);
      ScaledQuotient(-RatioSum(a0i, aii, yi) + y0, Pivot(a00, a0i, ai0, aii));
      ArrowSolvedBy(a00, a0i, ai0, aii, y0, yi, x0);
      Some(ArrowSolution(x0, xi))
  }

  lemma DivCancel(p: real, d: real)
    requires d != 0.0
    ensures d * (p / d) == p
  {
  }

  lemma ScaledQuotient(q: real, p: real)
    requires p != 0.0
    ensures (q / p) * p == q
  {
  }

  /** Any x0 with x0 * Pivot == y0 - sum(ratios yi), back-substituted, solves the system. */
  lemma ArrowSolvedBy(a00: real, a0i: seq<real>, ai0: seq<real>, aii: seq<real>, y0: real, yi: seq<real>, x0: real)
    requires |ai0| == |a0i| && |aii| == |a0i| && |yi| == |a0i| && DiagonalNonZero(aii)
    requires x0 * Pivot(a00, a0i, ai0, aii) == y0 - RatioSum(a0i, aii, yi)
    ensures ArrowSolves(a00, a0i, ai0, aii, y0, yi, x0, BackSubstitute(ai0, aii, yi, x0))
  {
    var xi := BackSubstitute(ai0, aii, yi, x0);
    FirstRowSum(a0i, ai0, aii, yi, x0, xi);
    PivotEquation(a00, x0, Sum(Times(a0i, xi)), RatioSum(a0i, aii, yi), RatioSum(a0i, aii, ai0), y0);
  }

  /** The first row in terms of the two ratio sums s = sum(ratios yi) and t = sum(ratios ai0). */
  lemma PivotEquation(a00: real, x0: real, row: real, s: real, t: real, y0: real)
    requires row == s + (-x0) * t
    ensures a00 * x0 + row == y0 <==> x0 * (-t + a00) == y0 - s
  {
  }

  /** One term of the first row after back substitution: a0i xi = r yi - x (r ai0) with r = a0i / aii. */
  lemma FirstRowTerm(p: real, d: real, y: real, a: real, x: real, q: real)
    requires d != 0.0 && a * x + d * q == y
    ensures p * q == (p / d) * y + (-x) * ((p / d) * a)
  {
    var r := p / d;
    assert p == r * d;
    calc {
      p * q;
      == (r * d) * q;
      == r * (d * q);
      == r * (y - a * x);
      == r * y + (-x) * (r * a);
    }
  }

  /** For any xi satisfying the diagonal rows, sum(a0i xi) = sum(ratios yi) - x0 sum(ratios ai0). */
  lemma FirstRowSum(a0i: seq<real>, ai0: seq<real>, aii: seq<real>, yi: seq<real>, x0: real, xi: seq<real>)
    requires |ai0| == |a0i| && |aii| == |a0i| && |yi| == |a0i| && |xi| == |a0i| && DiagonalNonZero(aii)
    requires DiagonalRows(ai0, aii, yi, x0, xi)
    ensures Sum(Times(a0i, xi)) == RatioSum(a0i, aii, yi) + (-x0) * RatioSum(a0i, aii, ai0)
  {
    var ratios := Ratios(a0i, aii);
    var p, s, t := Times(a0i, xi), Times(ratios, yi), Times(ratios, ai0);
    forall i | 0 <= i < |a0i|
      ensures p[i] == s[i] + (-x0) * t[i]
    {
      FirstRowEntry(a0i, ai0, aii, yi, x0, xi, i);
    }
    SumCombination(p, s, t, -x0);
  }

  lemma FirstRowEntry(a0i: seq<real>, ai0: seq<real>, aii: seq<real>, yi: seq<real>, x0: real, xi: seq<real>, i: nat)
    requires |ai0| == |a0i| && |aii| == |a0i| && |yi| == |a0i| && |xi| == |a0i| && DiagonalNonZero(aii)
    requires i < |a0i| && DiagonalRows(ai0, aii, yi, x0, xi)
    ensures var ratios := Ratios(a0i, aii);
            Times(a0i, xi)[i] == Times(ratios, yi)[i] + (-x0) * Times(ratios, ai0)[i]
  {
    assert ai0[i] * x0 + aii[i] * xi[i] == yi[i];
    FirstRowTerm(a0i[i], aii[i], yi[i], ai0[i], x0, xi[i]);
  }

  /** Sums are linear: p = s + k t entrywise gives Sum(p) = Sum(s) + k Sum(t). */
  lemma {:induction false} SumCombination(p: seq<real>, s: seq<real>, t: seq<real>, k: real)
    requires |s| == |p| && |t| == |p|
    requires forall i :: 0 <= i < |p| ==> p[i] == s[i] + k * t[i]
    ensures Sum(p) == Sum(s) + k * Sum(t)
  {
    if |p| > 0 {
      var n := |p| - 1;
      SumCombination(p[..n], s[..n], t[..n], k);
      SumLast(p);
      SumLast(s);
      SumLast(t);
      assert p[n] == s[n] + k * t[n];
      assert k * Sum(t) == k * Sum(t[..n]) + k * t[n];
    }
  }

  /**
   * The arrowhead system has only one solution when no pivot is zero, so
   * SolveLinearEqs returns exactly the solutions there are.
   */
  lemma ArrowSolutionUnique(a00: real, a0i: seq<real>, ai0: seq<real>, aii: seq<real>, y0: real, yi: seq<real>,
                            x0: real, xi: seq<real>)
    requires |ai0| == |a0i| && |aii| == |a0i| && |yi| == |a0i|
    requires DiagonalNonZero(aii) && Pivot(a00, a0i, ai0, aii) != 0.0
    requires ArrowSolves(a00, a0i, ai0, aii, y0, yi, x0, xi)
    ensures SolveLinearEqs(a00, a0i, ai0, aii, y0, yi) == Some(ArrowSolution(x0, xi))
  {
    FirstUnknownUnique(a00, a0i, ai0, aii, y0, yi, x0, xi);
    BackSubstituteUnique(ai0, aii, yi, x0, xi);
  }

  /** The first unknown of any solution is the quotient SolveLinearEqs computes. */
  lemma FirstUnknownUnique(a00: real, a0i: seq<real>, ai0: seq<real>, aii: seq<real>, y0: real, yi: seq<real>,
                           x0: real, xi: seq<real>)
    requires |ai0| == |a0i| && |aii| == |a0i| && |yi| == |a0i|
    requires DiagonalNonZero(aii) && Pivot(a00, a0i, ai0, aii) != 0.0
    requires ArrowSolves(a00, a0i, ai0, aii, y0, yi, x0, xi)
    ensures x0 == (-RatioSum(a0i, aii, yi) + y0) / (-RatioSum(a0i, aii, ai0) + a00)
  {
    FirstRowSum(a0i, ai0, aii, yi, x0, xi);
    assert -RatioSum(a0i, aii, ai0) + a00 != 0.0;
    FirstUnknownFromRow(a00, x0, Sum(Times(a0i, xi)), RatioSum(a0i, aii, yi), RatioSum(a0i, aii, ai0), y0);
  }

  lemma FirstUnknownFromRow(a00: real, x0: real, row: real, s: real, t: real, y0: real)
    requires row == s + (-x0) * t && a00 * x0 + row == y0 && -t + a00 != 0.0
    ensures x0 == (-s + y0) / (-t + a00)
  {
    PivotEquation(a00, x0, row, s, t, y0);
    QuotientOfProduct(x0, -t + a00, -s + y0);
  }

  /** Given x0, the diagonal rows determine xi. */
  lemma BackSubstituteUnique(ai0: seq<real>, aii: seq<real>, yi: seq<real>, x0: real, xi: seq<real>)
    requires |aii| == |ai0| && |yi| == |ai0| && |xi| == |ai0| && DiagonalNonZero(aii)
    requires DiagonalRows(ai0, aii, yi, x0, xi)
    ensures BackSubstitute(ai0, aii, yi, x0) == xi
  {
    var back := BackSubstitute(ai0, aii, yi, x0);
    forall i | 0 <= i < |ai0|
      ensures back[i] == xi[i]
    {
      assert ai0[i] * x0 + aii[i] * back[i] == yi[i] && ai0[i] * x0 + aii[i] * xi[i] == yi[i];
      CancelLeft(aii[i], back[i], xi[i]);
    }
  }

  lemma QuotientOfProduct(x: real, p: real, q: real)
    requires p != 0.0 && x * p == q
    ensures q / p == x
  {
  }

  lemma CancelLeft(d: real, a: real, b: real)
    requires d != 0.0 && d * a == d * b
    ensures a == b
  {
    assert d * (a - b) == 0.0;
  }

  /** The result of Solve3x3matrix: (X0, X1, X2). */
  datatype Triple = Triple(x0: real, x1: real, x2: real)

  /** One row c0 X0 + c1 X1 + c2 X2 == y of a 3x3 system. */
  predicate RowHolds(c0: real, c1: real, c2: real, y: real, x: Triple)
  {
    c0 * x.x0 + c1 * x.x1 + c2 * x.x2 == y
  }

  /** X solves C X = Y for the 3x3 matrix C given row by row. */
  predicate Solves3(c00: real, c01: real, c02: real, c10: real, c11: real, c12: real,
                    c20: real, c21: real, c22: real, y0: real, y1: real, y2: real, x: Triple)
  {
    RowHolds(c00, c01, c02, y0, x) && RowHolds(c10, c11, c12, y1, x) && RowHolds(c20, c21, c22, y2, x)
  }

  /** The 2x2 matrix E left after eliminating X0, and a right-hand side (Z1, Z2). */
  datatype Mat2 = Mat2(e11: real, e12: real, e21: real, e22: real)
  datatype Pair = Pair(p1: real, p2: real)

  /** E_jk = C_jk - C_0k C_j0 / C00 for j, k in {1, 2}. */
  function ReduceMatrix(c00: real, c01: real, c02: real, c10: real, c11: real, c12: real,
                        c20: real, c21: real, c22: real): Mat2
    requires c00 != 0.0
  {
    Mat2(c11 - c01 * c10 / c00, c12 - c02 * c10 / c00, c21 - c01 * c20 / c00, c22 - c02 * c20 / c00)
  }

  /** Z_j = Y_j - Y0 C_j0 / C00 for j in {1, 2}. */
  function ReduceRhs(c00: real, c10: real, c20: real, y0: real, y1: real, y2: real): Pair
    requires c00 != 0.0
  {
    Pair(y1 - y0 * c10 / c00, y2 - y0 * c20 / c00)
  }

  /** The two pivots of the 2x2 elimination: E11 and E22 - E12 E21 / E11. */
  predicate Pivots2NonZero(e: Mat2)
  {
    e.e11 != 0.0 && e.e22 - e.e12 * e.e21 / e.e11 != 0.0
  }

  /** The pivots of the 3x3 elimination: C00, E11 and E22 - E12 E21 / E11. */
  predicate PivotsNonZero(c00: real, c01: real, c02: real, c10: real, c11: real, c12: real,
                          c20: real, c21: real, c22: real)
  {
    c00 != 0.0 && Pivots2NonZero(ReduceMatrix(c00, c01, c02, c10, c11, c12, c20, c21, c22))
  }

  /** (X1, X2) solves E X = Z. */
  predicate Solves2(e: Mat2, z: Pair, x1: real, x2: real)
  {
    e.e11 * x1 + e.e12 * x2 == z.p1 && e.e21 * x1 + e.e22 * x2 == z.p2
  }

  /** X2 = (Z2 - Z1 E21 / E11) / (E22 - E12 E21 / E11), then X1 = (Z1 - E12 X2) / E11. */
  function Back2(e: Mat2, z: Pair): Pair
    requires Pivots2NonZero(e)
  {
    BackSubstitute2(e.e11, e.e12, e.e21, e.e22, z.p1, z.p2)
  }

  function BackSubstitute2(e11: real, e12: real, e21: real, e22: real, z1: real, z2: real): Pair
    requires e11 != 0.0 && e22 - e12 * e21 / e11 != 0.0
  {
    var x2 := (z2 - z1 * e21 / e11) / (e22 - e12 * e21 / e11);
    Pair((z1 - e12 * x2) / e11, x2)
  }

  /**
   * Solve3x3matrix: eliminates X0 with pivot C00, then X1 with pivot E11,
   * and back-substitutes. It returns a solution exactly when every pivot is
   * non-zero, and the solution solves C X = Y.
   */
  function Solve3x3matrix(c00: real, c01: real, c02: real, c10: real, c11: real, c12: real,
                          c20: real, c21: real, c22: real, y0: real, y1: real, y2: real): (r: Option<Triple>)
    ensures r.Some? <==> PivotsNonZero(c00, c01, c02, c10, c11, c12, c20, c21, c22)
    ensures r.Some? ==> Solves3(c00, c01, c02, c10, c11, c12, c20, c21, c22, y0, y1, y2, r.value)
  {
    if !PivotsNonZero(c00, c01, c02, c10, c11, c12, c20, c21, c22) then None
    else
      EliminationSolves(c00, c01, c02, c10, c11, c12, c20, c21, c22, y0, y1, y2);
      Some(Elimination(c00, c01, c02, c10, c11, c12, c20, c21, c22, y0, y1, y2))
  }

  /** The formulas of Solve3x3matrix, for non-zero pivots. */
  function Elimination(c00: real, c01: real, c02: real, c10: real, c11: real, c12: real,
                       c20: real, c21: real, c22: real, y0: real, y1: real, y2: real): Triple
    requires PivotsNonZero(c00, c01, c02, c10, c11, c12, c20, c21, c22)
  {
    var x := Back2(ReduceMatrix(c00, c01, c02, c10, c11, c12, c20, c21, c22), ReduceRhs(c00, c10, c20, y0, y1, y2));
    Triple((y0 - c01 * x.p1 - c02 * x.p2) / c00, x.p1, x.p2)
  }

  lemma EliminationSolves(c00: real, c01: real, c02: real, c10: real, c11: real, c12: real,
                          c20: real, c21: real, c22: real, y0: real, y1: real, y2: real)
    requires PivotsNonZero(c00, c01, c02, c10, c11, c12, c20, c21, c22)
    ensures Solves3(c00, c01, c02, c10, c11, c12, c20, c21, c22, y0, y1, y2,
                    Elimination(c00, c01, c02, c10, c11, c12, c20, c21, c22, y0, y1, y2))
  {
    var e := ReduceMatrix(c00, c01, c02, c10, c11, c12, c20, c21, c22);
    var z := ReduceRhs(c00, c10, c20, y0, y1, y2);
    var x := Elimination(c00, c01, c02, c10, c11, c12, c20, c21, c22, y0, y1, y2);
    Reduced2x2(e, z, x.x1, x.x2);
    DivCancel(y0 - c01 * x.x1 - c02 * x.x2, c00);
    EliminationKeepsSolutions(c00, c01, c02, c10, c11, c12, c20, c21, c22, y0, y1, y2, x);
  }

  /** The 2x2 system has exactly one solution, the back substitution, when its pivots are non-zero. */
  lemma Reduced2x2(e: Mat2, z: Pair, x1: real, x2: real)
    requires Pivots2NonZero(e)
    ensures Solves2(e, z, x1, x2) <==> Back2(e, z) == Pair(x1, x2)
  {
    Solve2x2Scalars(e.e11, e.e12, e.e21, e.e22, z.p1, z.p2, x1, x2);
  }

  lemma Solve2x2Scalars(e11: real, e12: real, e21: real, e22: real, z1: real, z2: real, x1: real, x2: real)
    requires e11 != 0.0 && e22 - e12 * e21 / e11 != 0.0
    ensures (e11 * x1 + e12 * x2 == z1 && e21 * x1 + e22 * x2 == z2)
            <==> BackSubstitute2(e11, e12, e21, e22, z1, z2) == Pair(x1, x2)
  {
    if e11 * x1 + e12 * x2 == z1 && e21 * x1 + e22 * x2 == z2 {
      SolutionIsBackSubstitution(e11, e12, e21, e22, z1, z2, x1, x2);
    }
    BackSubstitutionSolves(e11, e12, e21, e22, z1, z2);
  }

  /** The multiplier m = E21 / E11 and the facts the 2x2 elimination uses about it. */
  lemma Multiplier(e11: real, e12: real, e21: real, z1: real, m: real)
    requires e11 != 0.0 && m == e21 / e11
    ensures e21 == m * e11 && e12 * e21 / e11 == e12 * m && z1 * e21 / e11 == z1 * m
  {
  }

  lemma SolutionIsBackSubstitution(e11: real, e12: real, e21: real, e22: real, z1: real, z2: real, x1: real, x2: real)
    requires e11 != 0.0 && e22 - e12 * e21 / e11 != 0.0
    requires e11 * x1 + e12 * x2 == z1 && e21 * x1 + e22 * x2 == z2
    ensures BackSubstitute2(e11, e12, e21, e22, z1, z2) == Pair(x1, x2)
  {
    var m := e21 / e11;
    Multiplier(e11, e12, e21, z1, m);
    var d := e22 - e12 * e21 / e11;
    // The second row minus m times the first row.
    assert e21 * x1 == m * (e11 * x1);
    assert x2 * d == z2 - z1 * e21 / e11 by {
      assert d * x2 == e22 * x2 - (e12 * m) * x2;
      assert e21 * x1 + e22 * x2 - m * (e11 * x1 + e12 * x2) == z2 - z1 * m;
    }
    QuotientOfProduct(x2, d, z2 - z1 * e21 / e11);
    QuotientOfProduct(x1, e11, z1 - e12 * x2);
    BackSubstitutionOf(e11, e12, e21, e22, z1, z2, x1, x2);
  }

  lemma BackSubstitutionOf(e11: real, e12: real, e21: real, e22: real, z1: real, z2: real, x1: real, x2: real)
    requires e11 != 0.0 && e22 - e12 * e21 / e11 != 0.0
    requires x2 == (z2 - z1 * e21 / e11) / (e22 - e12 * e21 / e11) && x1 == (z1 - e12 * x2) / e11
    ensures BackSubstitute2(e11, e12, e21, e22, z1, z2) == Pair(x1, x2)
  {
  }

  lemma BackSubstitutionSolves(e11: real, e12: real, e21: real, e22: real, z1: real, z2: real)
    requires e11 != 0.0 && e22 - e12 * e21 / e11 != 0.0
    ensures var b := BackSubstitute2(e11, e12, e21, e22, z1, z2);
            e11 * b.p1 + e12 * b.p2 == z1 && e21 * b.p1 + e22 * b.p2 == z2
  {
    var b := BackSubstitute2(e11, e12, e21, e22, z1, z2);
    var x1, x2 := b.p1, b.p2;
    var m := e21 / e11;
    Multiplier(e11, e12, e21, z1, m);
    var d := e22 - e12 * e21 / e11;
    DivCancel(z2 - z1 * e21 / e11, d);
    DivCancel(z1 - e12 * x2, e11);
    assert d * x2 == z2 - z1 * m;
    assert e11 * x1 == z1 - e12 * x2;
    assert e21 * x1 == m * (e11 * x1);
    assert e21 * x1 + e22 * x2 == m * z1 + d * x2 by {
      assert d * x2 == e22 * x2 - (e12 * m) * x2;
    }
  }

  /**
   * Eliminating X0 keeps the solutions: given row 0, rows 1 and 2 hold
   * exactly when the reduced 2x2 system holds.
   */
  lemma EliminationKeepsSolutions(c00: real, c01: real, c02: real, c10: real, c11: real, c12: real,
                                  c20: real, c21: real, c22: real, y0: real, y1: real, y2: real, x: Triple)
    requires c00 != 0.0 && RowHolds(c00, c01, c02, y0, x)
    ensures Solves3(c00, c01, c02, c10, c11, c12, c20, c21, c22, y0, y1, y2, x)
            <==> Solves2(ReduceMatrix(c00, c01, c02, c10, c11, c12, c20, c21, c22),
                         ReduceRhs(c00, c10, c20, y0, y1, y2), x.x1, x.x2)
  {
    EliminatedRow(c00, c01, c02, y0, c10, c11, c12, y1, x);
    EliminatedRow(c00, c01, c02, y0, c20, c21, c22, y2, x);
  }

  /**
   * Eliminating X0 from row k with multiplier Ck0 / C00 keeps the solutions:
   * given row 0, row k holds exactly when the eliminated row
   * E_k1 X1 + E_k2 X2 == Z_k holds.
   */
  lemma EliminatedRow(c00: real, c01: real, c02: real, y0: real, ck0: real, ck1: real, ck2: real, yk: real, x: Triple)
    requires c00 != 0.0 && RowHolds(c00, c01, c02, y0, x)
    ensures RowHolds(ck0, ck1, ck2, yk, x)
            <==> (ck1 - c01 * ck0 / c00) * x.x1 + (ck2 - c02 * ck0 / c00) * x.x2 == yk - y0 * ck0 / c00
  {
    var m := ck0 / c00;
    assert ck0 == m * c00;
    assert c01 * ck0 / c00 == c01 * m && c02 * ck0 / c00 == c02 * m && y0 * ck0 / c00 == y0 * m;
    assert ck0 * x.x0 == m * (c00 * x.x0);
    assert c00 * x.x0 == y0 - c01 * x.x1 - c02 * x.x2;
    assert ck0 * x.x0 == m * y0 - (c01 * m) * x.x1 - (c02 * m) * x.x2;
  }

  /** When every pivot is non-zero the 3x3 system has only the solution Solve3x3matrix returns. */
  lemma Solve3x3Unique(c00: real, c01: real, c02: real, c10: real, c11: real, c12: real,
                       c20: real, c21: real, c22: real, y0: real, y1: real, y2: real, x: Triple)
    requires PivotsNonZero(c00, c01, c02, c10, c11, c12, c20, c21, c22)
    requires Solves3(c00, c01, c02, c10, c11, c12, c20, c21, c22, y0, y1, y2, x)
    ensures Solve3x3matrix(c00, c01, c02, c10, c11, c12, c20, c21, c22, y0, y1, y2) == Some(x)
  {
    var e := ReduceMatrix(c00, c01, c02, c10, c11, c12, c20, c21, c22);
    var z := ReduceRhs(c00, c10, c20, y0, y1, y2);
    EliminationKeepsSolutions(c00, c01, c02, c10, c11, c12, c20, c21, c22, y0, y1, y2, x);
    Reduced2x2(e, z, x.x1, x.x2);
    assert c00 * x.x0 == y0 - c01 * x.x1 - c02 * x.x2;
    QuotientOfProduct(x.x0, c00, y0 - c01 * x.x1 - c02 * x.x2);
    var r := Elimination(c00, c01, c02, c10, c11, c12, c20, c21, c22, y0, y1, y2);
    assert r.x2 == x.x2 && r.x1 == x.x1 && r.x0 == x.x0;
  }
}
