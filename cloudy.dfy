/**
 * The post-read steps of the Cloudy cooling-table reader
 * (src/CloudyDataReader.cpp): the rank check and grid dimensions, the
 * table size, the conversion of the temperature axis and of the cooling
 * and heating rates to logarithms, the running minimum and maximum, and
 * the two table helpers that transpose a 2D table and copy a 1D table.
 *
 * The HDF5 reads are left out: the values they deliver are parameters.
 * CloudyDataReader.hpp is not part of this model, so CLOUDY_MAX_DIMENSION
 * and the initial T_min/T_max/mmw_min/mmw_max are parameters too, and the
 * logarithms (log10 and FastMath::log10) are given as functions.
 */
module CloudyDataReader {
  import opened Numerics

  datatype CloudyError = RankTooLarge // AMREX_ALWAYS_ASSERT on grid_rank <= CLOUDY_MAX_DIMENSION

  /** The hydrogen mass used in the cooling unit, in grams. */
  const HydrogenMass: real := 0.00000000000000000000000167

  /** CoolUnit: the conversion of Cloudy rates (erg cm^3 / s) to code units. */
  function CoolUnit(lengthUnits: real, densityUnits: real, timeUnits: real): real
    requires timeUnits != 0.0 && densityUnits != 0.0
  {
    (lengthUnits * lengthUnits * HydrogenMass * HydrogenMass) / (timeUnits * timeUnits * timeUnits * densityUnits)
  }

  /** A quotient of two products of positive factors is positive. */
  lemma ProductRatioPositive(a: real, b: real, c: real, e: real, t1: real, t2: real, t3: real, d: real)
    requires a > 0.0 && b > 0.0 && c > 0.0 && e > 0.0
    requires t1 > 0.0 && t2 > 0.0 && t3 > 0.0 && d > 0.0
    ensures (a * b * c * e) / (t1 * t2 * t3 * d) > 0.0
  {
    MulPos(a, b);
    MulPos(a * b, c);
    MulPos(a * b * c, e);
    MulPos(t1, t2);
    MulPos(t1 * t2, t3);
    MulPos(t1 * t2 * t3, d);
    DivCompare(a * b * c * e, t1 * t2 * t3 * d, 0.0);
  }

  /** With positive units the cooling unit is positive, so the floor test on rates keeps its sign. */
  lemma CoolUnitPositive(lengthUnits: real, densityUnits: real, timeUnits: real)
    requires lengthUnits > 0.0 && densityUnits > 0.0 && timeUnits > 0.0
    ensures CoolUnit(lengthUnits, densityUnits, timeUnits) > 0.0
  {
    ProductRatioPositive(lengthUnits, lengthUnits, HydrogenMass, HydrogenMass, timeUnits, timeUnits, timeUnits, densityUnits);
  }

  /**
   * The grid dimensions: CLOUDY_MAX_DIMENSION entries, zeroed, of which
   * the first grid_rank come from the file. A rank above the maximum
   * aborts.
   */
  method GridDimensions(maxDimension: nat, rank: nat, read: seq<int>) returns (r: Result<seq<int>, CloudyError>)
    requires |read| >= rank
    ensures r.Err? <==> rank > maxDimension
    ensures r.Ok? ==> |r.value| == maxDimension
    ensures r.Ok? ==> forall q :: 0 <= q < maxDimension ==> r.value[q] == (if q < rank then read[q] else 0)
  {
    var dims := seq(maxDimension, q => 0);
    if rank > maxDimension {
      return Err(RankTooLarge);
    }
    var q := 0;
    while q < rank
      invariant 0 <= q <= rank && |dims| == maxDimension
      invariant forall k :: 0 <= k < maxDimension ==> dims[k] == (if k < q then read[k] else 0)
    {
      dims := dims[q := read[q]];
      q := q + 1;
    }
    r := Ok(dims);
  }

  /** The product of a sequence of dimensions. */
  function Product(dims: seq<int>): int
  {
    if |dims| == 0 then 1 else Product(dims[..|dims| - 1]) * dims[|dims| - 1]
  }

  /** data_size: the product of the first grid_rank dimensions, accumulated factor by factor. */
  method DataSize(dims: seq<int>, rank: nat) returns (size: int)
    requires rank <= |dims|
    ensures size == Product(dims[..rank])
  {
    size := 1;
    var q := 0;
    while q < rank
      invariant 0 <= q <= rank
      invariant size == Product(dims[..q])
    {
      assert dims[..q + 1][..q] == dims[..q];
      size := size * dims[q];
      q := q + 1;
    }
  }

  /** With no negative dimension the size is zero exactly when some dimension is zero, and positive otherwise. */
  lemma {:induction false} ProductZeroIff(dims: seq<int>)
    requires forall q :: 0 <= q < |dims| ==> dims[q] >= 0
    ensures Product(dims) >= 0
    ensures Product(dims) == 0 <==> exists q :: 0 <= q < |dims| && dims[q] == 0
  {
    if |dims| > 0 {
      var front := dims[..|dims| - 1];
      ProductZeroIff(front);
      ProductStepNonNeg(Product(front), dims[|dims| - 1]);
      if Product(front) != 0 && dims[|dims| - 1] != 0 {
        ProductStepNonZero(Product(front), dims[|dims| - 1]);
        assert forall q :: 0 <= q < |dims| - 1 ==> dims[q] == front[q];
      } else if Product(front) == 0 {
        var q :| 0 <= q < |front| && front[q] == 0;
        assert dims[q] == 0;
      }
    }
  }

  lemma ProductStepNonNeg(x: int, y: int)
    requires x >= 0 && y >= 0
    ensures x * y >= 0
  {
  }

  lemma ProductStepNonZero(x: int, y: int)
    requires x > 0 && y > 0
    ensures x * y > 0
  {
  }

  /** A rank-2 table holds dims[0] * dims[1] entries: the extent of the Table2D views over the rates. */
  lemma RankTwoSize(dims: seq<int>)
    requires |dims| >= 2
    ensures Product(dims[..2]) == dims[1] * dims[0]
  {
    assert dims[..2][..1] == [dims[0]];
    assert [dims[0]][..0] == [];
    assert Product([dims[0]]) == dims[0];
    assert dims[..2][1] == dims[1];
  }

  /** The table entry a Cloudy rate becomes: the fast logarithm of the rate in code units, or the floor value when that is not positive. */
  function ConvertedRate(raw: real, coolUnit: real, fastLog10: real -> real, smallLogValue: real): real
    requires coolUnit != 0.0
  {
    var value := raw / coolUnit;
    if value > 0.0 then fastLog10(value) else smallLogValue
  }

  /** With a positive cooling unit, the floor value replaces exactly the rates that are not positive. */
  lemma ConvertedRateFloor(raw: real, coolUnit: real, fastLog10: real -> real, smallLogValue: real)
    requires coolUnit > 0.0
    ensures raw > 0.0 ==> ConvertedRate(raw, coolUnit, fastLog10, smallLogValue) == fastLog10(raw / coolUnit)
    ensures raw <= 0.0 ==> ConvertedRate(raw, coolUnit, fastLog10, smallLogValue) == smallLogValue
  {
    DivCompare(raw, coolUnit, 0.0);
  }

  /** The cooling (or heating) loop: every rate is rewritten in place by ConvertedRate. */
  method ConvertRates(rates: array<real>, coolUnit: real, fastLog10: real -> real, smallLogValue: real)
    requires coolUnit != 0.0
    modifies rates
    ensures forall q :: 0 <= q < rates.Length ==> rates[q] == ConvertedRate(old(rates[q]), coolUnit, fastLog10, smallLogValue)
  {
    var q := 0;
    while q < rates.Length
      invariant 0 <= q <= rates.Length
      invariant forall k :: 0 <= k < q ==> rates[k] == ConvertedRate(old(rates[k]), coolUnit, fastLog10, smallLogValue)
      invariant forall k :: q <= k < rates.Length ==> rates[k] == old(rates[k])
    {
      var value := rates[q] / coolUnit;
      rates[q] := if value > 0.0 then fastLog10(value) else smallLogValue;
      q := q + 1;
    }
  }

  /** The result of a running minimum: a lower bound of the start and of every value, and equal to one of them. */
  predicate IsRunningMin(m: real, start: real, values: seq<real>)
  {
    m <= start && (forall k :: 0 <= k < |values| ==> m <= values[k])
    && (m == start || exists k :: 0 <= k < |values| && m == values[k])
  }

  /** The result of a running maximum, likewise. */
  predicate IsRunningMax(m: real, start: real, values: seq<real>)
  {
    m >= start && (forall k :: 0 <= k < |values| ==> m >= values[k])
    && (m == start || exists k :: 0 <= k < |values| && m == values[k])
  }

  /** The running minimum is unique: two results of it agree. */
  lemma RunningMinUnique(m1: real, m2: real, start: real, values: seq<real>)
    requires IsRunningMin(m1, start, values) && IsRunningMin(m2, start, values)
    ensures m1 == m2
  {
    if m1 != start {
      var k :| 0 <= k < |values| && m1 == values[k];
    }
    if m2 != start {
      var k :| 0 <= k < |values| && m2 == values[k];
    }
  }

  /**
   * The temperature axis: each temperature is replaced by its logarithm
   * while T_min and T_max follow the temperatures read.
   */
  method ConvertTemperatures(temps: array<real>, log10: real -> real, tMin0: real, tMax0: real)
    returns (tMin: real, tMax: real)
    modifies temps
    ensures forall w :: 0 <= w < temps.Length ==> temps[w] == log10(old(temps[w]))
    ensures IsRunningMin(tMin, tMin0, old(temps[..]))
    ensures IsRunningMax(tMax, tMax0, old(temps[..]))
  {
    ghost var read := temps[..];
    tMin, tMax := tMin0, tMax0;
    var w := 0;
    while w < temps.Length
      invariant 0 <= w <= temps.Length
      invariant forall k :: 0 <= k < w ==> temps[k] == log10(read[k])
      invariant forall k :: w <= k < temps.Length ==> temps[k] == read[k]
      invariant IsRunningMin(tMin, tMin0, read[..w])
      invariant IsRunningMax(tMax, tMax0, read[..w])
    {
      var t := temps[w];
      temps[w] := log10(t);
      tMin := Min(t, tMin);
      tMax := Max(t, tMax);
      assert read[..w + 1][w] == t;
      assert forall k :: 0 <= k < w ==> read[..w + 1][k] == read[..w][k];
      w := w + 1;
    }
    assert read[..w] == read;
  }

  /** The mean molecular weight table: mmw_min and mmw_max follow every entry. */
  method MmwRange(mmw: seq<real>, mmwMin0: real, mmwMax0: real) returns (mmwMin: real, mmwMax: real)
    ensures IsRunningMin(mmwMin, mmwMin0, mmw)
    ensures IsRunningMax(mmwMax, mmwMax0, mmw)
  {
    mmwMin, mmwMax := mmwMin0, mmwMax0;
    var k := 0;
    while k < |mmw|
      invariant 0 <= k <= |mmw|
      invariant IsRunningMin(mmwMin, mmwMin0, mmw[..k])
      invariant IsRunningMax(mmwMax, mmwMax0, mmw[..k])
    {
      mmwMin := Min(mmw[k], mmwMin);
      mmwMax := Max(mmw[k], mmwMax);
      assert mmw[..k + 1][k] == mmw[k];
      assert forall j :: 0 <= j < k ==> mmw[..k + 1][j] == mmw[..k][j];
      k := k + 1;
    }
    assert mmw[..k] == mmw;
  }

  /** The entries of a 2D array, row by row. */
  ghost function Entries(a: array2<real>): (g: seq<seq<real>>)
    reads a
    ensures |g| == a.Length0
    ensures forall i :: 0 <= i < a.Length0 ==> |g[i]| == a.Length1
  {
    seq(a.Length0, i requires 0 <= i < a.Length0 reads a => seq(a.Length1, j requires 0 <= j < a.Length1 reads a => a[i, j]))
  }

  /** The transpose of a grid with |g| rows of cols entries each. */
  function Transpose(g: seq<seq<real>>, cols: nat): (t: seq<seq<real>>)
    requires forall i :: 0 <= i < |g| ==> |g[i]| == cols
    ensures |t| == cols
    ensures forall j :: 0 <= j < cols ==> |t[j]| == |g|
    ensures forall j, i :: 0 <= j < cols && 0 <= i < |g| ==> t[j][i] == g[i][j]
  {
    seq(cols, j requires 0 <= j < cols => seq(|g|, i requires 0 <= i < |g| => g[i][j]))
  }

  /** Transposing twice gives the grid back. */
  lemma TransposeTwice(g: seq<seq<real>>, cols: nat)
    requires forall i :: 0 <= i < |g| ==> |g[i]| == cols
    ensures Transpose(Transpose(g, cols), |g|) == g
  {
    var t := Transpose(Transpose(g, cols), |g|);
    assert forall i :: 0 <= i < |g| ==> t[i] == g[i];
  }

  /**
   * extract_2d_table. The input is a Table2D whose first index starts at
   * lo.0 and second at lo.1, with input[a, b] the entry at
   * (lo.0 + a, lo.1 + b). The output table has its index ranges swapped,
   * inclusive upper bounds one below the input's exclusive ends, and holds
   * the transpose.
   */
  method Extract2dTable(input: array2<real>, lo: (int, int)) returns (newLo: (int, int), newHi: (int, int), output: array2<real>)
    ensures newLo == (lo.1, lo.0)
    ensures newHi == (lo.1 + input.Length1 - 1, lo.0 + input.Length0 - 1)
    ensures fresh(output)
    ensures output.Length0 == newHi.0 - newLo.0 + 1 && output.Length1 == newHi.1 - newLo.1 + 1
    ensures Entries(output) == Transpose(Entries(input), input.Length1)
  {
    var hi := (lo.0 + input.Length0, lo.1 + input.Length1);
    newLo := (lo.1, lo.0);
    newHi := (hi.1 - 1, hi.0 - 1);
    output := new real[input.Length1, input.Length0];
    var i := newLo.0;
    while i <= newHi.0
      invariant newLo.0 <= i <= newHi.0 + 1
      invariant forall a, b :: 0 <= a < i - newLo.0 && 0 <= b < input.Length0 ==> output[a, b] == input[b, a]
    {
      var row := i - newLo.0;
      var j := newLo.1;
      while j <= newHi.1
        invariant newLo.1 <= j <= newHi.1 + 1
        invariant forall a, b :: 0 <= a < i - newLo.0 && 0 <= b < input.Length0 ==> output[a, b] == input[b, a]
        invariant forall b :: 0 <= b < j - newLo.1 ==> output[row, b] == input[b, row]
      {
        output[row, j - newLo.1] := input[j - newLo.1, row];
        j := j + 1;
      }
      i := i + 1;
    }
    var t := Transpose(Entries(input), input.Length1);
    assert forall a :: 0 <= a < output.Length0 ==> Entries(output)[a] == t[a];
  }

  /**
   * copy_1d_table: the output keeps the input's first index, has an
   * inclusive upper bound one below the input's exclusive end, and holds
   * the same entries.
   */
  method Copy1dTable(input: array<real>, lo: int) returns (newLo: int, newHi: int, output: array<real>)
    ensures newLo == lo && newHi == lo + input.Length - 1
    ensures fresh(output)
    ensures output[..] == input[..]
  {
    var hi := lo + input.Length;
    newLo := lo;
    newHi := hi - 1;
    output := new real[input.Length];
    var i := newLo;
    while i <= newHi
      invariant newLo <= i <= newHi + 1
      invariant forall k :: 0 <= k < i - newLo ==> output[k] == input[k]
    {
      output[i - newLo] := input[i - newLo];
      i := i + 1;
    }
  }
}
