/**
 * The problem-specific pieces of the supernova/metal-advection test
 * (src/MetalAdvectionProblem/test_sne.cpp): the table interpolation of
 * the vertical gravity, the fixed-potential gradient and the Strang-split
 * gravity source that keeps the internal energy, the diode boundary in z,
 * and the metallicity-gradient refinement rule.
 */
module MetalAdvectionProblem {
  import opened Numerics
  import opened GasEnergy

  /** The length of the tabulated z, phi and g arrays (GpuArray<Real, 4999>). */
  const TableSize: nat := 4999

  // ---------------------------------------------------------------------
  // linearInterpolate
  // ---------------------------------------------------------------------

  /** The first i >= start at which the scan stops: the last interval, or the first with xi <= x[i + 1]. */
  function BracketFrom(x: seq<real>, xi: real, start: nat): (i: nat)
    requires start < |x|
    ensures start <= i < |x|
    ensures i < |x| - 1 ==> xi <= x[i + 1]
    ensures start < |x| - 1 && xi <= x[|x| - 1] ==> i < |x| - 1
    ensures forall j :: start < j <= i ==> xi > x[j]
    decreases |x| - start
  {
    if start < |x| - 1 && xi > x[start + 1] then BracketFrom(x, xi, start + 1) else start
  }

  /** The straight line through (x1, y1) and (x2, y2) at xi; None where the source divides by x2 - x1 == 0. */
  function Lerp(x1: real, x2: real, y1: real, y2: real, xi: real): Option<real>
  {
    if x2 == x1 then None else Some(y1 + (y2 - y1) * (xi - x1) / (x2 - x1))
  }

  /** What linearInterpolate returns: the line over the interval where the scan stops. */
  function Interpolate(x: seq<real>, y: seq<real>, xi: real): Option<real>
    requires |x| >= 2 && |y| == |x| && xi <= x[|x| - 1]
  {
    var i := BracketFrom(x, xi, 0);
    Lerp(x[i], x[i + 1], y[i], y[i + 1], xi)
  }

  /**
   * linearInterpolate: scan for the interval, then interpolate. The source
   * reads x[i + 1] past the end when xi exceeds the last abscissa, so that
   * input is excluded.
   */
  method LinearInterpolate(x: array<real>, y: array<real>, xi: real) returns (r: Option<real>)
    requires x.Length >= 2 && y.Length == x.Length && xi <= x[x.Length - 1]
    ensures r == Interpolate(x[..], y[..], xi)
  {
    var i := 0;
    while i < x.Length - 1 && xi > x[i + 1]
      invariant 0 <= i < x.Length
      invariant BracketFrom(x[..], xi, i) == BracketFrom(x[..], xi, 0)
    {
      i := i + 1;
    }
    assert BracketFrom(x[..], xi, 0) < x.Length - 1;
    var x1 := x[i];
    var x2 := x[i + 1];
    var y1 := y[i];
    var y2 := y[i + 1];
    assert BracketFrom(x[..], xi, i) == i;
    r := Lerp(x1, x2, y1, y2, xi);
  }

  predicate StrictlyIncreasing(x: seq<real>)
  {
    forall a, b :: 0 <= a < b < |x| ==> x[a] < x[b]
  }

  /**
   * A query beyond the last abscissa of an increasing table runs the scan
   * to the last node, so the source's x[i + 1] and y[i + 1] read one past
   * the end.
   */
  lemma {:induction false} ScanPastEnd(x: seq<real>, xi: real, start: nat)
    requires start < |x| && StrictlyIncreasing(x) && xi > x[|x| - 1]
    ensures BracketFrom(x, xi, start) == |x| - 1
    decreases |x| - start
  {
    if start < |x| - 1 {
      assert xi > x[start + 1];
      ScanPastEnd(x, xi, start + 1);
    }
  }

  /** On increasing abscissae the scan stops at the least i with xi <= x[i + 1], and x[i] < xi when i > 0. */
  lemma BracketLeast(x: seq<real>, xi: real)
    requires |x| >= 2 && StrictlyIncreasing(x) && xi <= x[|x| - 1]
    ensures BracketFrom(x, xi, 0) < |x| - 1
    ensures xi <= x[BracketFrom(x, xi, 0) + 1]
    ensures BracketFrom(x, xi, 0) > 0 ==> x[BracketFrom(x, xi, 0)] < xi
  {
  }

  /** Multiplying by d and dividing by d again gives the number back. */
  lemma MulDivCancel(u: real, d: real)
    requires d != 0.0
    ensures (u * d) / d == u
  {
    var q := (u * d) / d;
    assert q * d == u * d;
    assert (q - u) * d == 0.0;
    ZeroProduct(q - u, d);
  }

  /** A product divided by d is the first factor times the second divided by d. */
  lemma MulDivAssociate(a: real, b: real, d: real)
    requires d != 0.0
    ensures (a * b) / d == a * (b / d)
  {
    var q := b / d;
    assert q * d == b;
    assert a * b == (a * q) * d;
    MulDivCancel(a * q, d);
  }

  /** The line passes through both of its nodes. */
  lemma LerpAtEnds(x1: real, x2: real, y1: real, y2: real)
    requires x1 != x2
    ensures Lerp(x1, x2, y1, y2, x1) == Some(y1)
    ensures Lerp(x1, x2, y1, y2, x2) == Some(y2)
  {
    MulDivCancel(y2 - y1, x2 - x1);
    assert (y2 - y1) * (x2 - x1) / (x2 - x1) == y2 - y1;
  }

  /** The interpolation reproduces the tabulated value at every node. */
  lemma InterpolateAtNodes(x: seq<real>, y: seq<real>, k: nat)
    requires |x| >= 2 && |y| == |x| && StrictlyIncreasing(x) && k < |x|
    ensures Interpolate(x, y, x[k]) == Some(y[k])
  {
    var i := BracketFrom(x, x[k], 0);
    BracketLeast(x, x[k]);
    if k == 0 {
      assert i == 0;
      LerpAtEnds(x[0], x[1], y[0], y[1]);
    } else {
      assert i == k - 1;
      LerpAtEnds(x[k - 1], x[k], y[k - 1], y[k]);
    }
  }

  /** y1 + (y2 - y1) t lies between y1 and y2 for t in [0, 1]. */
  lemma BetweenEnds(y1: real, y2: real, t: real)
    requires 0.0 <= t <= 1.0
    ensures Min(y1, y2) <= y1 + (y2 - y1) * t <= Max(y1, y2)
  {
    if y1 <= y2 {
      RisingBetween(y1, y2, t);
    } else {
      FallingBetween(y1, y2, t);
    }
  }

  /** The rising case: the line climbs from y1 to y2. */
  lemma RisingBetween(y1: real, y2: real, t: real)
    requires 0.0 <= t <= 1.0 && y1 <= y2
    ensures Min(y1, y2) <= y1 + (y2 - y1) * t <= Max(y1, y2)
  {
    assert Min(y1, y2) == y1 && Max(y1, y2) == y2;
    MulNonNeg(y2 - y1, t);
    MulLeft(y2 - y1, t, 1.0);
  }

  /** The falling case: the line descends from y1 to y2. */
  lemma FallingBetween(y1: real, y2: real, t: real)
    requires 0.0 <= t <= 1.0 && y2 < y1
    ensures Min(y1, y2) <= y1 + (y2 - y1) * t <= Max(y1, y2)
  {
    assert Min(y1, y2) == y2 && Max(y1, y2) == y1;
    MulNonNeg(y1 - y2, t);
    MulLeft(y1 - y2, t, 1.0);
    assert (y2 - y1) * t == -((y1 - y2) * t);
  }

  /** Between two increasing nodes the line stays between their values. */
  lemma LerpBetween(x1: real, x2: real, y1: real, y2: real, xi: real)
    requires x1 < x2 && x1 <= xi <= x2
    ensures Lerp(x1, x2, y1, y2, xi).Some?
    ensures Min(y1, y2) <= Lerp(x1, x2, y1, y2, xi).value <= Max(y1, y2)
  {
    DivCompare(xi - x1, x2 - x1, 0.0);
    DivCompare(xi - x1, x2 - x1, 1.0);
    MulDivAssociate(y2 - y1, xi - x1, x2 - x1);
    BetweenEnds(y1, y2, (xi - x1) / (x2 - x1));
  }

  /** Inside the table the interpolated value lies between the values at the bracketing nodes. */
  lemma InterpolateBounded(x: seq<real>, y: seq<real>, xi: real)
    requires |x| >= 2 && |y| == |x| && StrictlyIncreasing(x) && x[0] <= xi <= x[|x| - 1]
    ensures Interpolate(x, y, xi).Some?
    ensures var i := BracketFrom(x, xi, 0);
      Min(y[i], y[i + 1]) <= Interpolate(x, y, xi).value <= Max(y[i], y[i + 1])
  {
    var i := BracketFrom(x, xi, 0);
    BracketLeast(x, xi);
    LerpBetween(x[i], x[i + 1], y[i], y[i + 1], xi);
  }

  // ---------------------------------------------------------------------
  // The fixed potential and the Strang-split gravity source
  // ---------------------------------------------------------------------

  /**
   * GetGradFixedPotential: no horizontal pull; the vertical component is
   * the dark-matter, stellar-disc and tabulated-gas terms, given as gz.
   */
  function GradFixedPotential(pos: Vec3, gz: real -> real): (g: Vec3)
    ensures g.x == 0.0 && g.y == 0.0 && g.z == gz(pos.z)
  {
    Vec3(0.0, 0.0, gz(pos.z))
  }

  /** posvec: the centre of cell (i, j, k). */
  function CellCentre(probLo: Vec3, dx: Vec3, i: int, j: int, k: int): Vec3
  {
    Vec3(probLo.x + (i as real + 0.5) * dx.x, probLo.y + (j as real + 0.5) * dx.y, probLo.z + (k as real + 0.5) * dx.z)
  }

  /** The conserved hydro variables of one cell. */
  datatype HydroCell = HydroCell(density: real, x1Mom: real, x2Mom: real, x3Mom: real, energy: real, internalEnergy: real)

  /**
   * One cell of addStrangSplitSources: each momentum gains dt times the
   * force density -rho grad(phi), and the total energy is rebuilt from the
   * internal energy before the kick. None where the source's conversions
   * fail (rho == 0, or a non-positive internal energy).
   */
  function StrangSplitCell(c: HydroCell, gradPhi: Vec3, dt: real): Option<HydroCell>
  {
    var eint := EintFromEgas(c.density, c.x1Mom, c.x2Mom, c.x3Mom, c.energy);
    if eint.None? then None
    else
      var x1 := c.x1Mom + dt * (-c.density * gradPhi.x);
      var x2 := c.x2Mom + dt * (-c.density * gradPhi.y);
      var x3 := c.x3Mom + dt * (-c.density * gradPhi.z);
      var egas := EgasFromEint(c.density, x1, x2, x3, eint.value);
      Some(HydroCell(c.density, x1, x2, x3, egas.value, c.internalEnergy))
  }

  /**
   * The kick changes the momentum by dt times the force density, leaves
   * density unchanged, and keeps the internal energy the new total
   * energy implies equal to the old one.
   */
  lemma StrangSplitKeepsEint(c: HydroCell, gradPhi: Vec3, dt: real)
    requires StrangSplitCell(c, gradPhi, dt).Some?
    ensures var n := StrangSplitCell(c, gradPhi, dt).value;
      n.density == c.density && n.internalEnergy == c.internalEnergy
      && n.x1Mom - c.x1Mom == -dt * c.density * gradPhi.x
      && n.x2Mom - c.x2Mom == -dt * c.density * gradPhi.y
      && n.x3Mom - c.x3Mom == -dt * c.density * gradPhi.z
      && EintFromEgas(n.density, n.x1Mom, n.x2Mom, n.x3Mom, n.energy) == EintFromEgas(c.density, c.x1Mom, c.x2Mom, c.x3Mom, c.energy)
  {
    var n := StrangSplitCell(c, gradPhi, dt).value;
    var eint := EintFromEgas(c.density, c.x1Mom, c.x2Mom, c.x3Mom, c.energy).value;
    EintOfEgas(n.density, n.x1Mom, n.x2Mom, n.x3Mom, eint);
  }

  /** With the fixed potential the kick is purely vertical: the horizontal momenta are unchanged. */
  lemma FixedPotentialKickVertical(c: HydroCell, pos: Vec3, gz: real -> real, dt: real)
    requires StrangSplitCell(c, GradFixedPotential(pos, gz), dt).Some?
    ensures StrangSplitCell(c, GradFixedPotential(pos, gz), dt).value.x1Mom == c.x1Mom
    ensures StrangSplitCell(c, GradFixedPotential(pos, gz), dt).value.x2Mom == c.x2Mom
  {
  }

  /** after is before with the gravity kick applied. */
  predicate CellKicked(before: HydroCell, after: HydroCell, gradPhi: Vec3, dt: real)
  {
    StrangSplitCell(before, gradPhi, dt) == Some(after)
  }

  /** Every cell of the box admits the kick. */
  predicate StrangSplitApplies(cells: seq<HydroCell>, centres: seq<Vec3>, gz: real -> real, dt: real)
    requires |centres| == |cells|
  {
    forall c :: 0 <= c < |cells| ==> StrangSplitCell(cells[c], GradFixedPotential(centres[c], gz), dt).Some?
  }

  /**
   * addStrangSplitSources over the cells of a box (the ParallelFor as a
   * loop). It reports false at the first cell whose conversion fails,
   * where the source aborts.
   */
  method AddStrangSplitSources(state: array<HydroCell>, centres: seq<Vec3>, gz: real -> real, dt: real) returns (ok: bool)
    requires |centres| == state.Length
    modifies state
    ensures ok <==> StrangSplitApplies(old(state[..]), centres, gz, dt)
    ensures ok ==> forall c :: 0 <= c < state.Length ==> CellKicked(old(state[c]), state[c], GradFixedPotential(centres[c], gz), dt)
  {
    var c := 0;
    while c < state.Length
      invariant 0 <= c <= state.Length
      invariant forall d :: 0 <= d < c ==> CellKicked(old(state[d]), state[d], GradFixedPotential(centres[d], gz), dt)
      invariant forall d :: c <= d < state.Length ==> state[d] == old(state[d])
    {
      var kicked := StrangSplitCell(state[c], GradFixedPotential(centres[c], gz), dt);
      if kicked.None? {
        assert old(state[..])[c] == state[c];
        return false;
      }
      state[c] := kicked.value;
      c := c + 1;
    }
    ok := true;
    assert StrangSplitApplies(old(state[..]), centres, gz, dt) by {
      forall d | 0 <= d < state.Length
        ensures StrangSplitCell(old(state[..])[d], GradFixedPotential(centres[d], gz), dt).Some?
      {
        assert CellKicked(old(state[d]), state[d], GradFixedPotential(centres[d], gz), dt);
      }
    }
  }

  // ---------------------------------------------------------------------
  // The diode boundary in z
  // ---------------------------------------------------------------------

  /** The ghost cell the diode fills from the edge cell: a copy, with inflowing z-momentum reversed. */
  function DiodeGhost(edge: HydroCell, normal: int): (g: HydroCell)
  {
    var x3 := if edge.x3Mom * normal as real < 0.0 then -1.0 * edge.x3Mom else edge.x3Mom;
    edge.(x3Mom := x3)
  }

  /** The normal points out of the domain: -1 below klo, +1 above khi. */
  function DiodeEdge(k: int, klo: int, khi: int): (r: (int, int))
    requires k < klo || k > khi
    ensures r.1 == -1 || r.1 == 1
  {
    if k < klo then (klo, -1) else (khi, 1)
  }

  /**
   * The ghost never carries gas into the domain; everything but the sign
   * of the z-momentum is the edge cell's, and so is the internal energy
   * its total energy implies.
   */
  lemma DiodeOutflowOnly(edge: HydroCell, normal: int)
    requires normal == -1 || normal == 1
    ensures DiodeGhost(edge, normal).x3Mom * normal as real >= 0.0
    ensures Abs(DiodeGhost(edge, normal).x3Mom) == Abs(edge.x3Mom)
    ensures DiodeGhost(edge, normal).(x3Mom := edge.x3Mom) == edge
    ensures EintFromEgas(edge.density, edge.x1Mom, edge.x2Mom, DiodeGhost(edge, normal).x3Mom, edge.energy)
         == EintFromEgas(edge.density, edge.x1Mom, edge.x2Mom, edge.x3Mom, edge.energy)
  {
    var g := DiodeGhost(edge, normal);
    assert g.x3Mom * g.x3Mom == edge.x3Mom * edge.x3Mom;
    assert MomentumSquared(edge.x1Mom, edge.x2Mom, g.x3Mom) == MomentumSquared(edge.x1Mom, edge.x2Mom, edge.x3Mom);
  }

  /**
   * setCustomBoundaryConditions on one z-column: the ghost cell k outside
   * [klo, khi] takes DiodeGhost of the nearest edge cell. kedge and normal
   * are unset in the source for k inside the domain, so that is excluded.
   */
  method SetDiodeBoundary(column: array<HydroCell>, k: int, klo: int, khi: int)
    requires 0 <= klo <= khi < column.Length && 0 <= k < column.Length
    requires k < klo || k > khi
    modifies column
    ensures column[k] == DiodeGhost(old(column[DiodeEdge(k, klo, khi).0]), DiodeEdge(k, klo, khi).1)
    ensures forall m :: 0 <= m < column.Length && m != k ==> column[m] == old(column[m])
  {
    var kedge, normal;
    if k < klo {
      kedge := klo;
      normal := -1;
    } else {
      kedge := khi;
      normal := 1;
    }
    var edge := column[kedge];
    var x3MomEdge := edge.x3Mom;
    if x3MomEdge * normal as real < 0.0 {
      x3MomEdge := -1.0 * column[kedge].x3Mom;
    }
    column[k] := HydroCell(edge.density, edge.x1Mom, edge.x2Mom, x3MomEdge, edge.energy, edge.internalEnergy);
  }

  // ---------------------------------------------------------------------
  // ErrorEst: the metallicity-gradient refinement rule
  // ---------------------------------------------------------------------

  const ZOInit: real := 0.0086
  const ZNorm: real := 1000.0
  const EtaThreshold: real := 4.0

  /** The oxygen metallicity of a cell from its passive scalar; delMoxy is the solar mass. */
  function Metallicity(solarMass: real, pscalar: real, density: real): (z: real)
    requires density != 0.0
  {
    ZOInit + ((solarMass / ZNorm) * pscalar / density)
  }

  /** With a non-negative tracer and a positive density the metallicity is at least its initial value. */
  lemma MetallicityFloor(solarMass: real, pscalar: real, density: real)
    requires solarMass > 0.0 && pscalar >= 0.0 && density > 0.0
    ensures Metallicity(solarMass, pscalar, density) >= ZOInit > 0.0
  {
    MulNonNeg(solarMass / ZNorm, pscalar);
    DivCompare((solarMass / ZNorm) * pscalar, density, 0.0);
  }

  // The refinement rule reads the metallicity through a Stencil (a cell and its six face neighbours).

  /** grad_scal as written: the y difference takes the z-minus neighbour. */
  function GradientAsWritten(s: Stencil): real
    requires s.centre != 0.0
  {
    var dx := Abs(s.xPlus - s.xMinus) / 2.0;
    var dy := Abs(s.yPlus - s.zMinus) / 2.0;
    var dz := Abs(s.zPlus - s.zMinus) / 2.0;
    (dx + dy + dz) / s.centre
  }

  /** grad_scal with central differences along each axis. */
  function Gradient(s: Stencil): real
    requires s.centre != 0.0
  {
    var dx := Abs(s.xPlus - s.xMinus) / 2.0;
    var dy := Abs(s.yPlus - s.yMinus) / 2.0;
    var dz := Abs(s.zPlus - s.zMinus) / 2.0;
    (dx + dy + dz) / s.centre
  }

  predicate TaggedAsWritten(s: Stencil)
    requires s.centre != 0.0
  {
    GradientAsWritten(s) > EtaThreshold
  }

  /** The refinement rule: tag when the relative gradient exceeds the threshold. */
  predicate Tagged(s: Stencil)
    requires s.centre != 0.0
  {
    Gradient(s) > EtaThreshold
  }

  /**
   * A cell whose neighbours agree pairwise along each axis has no
   * gradient and is never tagged; the indicator ignores which side of an
   * axis is which.
   */
  lemma GradientCentralDifferences(s: Stencil)
    requires s.centre > 0.0
    ensures Gradient(s) >= 0.0
    ensures Gradient(s) == 0.0 <==> s.xPlus == s.xMinus && s.yPlus == s.yMinus && s.zPlus == s.zMinus
    ensures s.xPlus == s.xMinus && s.yPlus == s.yMinus && s.zPlus == s.zMinus ==> !Tagged(s)
    ensures Gradient(s.(xPlus := s.xMinus, xMinus := s.xPlus, yPlus := s.yMinus, yMinus := s.yPlus, zPlus := s.zMinus, zMinus := s.zPlus)) == Gradient(s)
  {
    var sum := Abs(s.xPlus - s.xMinus) / 2.0 + Abs(s.yPlus - s.yMinus) / 2.0 + Abs(s.zPlus - s.zMinus) / 2.0;
    DivCompare(sum, s.centre, 0.0);
    if sum / s.centre == 0.0 {
      assert sum == 0.0 * s.centre;
    }
  }

  /**
   * As written, a cell whose neighbours agree pairwise along every axis is
   * tagged: the y term compares the y-plus neighbour with the z-minus one.
   */
  lemma AsWrittenTagsUniformAxes()
    ensures var s := Stencil(1.0, 1.0, 1.0, 10.0, 10.0, 0.0, 0.0);
      TaggedAsWritten(s) && !Tagged(s)
  {
    var s := Stencil(1.0, 1.0, 1.0, 10.0, 10.0, 0.0, 0.0);
    assert GradientAsWritten(s) == 5.0;
    assert Gradient(s) == 0.0;
  }

  /**
   * ErrorEst over the cells of a box as written: tag each cell whose
   * as-written gradient (the y difference against the z-minus neighbour)
   * exceeds the threshold, leaving earlier tags.
   */
  method ErrorEst(stencils: seq<Stencil>, tags: array<bool>)
    requires tags.Length == |stencils|
    requires forall c :: 0 <= c < |stencils| ==> stencils[c].centre != 0.0
    modifies tags
    ensures forall c :: 0 <= c < tags.Length ==> tags[c] == (old(tags[c]) || TaggedAsWritten(stencils[c]))
  {
    var c := 0;
    while c < tags.Length
      invariant 0 <= c <= tags.Length
      invariant forall d :: 0 <= d < c ==> tags[d] == (old(tags[d]) || TaggedAsWritten(stencils[d]))
      invariant forall d :: c <= d < tags.Length ==> tags[d] == old(tags[d])
    {
      var s := stencils[c];
      var delX := Abs(s.xPlus - s.xMinus) / 2.0;
      var delY := Abs(s.yPlus - s.zMinus) / 2.0;
      var delZ := Abs(s.zPlus - s.zMinus) / 2.0;
      var gradScal := (delX + delY + delZ) / s.centre;
      if gradScal > EtaThreshold {
        tags[c] := true;
      }
      c := c + 1;
    }
  }

  /** ErrorEst with central differences along each axis: tag each cell Tagged selects, leaving earlier tags. */
  method ErrorEstCorrected(stencils: seq<Stencil>, tags: array<bool>)
    requires tags.Length == |stencils|
    requires forall c :: 0 <= c < |stencils| ==> stencils[c].centre != 0.0
    modifies tags
    ensures forall c :: 0 <= c < tags.Length ==> tags[c] == (old(tags[c]) || Tagged(stencils[c]))
  {
    var c := 0;
    while c < tags.Length
      invariant 0 <= c <= tags.Length
      invariant forall d :: 0 <= d < c ==> tags[d] == (old(tags[d]) || Tagged(stencils[d]))
      invariant forall d :: c <= d < tags.Length ==> tags[d] == old(tags[d])
    {
      var s := stencils[c];
      var delX := Abs(s.xPlus - s.xMinus) / 2.0;
      var delY := Abs(s.yPlus - s.yMinus) / 2.0;
      var delZ := Abs(s.zPlus - s.zMinus) / 2.0;
      var gradScal := (delX + delY + delZ) / s.centre;
      if gradScal > EtaThreshold {
        tags[c] := true;
      }
      c := c + 1;
    }
  }
}
