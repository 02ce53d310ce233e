/**
 * The HLL interface flux of the radiation subsystem
 * (src/radiation_system.hpp, ComputeFluxes).
 *
 * Faces are numbered along a row: face f separates the cells stored in rows
 * f and f + 1 of the conserved array (the cells i - 1 and i of the interface
 * at the left edge of cell i). For each face and photon group the solver reads
 * the reconstructed primitive states (E_r, f) on the two sides, falls back to
 * the conserved values of the two neighbouring cells when either reconstruction
 * is inadmissible, and forms the two-wave star flux of the frozen Eddington
 * tensor approximation, with the reduced speed of light c-hat.
 */
module Fluxes {
  import opened Numerics
  import opened Closure
  import opened RadState

  /**
   * The wave-speed correction is off, so every component of the correction
   * factor epsilon is 1.
   */
  const Epsilon: real := 1.0

  /** A reconstructed pair of sides is inadmissible: E_r <= 0 or |f| >= 1 on either side. */
  predicate NeedsDonorCell(sqrt: real -> real, pl: RadGroup, pr: RadGroup)
  {
    pl.e <= 0.0 || pr.e <= 0.0 || sqrt(Norm2(pl.f)) >= 1.0 || sqrt(Norm2(pr.f)) >= 1.0
  }

  /**
   * What the pressure computation asserts of the states it receives: when the
   * donor cells are used their energy densities are positive.
   */
  predicate FaceInputsAdmissible(sqrt: real -> real, pl: RadGroup, pr: RadGroup, ul: RadGroup, ur: RadGroup)
  {
    NeedsDonorCell(sqrt, pl, pr) ==> ul.e > 0.0 && ur.e > 0.0
  }

  /** One side of a face: its conserved group (E_r, F) and its primitive group (E_r, f). */
  datatype FaceSide = FaceSide(u: RadGroup, p: RadGroup)

  /**
   * The state of one side: the reconstruction with F = c E_r f, or, on the
   * fallback, the donor cell with f = F / (c E_r). Either way the two forms
   * agree and the energy density is positive.
   */
  function SideState(c: real, donor: bool, p: RadGroup, u: RadGroup): (s: FaceSide)
    requires c > 0.0
    requires donor ==> u.e > 0.0
    requires !donor ==> p.e > 0.0
    ensures s.u == ToConserved(c, s.p) && s.u.e > 0.0 && s.p.e == s.u.e
    ensures donor ==> s.u == u
    ensures !donor ==> s.p == p
  {
    if donor then
      PrimitiveRoundTrip(c, u);
      FaceSide(u, ToPrimitive(c, u))
    else
      FaceSide(ToConserved(c, p), p)
  }

  /** The pressure flux and signal speed of one side, before scaling. */
  function SidePressure(sqrt: real -> real, dir: Dir, s: FaceSide): (r: RadPressureResult)
    requires SqrtLaw(sqrt) && s.u.e > 0.0
    ensures |r.f| == 4 && 0.1 <= r.s <= 1.0
  {
    ComputeRadPressure(sqrt, dir, s.u.e, s.u.f, s.p.f.x, s.p.f.y, s.p.f.z)
  }

  /**
   * The physical flux of one side with the reduced speed of light: the energy
   * flux scaled by c-hat / c, the momentum fluxes by c-hat c.
   */
  function PhysicalFlux(sqrt: real -> real, c: real, chat: real, dir: Dir, s: FaceSide): (fl: RadGroup)
    requires SqrtLaw(sqrt) && c > 0.0 && s.u.e > 0.0
  {
    var r := SidePressure(sqrt, dir, s);
    RadGroup(r.f[0] * (chat / c), Vec3(r.f[1] * (chat * c), r.f[2] * (chat * c), r.f[3] * (chat * c)))
  }

  /** The signal speed of one side scaled by c-hat; it lies in [0.1 c-hat, c-hat]. */
  function SignalSpeed(sqrt: real -> real, chat: real, dir: Dir, s: FaceSide): (v: real)
    requires SqrtLaw(sqrt) && chat > 0.0 && s.u.e > 0.0
    ensures 0.1 * chat <= v <= chat
  {
    var r := SidePressure(sqrt, dir, s);
    ScaledSpeedBounds(r.s, chat);
    r.s * chat
  }

  lemma ScaledSpeedBounds(s: real, k: real)
    requires 0.1 <= s <= 1.0 && k > 0.0
    ensures 0.1 * k <= s * k <= k
  {
    MulLeft(k, 0.1, s);
    MulLeft(k, s, 1.0);
  }

  /** One component of the star flux, with wave-speed correction factor eps. */
  function StarComponent(sL: real, sR: real, fL: real, fR: real, uL: real, uR: real, eps: real): real
    requires sR - sL != 0.0
  {
    (sR / (sR - sL)) * fL - (sL / (sR - sL)) * fR + eps * (sR * sL / (sR - sL)) * (uR - uL)
  }

  /** One component of the diffusive flux: the star flux with no correction factor. */
  function DiffusiveComponent(sL: real, sR: real, fL: real, fR: real, uL: real, uR: real): real
    requires sR - sL != 0.0
  {
    (sR / (sR - sL)) * fL - (sL / (sR - sL)) * fR + (sR * sL / (sR - sL)) * (uR - uL)
  }

  /** With the correction off the star and diffusive components agree. */
  lemma StarIsDiffusive(sL: real, sR: real, fL: real, fR: real, uL: real, uR: real)
    requires sR - sL != 0.0
    ensures StarComponent(sL, sR, fL, fR, uL, uR, Epsilon) == DiffusiveComponent(sL, sR, fL, fR, uL, uR)
  {
  }

  /** With equal states and equal fluxes on both sides a component is that flux. */
  lemma StarComponentConsistent(sL: real, sR: real, fl: real, u: real, eps: real)
    requires sR - sL != 0.0
    ensures StarComponent(sL, sR, fl, fl, u, u, eps) == fl
  {
    var d := sR - sL;
    assert (sR / d) * fl - (sL / d) * fl == ((sR - sL) / d) * fl;
    assert (sR - sL) / d == 1.0;
    assert u - u == 0.0;
  }

  /** The star flux of a whole group, component by component. */
  function StarGroup(sL: real, sR: real, fL: RadGroup, fR: RadGroup, uL: RadGroup, uR: RadGroup): RadGroup
    requires sR - sL != 0.0
  {
    RadGroup(StarComponent(sL, sR, fL.e, fR.e, uL.e, uR.e, Epsilon),
             Vec3(StarComponent(sL, sR, fL.f.x, fR.f.x, uL.f.x, uR.f.x, Epsilon),
                  StarComponent(sL, sR, fL.f.y, fR.f.y, uL.f.y, uR.f.y, Epsilon),
                  StarComponent(sL, sR, fL.f.z, fR.f.z, uL.f.z, uR.f.z, Epsilon)))
  }

  /** The diffusive flux of a whole group, component by component. */
  function DiffusiveGroup(sL: real, sR: real, fL: RadGroup, fR: RadGroup, uL: RadGroup, uR: RadGroup): RadGroup
    requires sR - sL != 0.0
  {
    RadGroup(DiffusiveComponent(sL, sR, fL.e, fR.e, uL.e, uR.e),
             Vec3(DiffusiveComponent(sL, sR, fL.f.x, fR.f.x, uL.f.x, uR.f.x),
                  DiffusiveComponent(sL, sR, fL.f.y, fR.f.y, uL.f.y, uR.f.y),
                  DiffusiveComponent(sL, sR, fL.f.z, fR.f.z, uL.f.z, uR.f.z)))
  }

  /** The result for one face and group: both fluxes and the two wave speeds. */
  datatype HllFlux = HllFlux(star: RadGroup, diffusive: RadGroup, sL: real, sR: real)

  /**
   * The HLL flux of one group at one face, from the reconstructed primitive
   * groups pl, pr and the donor cells' conserved groups ul, ur. The left wave
   * moves left and the right wave moves right, both no faster than c-hat, and
   * with the wave-speed correction off the star flux is the diffusive flux.
   */
  function GroupFlux(sqrt: real -> real, c: real, chat: real, dir: Dir,
                     pl: RadGroup, pr: RadGroup, ul: RadGroup, ur: RadGroup): (h: HllFlux)
    requires SqrtLaw(sqrt) && c > 0.0 && chat > 0.0
    requires FaceInputsAdmissible(sqrt, pl, pr, ul, ur)
    ensures -chat <= h.sL <= -0.1 * chat && 0.1 * chat <= h.sR <= chat
    ensures Abs(h.sL) <= chat && Abs(h.sR) <= chat && h.sR - h.sL > 0.0
    ensures h.star == h.diffusive
  {
    var donor := NeedsDonorCell(sqrt, pl, pr);
    var left := SideState(c, donor, pl, ul);
    var right := SideState(c, donor, pr, ur);
    var sL := -SignalSpeed(sqrt, chat, dir, left);
    var sR := SignalSpeed(sqrt, chat, dir, right);
    var fL := PhysicalFlux(sqrt, c, chat, dir, left);
    var fR := PhysicalFlux(sqrt, c, chat, dir, right);
    StarIsDiffusive(sL, sR, fL.e, fR.e, left.u.e, right.u.e);
    StarIsDiffusive(sL, sR, fL.f.x, fR.f.x, left.u.f.x, right.u.f.x);
    StarIsDiffusive(sL, sR, fL.f.y, fR.f.y, left.u.f.y, right.u.f.y);
    StarIsDiffusive(sL, sR, fL.f.z, fR.f.z, left.u.f.z, right.u.f.z);
    HllFlux(StarGroup(sL, sR, fL, fR, left.u, right.u), DiffusiveGroup(sL, sR, fL, fR, left.u, right.u), sL, sR)
  }

  /**
   * The fallback is piecewise-constant reconstruction: when the reconstructed
   * sides are inadmissible, the flux is the one computed from the donor cells'
   * own primitive variables.
   */
  lemma DonorCellFallback(sqrt: real -> real, c: real, chat: real, dir: Dir,
                          pl: RadGroup, pr: RadGroup, ul: RadGroup, ur: RadGroup)
    requires SqrtLaw(sqrt) && c > 0.0 && chat > 0.0
    requires NeedsDonorCell(sqrt, pl, pr) && ul.e > 0.0 && ur.e > 0.0
    ensures FaceInputsAdmissible(sqrt, ToPrimitive(c, ul), ToPrimitive(c, ur), ul, ur)
    ensures GroupFlux(sqrt, c, chat, dir, pl, pr, ul, ur)
            == GroupFlux(sqrt, c, chat, dir, ToPrimitive(c, ul), ToPrimitive(c, ur), ul, ur)
  {
    var ql, qr := ToPrimitive(c, ul), ToPrimitive(c, ur);
    PrimitiveRoundTrip(c, ul);
    PrimitiveRoundTrip(c, ur);
    var donor := NeedsDonorCell(sqrt, ql, qr);
    assert SideState(c, donor, ql, ul) == SideState(c, true, pl, ul);
    assert SideState(c, donor, qr, ur) == SideState(c, true, pr, ur);
  }

  /** When the reconstruction is admissible the donor cells play no part. */
  lemma ReconstructionUsed(sqrt: real -> real, c: real, chat: real, dir: Dir,
                           pl: RadGroup, pr: RadGroup, ul: RadGroup, ur: RadGroup, ul': RadGroup, ur': RadGroup)
    requires SqrtLaw(sqrt) && c > 0.0 && chat > 0.0
    requires !NeedsDonorCell(sqrt, pl, pr)
    ensures FaceInputsAdmissible(sqrt, pl, pr, ul, ur) && FaceInputsAdmissible(sqrt, pl, pr, ul', ur')
    ensures GroupFlux(sqrt, c, chat, dir, pl, pr, ul, ur) == GroupFlux(sqrt, c, chat, dir, pl, pr, ul', ur')
  {
  }

  /** Identical states on the two sides give that side's physical flux. */
  lemma IdenticalStatesGivePhysicalFlux(sqrt: real -> real, c: real, chat: real, dir: Dir, p: RadGroup, u: RadGroup)
    requires SqrtLaw(sqrt) && c > 0.0 && chat > 0.0
    requires FaceInputsAdmissible(sqrt, p, p, u, u)
    ensures var s := SideState(c, NeedsDonorCell(sqrt, p, p), p, u);
            GroupFlux(sqrt, c, chat, dir, p, p, u, u).star == PhysicalFlux(sqrt, c, chat, dir, s)
  {
    var s := SideState(c, NeedsDonorCell(sqrt, p, p), p, u);
    var h := GroupFlux(sqrt, c, chat, dir, p, p, u, u);
    var fl := PhysicalFlux(sqrt, c, chat, dir, s);
    StarComponentConsistent(h.sL, h.sR, fl.e, s.u.e, Epsilon);
    StarComponentConsistent(h.sL, h.sR, fl.f.x, s.u.f.x, Epsilon);
    StarComponentConsistent(h.sL, h.sR, fl.f.y, s.u.f.y, Epsilon);
    StarComponentConsistent(h.sL, h.sR, fl.f.z, s.u.f.z, Epsilon);
  }

  /** Every group of a face meets what the pressure computation asserts. */
  predicate FaceAdmissible(sqrt: real -> real, n: nat, ls: seq<real>, rs: seq<real>, cl: seq<real>, cr: seq<real>)
    requires |ls| == 4 * n && |rs| == 4 * n && |cl| == 4 * n && |cr| == 4 * n
  {
    forall g :: 0 <= g < n ==> FaceInputsAdmissible(sqrt, GroupAt(ls, g), GroupAt(rs, g), GroupAt(cl, g), GroupAt(cr, g))
  }

  /**
   * The fluxes of every group at a face, from the reconstructed blocks ls, rs
   * of its two sides and the conserved blocks cl, cr of its two cells.
   */
  function FaceFluxes(sqrt: real -> real, c: real, chat: real, dir: Dir, n: nat,
                      ls: seq<real>, rs: seq<real>, cl: seq<real>, cr: seq<real>): (hs: seq<HllFlux>)
    requires SqrtLaw(sqrt) && c > 0.0 && chat > 0.0
    requires |ls| == 4 * n && |rs| == 4 * n && |cl| == 4 * n && |cr| == 4 * n
    requires FaceAdmissible(sqrt, n, ls, rs, cl, cr)
    ensures |hs| == n
  {
    seq(n, g requires 0 <= g < n => GroupFlux(sqrt, c, chat, dir, GroupAt(ls, g), GroupAt(rs, g), GroupAt(cl, g), GroupAt(cr, g)))
  }

  /**
   * A row of faces: face f lies between cells f and f + 1 of cs, with
   * reconstructed sides ls[f] and rs[f], and every face admissible.
   */
  predicate RowsAdmissible(sqrt: real -> real, n: nat, ls: seq<seq<real>>, rs: seq<seq<real>>, cs: seq<seq<real>>)
  {
    |rs| == |ls| && |cs| == |ls| + 1
    && (forall f :: 0 <= f < |ls| ==> |ls[f]| == 4 * n && |rs[f]| == 4 * n)
    && (forall f :: 0 <= f < |cs| ==> |cs[f]| == 4 * n)
    && forall f {:trigger ls[f]} :: 0 <= f < |ls| ==> FaceAdmissible(sqrt, n, ls[f], rs[f], cs[f], cs[f + 1])
  }

  /** The fluxes of every group at every face of a row. */
  function RowFluxes(sqrt: real -> real, c: real, chat: real, dir: Dir, n: nat,
                     ls: seq<seq<real>>, rs: seq<seq<real>>, cs: seq<seq<real>>): (all: seq<seq<HllFlux>>)
    requires SqrtLaw(sqrt) && c > 0.0 && chat > 0.0 && RowsAdmissible(sqrt, n, ls, rs, cs)
    ensures |all| == |ls|
    ensures forall f {:trigger all[f]} :: 0 <= f < |ls| ==> all[f] == FaceFluxes(sqrt, c, chat, dir, n, ls[f], rs[f], cs[f], cs[f + 1])
  {
    seq(|ls|, f requires 0 <= f < |ls| => FaceFluxes(sqrt, c, chat, dir, n, ls[f], rs[f], cs[f], cs[f + 1]))
  }

  /** Writes the two fluxes h of group g at face f, leaving every other entry alone. */
  method StoreGroupFlux(n: nat, flux: array2<real>, fluxDiffusive: array2<real>, f: nat, g: nat, h: HllFlux)
    requires flux.Length1 == 4 * n && fluxDiffusive.Length1 == 4 * n
    requires f < flux.Length0 && f < fluxDiffusive.Length0 && g < n
    requires flux != fluxDiffusive
    modifies flux, fluxDiffusive
    ensures RowGroup(flux, f, g) == h.star && RowGroup(fluxDiffusive, f, g) == h.diffusive
    ensures forall f', k :: 0 <= f' < flux.Length0 && 0 <= k < 4 * n && (f' != f || k < 4 * g || 4 * g + 4 <= k) ==>
              flux[f', k] == old(flux[f', k])
    ensures forall f', k :: 0 <= f' < fluxDiffusive.Length0 && 0 <= k < 4 * n && (f' != f || k < 4 * g || 4 * g + 4 <= k) ==>
              fluxDiffusive[f', k] == old(fluxDiffusive[f', k])
  {
    flux[f, 4 * g] := h.star.e;
    flux[f, 4 * g + 1] := h.star.f.x;
    flux[f, 4 * g + 2] := h.star.f.y;
    flux[f, 4 * g + 3] := h.star.f.z;
    fluxDiffusive[f, 4 * g] := h.diffusive.e;
    fluxDiffusive[f, 4 * g + 1] := h.diffusive.f.x;
    fluxDiffusive[f, 4 * g + 2] := h.diffusive.f.y;
    fluxDiffusive[f, 4 * g + 3] := h.diffusive.f.z;
  }

  /** The fluxes of every group at one face, computed group by group. */
  method FaceGroupFluxes(sqrt: real -> real, c: real, chat: real, dir: Dir, n: nat,
                         ls: seq<real>, rs: seq<real>, cl: seq<real>, cr: seq<real>) returns (hs: seq<HllFlux>)
    requires SqrtLaw(sqrt) && c > 0.0 && chat > 0.0
    requires |ls| == 4 * n && |rs| == 4 * n && |cl| == 4 * n && |cr| == 4 * n
    requires FaceAdmissible(sqrt, n, ls, rs, cl, cr)
    ensures hs == FaceFluxes(sqrt, c, chat, dir, n, ls, rs, cl, cr)
  {
    ghost var want := FaceFluxes(sqrt, c, chat, dir, n, ls, rs, cl, cr);
    hs := [];
    var g := 0;
    while g < n
      invariant 0 <= g <= n && hs == want[..g]
    {
      var h := GroupFlux(sqrt, c, chat, dir, GroupAt(ls, g), GroupAt(rs, g), GroupAt(cl, g), GroupAt(cr, g));
      assert want[..g + 1] == want[..g] + [h];
      hs := hs + [h];
      g := g + 1;
    }
    assert want[..n] == want;
  }

  /** Writes the fluxes hs of every group at face f, leaving the other faces alone. */
  method StoreFaceFluxes(n: nat, flux: array2<real>, fluxDiffusive: array2<real>, f: nat, hs: seq<HllFlux>)
    requires flux.Length1 == 4 * n && fluxDiffusive.Length1 == 4 * n && |hs| == n
    requires f < flux.Length0 && f < fluxDiffusive.Length0
    requires flux != fluxDiffusive
    modifies flux, fluxDiffusive
    ensures forall g :: 0 <= g < n ==> RowGroup(flux, f, g) == hs[g].star && RowGroup(fluxDiffusive, f, g) == hs[g].diffusive
    ensures forall f', k :: 0 <= f' < flux.Length0 && 0 <= k < 4 * n && f' != f ==> flux[f', k] == old(flux[f', k])
    ensures forall f', k :: 0 <= f' < fluxDiffusive.Length0 && 0 <= k < 4 * n && f' != f ==>
              fluxDiffusive[f', k] == old(fluxDiffusive[f', k])
  {
    var g := 0;
    while g < n
      invariant 0 <= g <= n
      invariant forall g' :: 0 <= g' < g ==> RowGroup(flux, f, g') == hs[g'].star && RowGroup(fluxDiffusive, f, g') == hs[g'].diffusive
      invariant forall f', k :: 0 <= f' < flux.Length0 && 0 <= k < 4 * n && f' != f ==> flux[f', k] == old(flux[f', k])
      invariant forall f', k :: 0 <= f' < fluxDiffusive.Length0 && 0 <= k < 4 * n && f' != f ==>
                  fluxDiffusive[f', k] == old(fluxDiffusive[f', k])
    {
      StoreGroupFlux(n, flux, fluxDiffusive, f, g, hs[g]);
      g := g + 1;
    }
  }

  /**
   * ComputeFluxes over a row of faces: for every face and group, the star
   * flux goes to flux and the diffusive flux to fluxDiffusive.
   */
  method ComputeFluxes(sqrt: real -> real, c: real, chat: real, dir: Dir, n: nat,
                       flux: array2<real>, fluxDiffusive: array2<real>,
                       left: array2<real>, right: array2<real>, cons: array2<real>)
    requires SqrtLaw(sqrt) && c > 0.0 && chat > 0.0
    requires left.Length1 == 4 * n && right.Length1 == 4 * n && cons.Length1 == 4 * n
    requires right.Length0 == left.Length0 && cons.Length0 == left.Length0 + 1
    requires flux.Length0 == left.Length0 && flux.Length1 == 4 * n
    requires fluxDiffusive.Length0 == left.Length0 && fluxDiffusive.Length1 == 4 * n
    requires flux != fluxDiffusive
    requires flux != left && flux != right && flux != cons
    requires fluxDiffusive != left && fluxDiffusive != right && fluxDiffusive != cons
    requires RowsAdmissible(sqrt, n, Rows(left), Rows(right), Rows(cons))
    modifies flux, fluxDiffusive
    ensures var all := RowFluxes(sqrt, c, chat, dir, n, Rows(left), Rows(right), Rows(cons));
            forall f, g {:trigger RowGroup(flux, f, g)} {:trigger RowGroup(fluxDiffusive, f, g)} :: 0 <= f < left.Length0 && 0 <= g < n ==>
              RowGroup(flux, f, g) == all[f][g].star && RowGroup(fluxDiffusive, f, g) == all[f][g].diffusive
  {
    ghost var ls, rs, cs := Rows(left), Rows(right), Rows(cons);
    ghost var all: seq<seq<HllFlux>> := RowFluxes(sqrt, c, chat, dir, n, ls, rs, cs);
    var f := 0;
    while f < left.Length0
      invariant 0 <= f <= left.Length0
      invariant forall f', g :: 0 <= f' < f && 0 <= g < n ==>
                  RowGroup(flux, f', g) == all[f'][g].star && RowGroup(fluxDiffusive, f', g) == all[f'][g].diffusive
    {
      assert Row(left, f) == ls[f] && Row(right, f) == rs[f] && Row(cons, f) == cs[f] && Row(cons, f + 1) == cs[f + 1];
      var hs := FaceGroupFluxes(sqrt, c, chat, dir, n, Row(left, f), Row(right, f), Row(cons, f), Row(cons, f + 1));
      assert hs == all[f];
      StoreFaceFluxes(n, flux, fluxDiffusive, f, hs);
      f := f + 1;
    }
    assert ls == Rows(left) && rs == Rows(right) && cs == Rows(cons);
  }
}
