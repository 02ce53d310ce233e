/**
 * The two explicit stages of the radiation transport update on a row of
 * cells (src/radiation_system.hpp, PredictStep and AddFluxesRK2).
 *
 * Arrays are indexed cell by radiation variable. Fluxes live on faces:
 * face i is the left face of cell i, so a row of m cells has m + 1 faces,
 * and the flux through face i enters cell i while the flux through face
 * i + 1 leaves it. Each stage forms a candidate state per cell, amends it
 * when it is not admissible, and stores it.
 */
module Hyperbolic {
  import opened Numerics
  import opened RadState

  /** Weight of the intermediate state in the second stage (IMEX_a32). */
  const IMEX_a32: real := 0.5

  /** First stage for one cell: U = U_old + (dt/dx) (F_i - F_{i+1}), variable by variable. */
  function PredictCell(u: seq<real>, fl: seq<real>, fr: seq<real>, dt: real, dx: real): (p: seq<real>)
    requires |fl| == |u| && |fr| == |u| && dx != 0.0
    ensures |p| == |u|
  {
    seq(|u|, v requires 0 <= v < |u| => u[v] + (dt / dx) * (fl[v] - fr[v]))
  }

  /**
   * Second stage for one cell: (1 - a32) U0 + a32 U1 + (0.5 - a32) times the
   * flux difference of the old fluxes + 0.5 times that of the new ones.
   */
  function CorrectCell(u0: seq<real>, u1: seq<real>, flOld: seq<real>, frOld: seq<real>,
                       fl: seq<real>, fr: seq<real>, dt: real, dx: real): (p: seq<real>)
    requires |u1| == |u0| && |flOld| == |u0| && |frOld| == |u0| && |fl| == |u0| && |fr| == |u0|
    requires dx != 0.0
    ensures |p| == |u0|
  {
    seq(|u0|, v requires 0 <= v < |u0| =>
      (1.0 - IMEX_a32) * u0[v] + IMEX_a32 * u1[v]
      + (0.5 - IMEX_a32) * ((dt / dx) * (flOld[v] - frOld[v]))
      + 0.5 * ((dt / dx) * (fl[v] - fr[v])))
  }

  /** What a stage stores: the candidate state, amended when it is not admissible. */
  function Stored(sqrt: real -> real, c: real, floor: real, u: seq<real>, n: nat): (t: seq<real>)
    requires SqrtLaw(sqrt) && |u| == 4 * n
    ensures |t| == 4 * n
  {
    if StateValid(sqrt, c, u, n) then u else AmendState(sqrt, c, floor, u, n)
  }

  /** With a positive floor a stored state is always admissible. */
  lemma StoredValid(sqrt: real -> real, c: real, floor: real, u: seq<real>, n: nat)
    requires SqrtLaw(sqrt) && c > 0.0 && floor > 0.0 && |u| == 4 * n
    ensures StateValid(sqrt, c, Stored(sqrt, c, floor, u, n), n)
  {
    if !StateValid(sqrt, c, u, n) {
      AmendStateValid(sqrt, c, floor, u, n);
    }
  }

  /** An admissible candidate is stored as it is, whatever the floor. */
  lemma StoredUnchanged(sqrt: real -> real, c: real, floor: real, u: seq<real>, n: nat)
    requires SqrtLaw(sqrt) && |u| == 4 * n && StateValid(sqrt, c, u, n)
    ensures Stored(sqrt, c, floor, u, n) == u
  {
  }

  /**
   * The second stage is the average of the old state and a forward-Euler
   * step from the intermediate state; with a32 = 1/2 the old fluxes carry
   * weight zero and do not matter.
   */
  lemma CorrectIsAverage(u0: seq<real>, u1: seq<real>, flOld: seq<real>, frOld: seq<real>,
                         fl: seq<real>, fr: seq<real>, dt: real, dx: real)
    requires |u1| == |u0| && |flOld| == |u0| && |frOld| == |u0| && |fl| == |u0| && |fr| == |u0|
    requires dx != 0.0
    ensures var p := CorrectCell(u0, u1, flOld, frOld, fl, fr, dt, dx);
            var q := PredictCell(u1, fl, fr, dt, dx);
            forall v :: 0 <= v < |u0| ==> p[v] == 0.5 * u0[v] + 0.5 * q[v]
  {
  }

  /** A state that is its own intermediate state, with balanced fluxes, is a fixed point of the second stage. */
  lemma CorrectFixedPoint(u: seq<real>, flOld: seq<real>, frOld: seq<real>, f: seq<real>, dt: real, dx: real)
    requires |flOld| == |u| && |frOld| == |u| && |f| == |u| && dx != 0.0
    ensures CorrectCell(u, u, flOld, frOld, f, f, dt, dx) == u
  {
    var p := CorrectCell(u, u, flOld, frOld, f, f, dt, dx);
    forall v | 0 <= v < |u|
      ensures p[v] == u[v]
    {
      assert f[v] - f[v] == 0.0;
    }
  }

  /** Column v of a list of cell states. */
  function Column(cells: seq<seq<real>>, v: nat): (col: seq<real>)
    requires forall i :: 0 <= i < |cells| ==> v < |cells[i]|
    ensures |col| == |cells|
  {
    seq(|cells|, i requires 0 <= i < |cells| => cells[i][v])
  }

  /** The differences of consecutive face values sum to first minus last. */
  lemma {:induction false} FaceDifferencesTelescope(f: seq<real>, m: nat)
    requires |f| == m + 1
    ensures Sum(seq(m, i requires 0 <= i < m => f[i] - f[i + 1])) == f[0] - f[m]
  {
    var d := seq(m, i requires 0 <= i < m => f[i] - f[i + 1]);
    if m > 0 {
      FaceDifferencesTelescope(f[..m], m - 1);
      SumLast(d);
      assert d[..m - 1] == seq(m - 1, i requires 0 <= i < m - 1 => f[..m][i] - f[..m][i + 1]);
    }
  }

  /** The per-cell flux differences of a row, scaled by dt/dx. */
  function FluxColumn(fs: seq<seq<real>>, v: nat, dt: real, dx: real): (d: seq<real>)
    requires |fs| >= 1 && dx != 0.0
    requires forall i :: 0 <= i < |fs| ==> v < |fs[i]|
    ensures |d| == |fs| - 1
  {
    seq(|fs| - 1, i requires 0 <= i < |fs| - 1 => (dt / dx) * (fs[i][v] - fs[i + 1][v]))
  }

  /** Summed over a row, the flux differences leave only the two boundary faces. */
  lemma FluxColumnSum(fs: seq<seq<real>>, v: nat, dt: real, dx: real)
    requires |fs| >= 1 && dx != 0.0
    requires forall i :: 0 <= i < |fs| ==> v < |fs[i]|
    ensures Sum(FluxColumn(fs, v, dt, dx)) == (dt / dx) * (fs[0][v] - fs[|fs| - 1][v])
  {
    var m := |fs| - 1;
    var f := Column(fs, v);
    var d := seq(m, i requires 0 <= i < m => f[i] - f[i + 1]);
    FaceDifferencesTelescope(f, m);
    SumScale(d, dt / dx, FluxColumn(fs, v, dt, dx));
  }

  /** A row of cells with matching faces: every cell and face has w variables. */
  predicate RowShape(cells: seq<seq<real>>, fs: seq<seq<real>>, w: nat)
  {
    |fs| == |cells| + 1
    && (forall i :: 0 <= i < |cells| ==> |cells[i]| == w)
    && (forall i :: 0 <= i < |fs| ==> |fs[i]| == w)
  }

  /** Variable v of every cell's first-stage candidate along a row. */
  function PredictColumn(us: seq<seq<real>>, fs: seq<seq<real>>, w: nat, v: nat, dt: real, dx: real): (p: seq<real>)
    requires RowShape(us, fs, w) && v < w && dx != 0.0
    ensures |p| == |us|
    ensures forall i {:trigger p[i]} :: 0 <= i < |us| ==> p[i] == PredictCell(us[i], fs[i], fs[i + 1], dt, dx)[v]
  {
    seq(|us|, i requires 0 <= i < |us| => PredictCell(us[i], fs[i], fs[i + 1], dt, dx)[v])
  }

  /** Variable v of every cell's second-stage candidate along a row. */
  function CorrectColumn(u0s: seq<seq<real>>, u1s: seq<seq<real>>, fOld: seq<seq<real>>, fs: seq<seq<real>>,
                         w: nat, v: nat, dt: real, dx: real): (p: seq<real>)
    requires RowShape(u0s, fs, w) && RowShape(u1s, fs, w) && RowShape(u0s, fOld, w) && v < w && dx != 0.0
    ensures |p| == |u0s|
    ensures forall i {:trigger p[i]} :: 0 <= i < |u0s| ==>
              p[i] == CorrectCell(u0s[i], u1s[i], fOld[i], fOld[i + 1], fs[i], fs[i + 1], dt, dx)[v]
  {
    seq(|u0s|, i requires 0 <= i < |u0s| => CorrectCell(u0s[i], u1s[i], fOld[i], fOld[i + 1], fs[i], fs[i + 1], dt, dx)[v])
  }

  /**
   * Summed over a row, the first stage changes the total of each variable
   * by the flux through the outer faces only.
   */
  lemma PredictTelescopes(us: seq<seq<real>>, fs: seq<seq<real>>, w: nat, v: nat, dt: real, dx: real)
    requires RowShape(us, fs, w) && v < w && dx != 0.0
    ensures Sum(PredictColumn(us, fs, w, v, dt, dx)) == Sum(Column(us, v)) + (dt / dx) * (fs[0][v] - fs[|us|][v])
  {
    SumAdd(Column(us, v), FluxColumn(fs, v, dt, dx), PredictColumn(us, fs, w, v, dt, dx));
    FluxColumnSum(fs, v, dt, dx);
  }

  /** The first stage over a row: every cell's forward-Euler update, stored. */
  function PredictRow(sqrt: real -> real, c: real, floor: real, n: nat,
                      olds: seq<seq<real>>, fs: seq<seq<real>>, dt: real, dx: real): (news: seq<seq<real>>)
    requires SqrtLaw(sqrt) && RowShape(olds, fs, 4 * n) && dx != 0.0
    ensures |news| == |olds|
  {
    seq(|olds|, i requires 0 <= i < |olds| => Stored(sqrt, c, floor, PredictCell(olds[i], fs[i], fs[i + 1], dt, dx), n))
  }

  /** The second stage over a row: every cell's combination, stored. */
  function CorrectRow(sqrt: real -> real, c: real, floor: real, n: nat,
                      u0s: seq<seq<real>>, u1s: seq<seq<real>>, fOld: seq<seq<real>>, fs: seq<seq<real>>,
                      dt: real, dx: real): (news: seq<seq<real>>)
    requires SqrtLaw(sqrt) && RowShape(u0s, fs, 4 * n) && RowShape(u1s, fs, 4 * n) && RowShape(u0s, fOld, 4 * n)
    requires dx != 0.0
    ensures |news| == |u0s|
  {
    seq(|u0s|, i requires 0 <= i < |u0s| =>
      Stored(sqrt, c, floor, CorrectCell(u0s[i], u1s[i], fOld[i], fOld[i + 1], fs[i], fs[i + 1], dt, dx), n))
  }

  /** With a positive floor every cell the first stage stores is admissible. */
  lemma PredictRowValid(sqrt: real -> real, c: real, floor: real, n: nat,
                        olds: seq<seq<real>>, fs: seq<seq<real>>, dt: real, dx: real)
    requires SqrtLaw(sqrt) && c > 0.0 && floor > 0.0 && RowShape(olds, fs, 4 * n) && dx != 0.0
    ensures var news := PredictRow(sqrt, c, floor, n, olds, fs, dt, dx);
            forall i :: 0 <= i < |news| ==> |news[i]| == 4 * n && StateValid(sqrt, c, news[i], n)
  {
    var news := PredictRow(sqrt, c, floor, n, olds, fs, dt, dx);
    forall i | 0 <= i < |news|
      ensures |news[i]| == 4 * n && StateValid(sqrt, c, news[i], n)
    {
      PredictRowCellValid(sqrt, c, floor, n, olds, fs, dt, dx, i);
    }
  }

  lemma PredictRowCellValid(sqrt: real -> real, c: real, floor: real, n: nat,
                            olds: seq<seq<real>>, fs: seq<seq<real>>, dt: real, dx: real, i: nat)
    requires SqrtLaw(sqrt) && c > 0.0 && floor > 0.0 && RowShape(olds, fs, 4 * n) && dx != 0.0 && i < |olds|
    ensures var cell := PredictRow(sqrt, c, floor, n, olds, fs, dt, dx)[i];
            |cell| == 4 * n && StateValid(sqrt, c, cell, n)
  {
    StoredValid(sqrt, c, floor, PredictCell(olds[i], fs[i], fs[i + 1], dt, dx), n);
  }

  /** With a positive floor every cell the second stage stores is admissible. */
  lemma CorrectRowValid(sqrt: real -> real, c: real, floor: real, n: nat,
                        u0s: seq<seq<real>>, u1s: seq<seq<real>>, fOld: seq<seq<real>>, fs: seq<seq<real>>,
                        dt: real, dx: real)
    requires SqrtLaw(sqrt) && c > 0.0 && floor > 0.0
    requires RowShape(u0s, fs, 4 * n) && RowShape(u1s, fs, 4 * n) && RowShape(u0s, fOld, 4 * n) && dx != 0.0
    ensures var news := CorrectRow(sqrt, c, floor, n, u0s, u1s, fOld, fs, dt, dx);
            forall i :: 0 <= i < |news| ==> |news[i]| == 4 * n && StateValid(sqrt, c, news[i], n)
  {
    var news := CorrectRow(sqrt, c, floor, n, u0s, u1s, fOld, fs, dt, dx);
    forall i | 0 <= i < |news|
      ensures |news[i]| == 4 * n && StateValid(sqrt, c, news[i], n)
    {
      CorrectRowCellValid(sqrt, c, floor, n, u0s, u1s, fOld, fs, dt, dx, i);
    }
  }

  lemma CorrectRowCellValid(sqrt: real -> real, c: real, floor: real, n: nat,
                            u0s: seq<seq<real>>, u1s: seq<seq<real>>, fOld: seq<seq<real>>, fs: seq<seq<real>>,
                            dt: real, dx: real, i: nat)
    requires SqrtLaw(sqrt) && c > 0.0 && floor > 0.0
    requires RowShape(u0s, fs, 4 * n) && RowShape(u1s, fs, 4 * n) && RowShape(u0s, fOld, 4 * n) && dx != 0.0
    requires i < |u0s|
    ensures var cell := CorrectRow(sqrt, c, floor, n, u0s, u1s, fOld, fs, dt, dx)[i];
            |cell| == 4 * n && StateValid(sqrt, c, cell, n)
  {
    StoredValid(sqrt, c, floor, CorrectCell(u0s[i], u1s[i], fOld[i], fOld[i + 1], fs[i], fs[i + 1], dt, dx), n);
  }

  /** A cell whose first-stage candidate is admissible is stored unamended. */
  lemma PredictRowUnamended(sqrt: real -> real, c: real, floor: real, n: nat,
                            olds: seq<seq<real>>, fs: seq<seq<real>>, dt: real, dx: real, i: nat)
    requires SqrtLaw(sqrt) && RowShape(olds, fs, 4 * n) && dx != 0.0 && i < |olds|
    requires StateValid(sqrt, c, PredictCell(olds[i], fs[i], fs[i + 1], dt, dx), n)
    ensures PredictRow(sqrt, c, floor, n, olds, fs, dt, dx)[i] == PredictCell(olds[i], fs[i], fs[i + 1], dt, dx)
  {
    StoredUnchanged(sqrt, c, floor, PredictCell(olds[i], fs[i], fs[i + 1], dt, dx), n);
  }

  /**
   * On a periodic row (the last face is the first) where no cell needed
   * amendment, the first stage conserves the total of every variable.
   */
  lemma PredictRowConserves(sqrt: real -> real, c: real, floor: real, n: nat,
                            olds: seq<seq<real>>, fs: seq<seq<real>>, v: nat, dt: real, dx: real)
    requires SqrtLaw(sqrt) && RowShape(olds, fs, 4 * n) && v < 4 * n && dx != 0.0
    requires fs[0] == fs[|olds|]
    requires forall i {:trigger PredictCell(olds[i], fs[i], fs[i + 1], dt, dx)} :: 0 <= i < |olds| ==>
               StateValid(sqrt, c, PredictCell(olds[i], fs[i], fs[i + 1], dt, dx), n)
    ensures var news := PredictRow(sqrt, c, floor, n, olds, fs, dt, dx);
            (forall i :: 0 <= i < |news| ==> v < |news[i]|)
            && Sum(Column(news, v)) == Sum(Column(olds, v))
  {
    PredictRowColumn(sqrt, c, floor, n, olds, fs, v, dt, dx);
    PeriodicPredictConserves(olds, fs, 4 * n, v, dt, dx);
  }

  /** On a periodic row the candidates' column has the total of the old column. */
  lemma PeriodicPredictConserves(us: seq<seq<real>>, fs: seq<seq<real>>, w: nat, v: nat, dt: real, dx: real)
    requires RowShape(us, fs, w) && v < w && dx != 0.0 && fs[0] == fs[|us|]
    ensures Sum(PredictColumn(us, fs, w, v, dt, dx)) == Sum(Column(us, v))
  {
    PredictTelescopes(us, fs, w, v, dt, dx);
    NoNetFlux(Sum(PredictColumn(us, fs, w, v, dt, dx)), Sum(Column(us, v)), dt / dx, fs[0][v], fs[|us|][v]);
  }

  /** A total changed only by equal fluxes through the two outer faces is unchanged. */
  lemma NoNetFlux(after: real, before: real, k: real, first: real, last: real)
    requires after == before + k * (first - last) && first == last
    ensures after == before
  {
  }

  /** When no cell needed amendment, variable v of the stored row is the candidates' column. */
  lemma PredictRowColumn(sqrt: real -> real, c: real, floor: real, n: nat,
                         olds: seq<seq<real>>, fs: seq<seq<real>>, v: nat, dt: real, dx: real)
    requires SqrtLaw(sqrt) && RowShape(olds, fs, 4 * n) && v < 4 * n && dx != 0.0
    requires forall i {:trigger PredictCell(olds[i], fs[i], fs[i + 1], dt, dx)} :: 0 <= i < |olds| ==>
               StateValid(sqrt, c, PredictCell(olds[i], fs[i], fs[i + 1], dt, dx), n)
    ensures var news := PredictRow(sqrt, c, floor, n, olds, fs, dt, dx);
            (forall i :: 0 <= i < |news| ==> v < |news[i]|)
            && Column(news, v) == PredictColumn(olds, fs, 4 * n, v, dt, dx)
  {
    var news := PredictRow(sqrt, c, floor, n, olds, fs, dt, dx);
    forall i {:trigger news[i]} | 0 <= i < |olds|
      ensures news[i] == PredictCell(olds[i], fs[i], fs[i + 1], dt, dx)
    {
      PredictRowUnamended(sqrt, c, floor, n, olds, fs, dt, dx, i);
    }
  }

  /**
   * Summed over a row, the second stage gives the mean of the two input
   * totals plus half the flux through the outer faces.
   */
  lemma CorrectTelescopes(u0s: seq<seq<real>>, u1s: seq<seq<real>>, fOld: seq<seq<real>>, fs: seq<seq<real>>,
                          w: nat, v: nat, dt: real, dx: real)
    requires RowShape(u0s, fs, w) && RowShape(u1s, fs, w) && RowShape(u0s, fOld, w)
    requires v < w && dx != 0.0
    ensures Sum(CorrectColumn(u0s, u1s, fOld, fs, w, v, dt, dx))
            == 0.5 * Sum(Column(u0s, v)) + 0.5 * (Sum(Column(u1s, v)) + (dt / dx) * (fs[0][v] - fs[|u0s|][v]))
  {
    var m := |u0s|;
    var p := CorrectColumn(u0s, u1s, fOld, fs, w, v, dt, dx);
    var q := PredictColumn(u1s, fs, w, v, dt, dx);
    var col0 := Column(u0s, v);
    var half0 := seq(m, i requires 0 <= i < m => 0.5 * col0[i]);
    var half1 := seq(m, i requires 0 <= i < m => 0.5 * q[i]);
    forall i | 0 <= i < m
      ensures p[i] == half0[i] + half1[i]
    {
      CorrectIsAverage(u0s[i], u1s[i], fOld[i], fOld[i + 1], fs[i], fs[i + 1], dt, dx);
    }
    SumAdd(half0, half1, p);
    SumScale(col0, 0.5, half0);
    SumScale(q, 0.5, half1);
    PredictTelescopes(u1s, fs, w, v, dt, dx);
  }

  /** A cell whose second-stage candidate is admissible is stored unamended. */
  lemma CorrectRowUnamended(sqrt: real -> real, c: real, floor: real, n: nat,
                            u0s: seq<seq<real>>, u1s: seq<seq<real>>, fOld: seq<seq<real>>, fs: seq<seq<real>>,
                            dt: real, dx: real, i: nat)
    requires SqrtLaw(sqrt) && RowShape(u0s, fs, 4 * n) && RowShape(u1s, fs, 4 * n) && RowShape(u0s, fOld, 4 * n)
    requires dx != 0.0 && i < |u0s|
    requires StateValid(sqrt, c, CorrectCell(u0s[i], u1s[i], fOld[i], fOld[i + 1], fs[i], fs[i + 1], dt, dx), n)
    ensures CorrectRow(sqrt, c, floor, n, u0s, u1s, fOld, fs, dt, dx)[i]
            == CorrectCell(u0s[i], u1s[i], fOld[i], fOld[i + 1], fs[i], fs[i + 1], dt, dx)
  {
    StoredUnchanged(sqrt, c, floor, CorrectCell(u0s[i], u1s[i], fOld[i], fOld[i + 1], fs[i], fs[i + 1], dt, dx), n);
  }

  /**
   * The two stages together conserve every total on a periodic row where no
   * cell needed amendment: the intermediate totals equal the old ones, and the
   * second stage then returns the old totals.
   */
  lemma CorrectRowConserves(sqrt: real -> real, c: real, floor: real, n: nat,
                            u0s: seq<seq<real>>, u1s: seq<seq<real>>, fOld: seq<seq<real>>, fs: seq<seq<real>>,
                            v: nat, dt: real, dx: real)
    requires SqrtLaw(sqrt) && RowShape(u0s, fs, 4 * n) && RowShape(u1s, fs, 4 * n) && RowShape(u0s, fOld, 4 * n)
    requires v < 4 * n && dx != 0.0 && fs[0] == fs[|u0s|]
    requires Sum(Column(u1s, v)) == Sum(Column(u0s, v))
    requires forall i {:trigger CorrectCell(u0s[i], u1s[i], fOld[i], fOld[i + 1], fs[i], fs[i + 1], dt, dx)} :: 0 <= i < |u0s| ==>
               StateValid(sqrt, c, CorrectCell(u0s[i], u1s[i], fOld[i], fOld[i + 1], fs[i], fs[i + 1], dt, dx), n)
    ensures var news := CorrectRow(sqrt, c, floor, n, u0s, u1s, fOld, fs, dt, dx);
            (forall i :: 0 <= i < |news| ==> v < |news[i]|)
            && Sum(Column(news, v)) == Sum(Column(u0s, v))
  {
    CorrectRowColumn(sqrt, c, floor, n, u0s, u1s, fOld, fs, v, dt, dx);
    CorrectTelescopes(u0s, u1s, fOld, fs, 4 * n, v, dt, dx);
    var k, d := dt / dx, fs[0][v] - fs[|u0s|][v];
    assert d == 0.0;
    assert k * d == 0.0;
  }

  /** When no cell needed amendment, variable v of the stored row is the candidates' column. */
  lemma CorrectRowColumn(sqrt: real -> real, c: real, floor: real, n: nat,
                         u0s: seq<seq<real>>, u1s: seq<seq<real>>, fOld: seq<seq<real>>, fs: seq<seq<real>>,
                         v: nat, dt: real, dx: real)
    requires SqrtLaw(sqrt) && RowShape(u0s, fs, 4 * n) && RowShape(u1s, fs, 4 * n) && RowShape(u0s, fOld, 4 * n)
    requires v < 4 * n && dx != 0.0
    requires forall i {:trigger CorrectCell(u0s[i], u1s[i], fOld[i], fOld[i + 1], fs[i], fs[i + 1], dt, dx)} :: 0 <= i < |u0s| ==>
               StateValid(sqrt, c, CorrectCell(u0s[i], u1s[i], fOld[i], fOld[i + 1], fs[i], fs[i + 1], dt, dx), n)
    ensures var news := CorrectRow(sqrt, c, floor, n, u0s, u1s, fOld, fs, dt, dx);
            (forall i :: 0 <= i < |news| ==> v < |news[i]|)
            && Column(news, v) == CorrectColumn(u0s, u1s, fOld, fs, 4 * n, v, dt, dx)
  {
    var news := CorrectRow(sqrt, c, floor, n, u0s, u1s, fOld, fs, dt, dx);
    forall i {:trigger news[i]} | 0 <= i < |u0s|
      ensures news[i] == CorrectCell(u0s[i], u1s[i], fOld[i], fOld[i + 1], fs[i], fs[i + 1], dt, dx)
    {
      CorrectRowUnamended(sqrt, c, floor, n, u0s, u1s, fOld, fs, dt, dx, i);
    }
  }

  /** Amends a candidate state in place when it is not admissible. */
  method MakeAdmissible(sqrt: real -> real, c: real, floor: real, n: nat, cons: array<real>)
    requires SqrtLaw(sqrt) && c > 0.0 && cons.Length == 4 * n
    modifies cons
    ensures cons[..] == Stored(sqrt, c, floor, old(cons[..]), n)
  {
    var valid := IsStateValid(sqrt, c, cons, n);
    if !valid {
      AmendRadState(sqrt, c, floor, cons, n);
    }
  }

  /** Copies a cell state into row i of the output, leaving the other rows alone. */
  method CopyRow(cons: array<real>, out: array2<real>, i: nat)
    requires cons.Length == out.Length1 && i < out.Length0
    modifies out
    ensures forall w :: 0 <= w < out.Length1 ==> out[i, w] == cons[w]
    ensures forall i', w :: 0 <= i' < out.Length0 && i' != i && 0 <= w < out.Length1 ==> out[i', w] == old(out[i', w])
  {
    var v := 0;
    while v < cons.Length
      invariant 0 <= v <= cons.Length
      invariant forall w :: 0 <= w < v ==> out[i, w] == cons[w]
      invariant forall i', w :: 0 <= i' < out.Length0 && i' != i && 0 <= w < out.Length1 ==> out[i', w] == old(out[i', w])
    {
      out[i, v] := cons[v];
      v := v + 1;
    }
  }

  /** An array whose entries match a list of rows has those rows. */
  lemma RowsFromEntries(a: array2<real>, target: seq<seq<real>>)
    requires |target| == a.Length0 && forall i :: 0 <= i < a.Length0 ==> |target[i]| == a.Length1
    requires forall i, v :: 0 <= i < a.Length0 && 0 <= v < a.Length1 ==> a[i, v] == target[i][v]
    ensures Rows(a) == target
  {
    forall i | 0 <= i < a.Length0
      ensures Rows(a)[i] == target[i]
    {
      assert Row(a, i) == target[i];
    }
  }

  /** The first-stage candidate state of cell i, in a fresh buffer. */
  method PredictInto(consOld: array2<real>, flux: array2<real>, i: nat, dt: real, dx: real) returns (cons: array<real>)
    requires i < consOld.Length0 && flux.Length0 == consOld.Length0 + 1 && flux.Length1 == consOld.Length1
    requires dx > 0.0
    ensures fresh(cons)
    ensures cons[..] == PredictCell(Row(consOld, i), Row(flux, i), Row(flux, i + 1), dt, dx)
  {
    cons := new real[consOld.Length1];
    var v := 0;
    while v < consOld.Length1
      invariant 0 <= v <= consOld.Length1
      invariant forall w :: 0 <= w < v ==> cons[w] == consOld[i, w] + (dt / dx) * (flux[i, w] - flux[i + 1, w])
    {
      cons[v] := consOld[i, v] + (dt / dx) * (flux[i, v] - flux[i + 1, v]);
      v := v + 1;
    }
    ghost var p := PredictCell(Row(consOld, i), Row(flux, i), Row(flux, i + 1), dt, dx);
    forall w | 0 <= w < consOld.Length1
      ensures cons[w] == p[w]
    {
    }
    assert cons[..] == p;
  }

  /**
   * PredictStep on a row of m cells: forward Euler on the flux differences,
   * each cell amended when the result is not admissible.
   */
  method PredictStep(sqrt: real -> real, c: real, floor: real, n: nat,
                     consOld: array2<real>, consNew: array2<real>, flux: array2<real>, dt: real, dx: real)
    requires SqrtLaw(sqrt) && c > 0.0 && dx > 0.0
    requires consOld.Length1 == 4 * n && consNew.Length0 == consOld.Length0 && consNew.Length1 == 4 * n
    requires flux.Length0 == consOld.Length0 + 1 && flux.Length1 == 4 * n
    requires consNew != consOld && consNew != flux
    modifies consNew
    ensures RowShape(Rows(consOld), Rows(flux), 4 * n)
    ensures Rows(consNew) == PredictRow(sqrt, c, floor, n, Rows(consOld), Rows(flux), dt, dx)
  {
    ghost var olds, fs := Rows(consOld), Rows(flux);
    ghost var target := PredictRow(sqrt, c, floor, n, olds, fs, dt, dx);
    var i := 0;
    while i < consOld.Length0
      invariant 0 <= i <= consOld.Length0
      invariant forall i', v :: 0 <= i' < i && 0 <= v < 4 * n ==> consNew[i', v] == target[i'][v]
    {
      var cons := PredictInto(consOld, flux, i, dt, dx);
      MakeAdmissible(sqrt, c, floor, n, cons);
      assert cons[..] == target[i];
      CopyRow(cons, consNew, i);
      i := i + 1;
    }
    RowsFromEntries(consNew, target);
  }

  /** The second-stage candidate state of cell i, in a fresh buffer. */
  method CorrectInto(u0: array2<real>, u1: array2<real>, fluxOld: array2<real>, flux: array2<real>,
                     i: nat, dt: real, dx: real) returns (cons: array<real>)
    requires i < u0.Length0 && u1.Length0 == u0.Length0 && u1.Length1 == u0.Length1
    requires fluxOld.Length0 == u0.Length0 + 1 && fluxOld.Length1 == u0.Length1
    requires flux.Length0 == u0.Length0 + 1 && flux.Length1 == u0.Length1
    requires dx > 0.0
    ensures fresh(cons)
    ensures cons[..] == CorrectCell(Row(u0, i), Row(u1, i), Row(fluxOld, i), Row(fluxOld, i + 1),
                                    Row(flux, i), Row(flux, i + 1), dt, dx)
  {
    cons := new real[u0.Length1];
    var v := 0;
    while v < u0.Length1
      invariant 0 <= v <= u0.Length1
      invariant forall w :: 0 <= w < v ==>
                  (cons[w] == (1.0 - IMEX_a32) * u0[i, w] + IMEX_a32 * u1[i, w]
                              + (0.5 - IMEX_a32) * ((dt / dx) * (fluxOld[i, w] - fluxOld[i + 1, w]))
                              + 0.5 * ((dt / dx) * (flux[i, w] - flux[i + 1, w])))
    {
      var fxU0 := (dt / dx) * (fluxOld[i, v] - fluxOld[i + 1, v]);
      var fxU1 := (dt / dx) * (flux[i, v] - flux[i + 1, v]);
      cons[v] := (1.0 - IMEX_a32) * u0[i, v] + IMEX_a32 * u1[i, v] + (0.5 - IMEX_a32) * fxU0 + 0.5 * fxU1;
      v := v + 1;
    }
    ghost var p := CorrectCell(Row(u0, i), Row(u1, i), Row(fluxOld, i), Row(fluxOld, i + 1),
                               Row(flux, i), Row(flux, i + 1), dt, dx);
    forall w | 0 <= w < u0.Length1
      ensures cons[w] == p[w]
    {
    }
    assert cons[..] == p;
  }

  /**
   * AddFluxesRK2 on a row of m cells: the second-stage combination of the
   * old state U0, the intermediate state U1 and the two sets of fluxes,
   * each cell amended when the result is not admissible.
   */
  method AddFluxesRK2(sqrt: real -> real, c: real, floor: real, n: nat,
                      uNew: array2<real>, u0: array2<real>, u1: array2<real>,
                      fluxOld: array2<real>, flux: array2<real>, dt: real, dx: real)
    requires SqrtLaw(sqrt) && c > 0.0 && dx > 0.0
    requires u0.Length1 == 4 * n && u1.Length0 == u0.Length0 && u1.Length1 == 4 * n
    requires uNew.Length0 == u0.Length0 && uNew.Length1 == 4 * n
    requires fluxOld.Length0 == u0.Length0 + 1 && fluxOld.Length1 == 4 * n
    requires flux.Length0 == u0.Length0 + 1 && flux.Length1 == 4 * n
    requires uNew != u0 && uNew != u1 && uNew != fluxOld && uNew != flux
    modifies uNew
    ensures RowShape(Rows(u0), Rows(flux), 4 * n) && RowShape(Rows(u1), Rows(flux), 4 * n)
    ensures RowShape(Rows(u0), Rows(fluxOld), 4 * n)
    ensures Rows(uNew) == CorrectRow(sqrt, c, floor, n, Rows(u0), Rows(u1), Rows(fluxOld), Rows(flux), dt, dx)
  {
    ghost var u0s, u1s, fOld, fs := Rows(u0), Rows(u1), Rows(fluxOld), Rows(flux);
    ghost var target := CorrectRow(sqrt, c, floor, n, u0s, u1s, fOld, fs, dt, dx);
    var i := 0;
    while i < u0.Length0
      invariant 0 <= i <= u0.Length0
      invariant forall i', v :: 0 <= i' < i && 0 <= v < 4 * n ==> uNew[i', v] == target[i'][v]
    {
      var consNew := CorrectInto(u0, u1, fluxOld, flux, i, dt, dx);
      MakeAdmissible(sqrt, c, floor, n, consNew);
      assert consNew[..] == target[i];
      CopyRow(consNew, uNew, i);
      i := i + 1;
    }
    RowsFromEntries(uNew, target);
  }
}
