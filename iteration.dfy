/**
 * The shape shared by the two loops of AddSourceTerms: a for loop over an
 * iteration number that stops at the first iteration that is done or fails,
 * and after which an always-on assertion fails if the loop ran to its limit.
 * An iteration is a function of the loop's state and the iteration number.
 */
module Iteration {
  import opened Numerics

  /** What one iteration does: stop with a result, fail, or move on to the next state. */
  datatype Outcome<S, X, E> = Done(exit: X) | Failed(error: E) | Next(state: S)

  /** Run iteration f from iteration k on until it stops; giveUp once iteration number limit is reached. */
  function Drive<S, X, E>(f: (S, nat) -> Outcome<S, X, E>, s: S, k: nat, limit: nat, giveUp: E): Result<X, E>
    decreases limit - k
  {
    if k >= limit then Err(giveUp)
    else
      match f(s, k)
      case Done(x) => Ok(x)
      case Failed(e) => Err(e)
      case Next(t) => Drive(f, t, k + 1, limit, giveUp)
  }

  /** The loop itself: iterations 0 to limit - 1 of f, stopping at the first that is done or fails. */
  method Run<S, X, E>(f: (S, nat) -> Outcome<S, X, E>, s0: S, limit: nat, giveUp: E) returns (r: Result<X, E>)
    ensures r == Drive(f, s0, 0, limit, giveUp)
  {
    var s := s0;
    var k := 0;
    while k < limit
      invariant k <= limit
      invariant Drive(f, s, k, limit, giveUp) == Drive(f, s0, 0, limit, giveUp)
      decreases limit - k
    {
      var o := f(s, k);
      match o
      case Done(x) => return Ok(x);
      case Failed(e) => return Err(e);
      case Next(t) => s := t;
      k := k + 1;
    }
    return Err(giveUp);
  }

  /** The state j iterations of f after s, if none of the j iterations before it stopped. */
  function Iterate<S, X, E>(f: (S, nat) -> Outcome<S, X, E>, s: S, k: nat, j: nat): Option<S>
    decreases j
  {
    if j == 0 then Some(s)
    else
      match f(s, k)
      case Next(t) => Iterate(f, t, k + 1, j - 1)
      case _ => None
  }

  /** How many iterations of f from s (numbered from k) move on before one stops or the limit is reached. */
  function Moves<S, X, E>(f: (S, nat) -> Outcome<S, X, E>, s: S, k: nat, limit: nat): nat
    decreases limit - k
  {
    if k >= limit then 0
    else
      match f(s, k)
      case Next(t) => 1 + Moves(f, t, k + 1, limit)
      case _ => 0
  }

  /**
   * The loop stops at the first iteration that does not move on: when it
   * returns Ok(x), iteration k + n, with n = Moves(f, s, k, limit), is below
   * the limit, is reached by moving on, and is done there with x.
   */
  lemma {:induction false} StopsAtFirstDone<S, X, E>(f: (S, nat) -> Outcome<S, X, E>, s: S, k: nat, limit: nat, giveUp: E)
    requires Drive(f, s, k, limit, giveUp).Ok?
    ensures var n := Moves(f, s, k, limit);
            k + n < limit && Iterate(f, s, k, n).Some?
            && f(Iterate(f, s, k, n).value, k + n) == Done(Drive(f, s, k, limit, giveUp).value)
    decreases limit - k
  {
    match f(s, k)
    case Done(y) =>
      assert Iterate(f, s, k, 0) == Some(s);
    case Next(t) =>
      StopsAtFirstDone(f, t, k + 1, limit, giveUp);
      var n := Moves(f, t, k + 1, limit);
      assert Iterate(f, s, k, n + 1) == Iterate(f, t, k + 1, n);
  }

  /** Each of the first m iterations of f from s (numbered from k) is reached and moves on. */
  ghost predicate MovesOn<S, X, E>(f: (S, nat) -> Outcome<S, X, E>, s: S, k: nat, m: nat)
  {
    forall j: nat :: j < m ==> Iterate(f, s, k, j).Some? && f(Iterate(f, s, k, j).value, k + j).Next?
  }

  /** No single iteration of f reports the loop's own give-up error. */
  ghost predicate OwnErrors<S(!new), X, E>(f: (S, nat) -> Outcome<S, X, E>, giveUp: E)
  {
    forall t: S, j: nat :: f(t, j) != Failed(giveUp)
  }

  /** The loop gives up exactly when each of its iterations moves on. */
  lemma {:induction false} GivesUpIffAlwaysMovesOn<S(!new), X, E>(f: (S, nat) -> Outcome<S, X, E>, s: S, k: nat, limit: nat, giveUp: E)
    requires k <= limit && OwnErrors(f, giveUp)
    ensures Drive(f, s, k, limit, giveUp) == Err(giveUp) <==> MovesOn(f, s, k, limit - k)
    decreases limit - k
  {
    if k < limit {
      assert Iterate(f, s, k, 0) == Some(s);
      match f(s, k)
      case Next(t) =>
        GivesUpIffAlwaysMovesOn(f, t, k + 1, limit, giveUp);
        if MovesOn(f, t, k + 1, limit - (k + 1)) {
          forall j: nat | j < limit - k
            ensures Iterate(f, s, k, j).Some? && f(Iterate(f, s, k, j).value, k + j).Next?
          {
            if j > 0 {
              assert Iterate(f, s, k, j) == Iterate(f, t, k + 1, j - 1);
            }
          }
        } else {
          var j: nat :| j < limit - (k + 1)
                        && !(Iterate(f, t, k + 1, j).Some? && f(Iterate(f, t, k + 1, j).value, k + 1 + j).Next?);
          assert Iterate(f, s, k, j + 1) == Iterate(f, t, k + 1, j);
        }
      case _ =>
        assert f(s, k) != Failed(giveUp);
        assert !(Iterate(f, s, k, 0).Some? && f(Iterate(f, s, k, 0).value, k + 0).Next?);
    }
  }

  /** An error that no single iteration reports, and that is not the give-up error, is never the loop's result. */
  lemma {:induction false} ErrorsFromIterations<S(!new), X, E>(f: (S, nat) -> Outcome<S, X, E>, s: S, k: nat, limit: nat,
                                                               giveUp: E, e: E)
    requires OwnErrors(f, e) && e != giveUp
    ensures Drive(f, s, k, limit, giveUp) != Err(e)
    decreases limit - k
  {
    if k < limit {
      match f(s, k)
      case Next(t) => ErrorsFromIterations(f, t, k + 1, limit, giveUp, e);
      case _ =>
    }
  }

  /** Every exit value f reports satisfies good. */
  ghost predicate ExitsSatisfy<S(!new), X, E>(f: (S, nat) -> Outcome<S, X, E>, good: X -> bool)
  {
    forall t: S, j: nat :: f(t, j).Done? ==> good(f(t, j).exit)
  }

  /** A property of every exit value is a property of the loop's result. */
  lemma {:induction false} ResultSatisfies<S(!new), X, E>(f: (S, nat) -> Outcome<S, X, E>, s: S, k: nat, limit: nat,
                                                          giveUp: E, good: X -> bool)
    requires ExitsSatisfy(f, good) && Drive(f, s, k, limit, giveUp).Ok?
    ensures good(Drive(f, s, k, limit, giveUp).value)
    decreases limit - k
  {
    match f(s, k)
    case Next(t) => ResultSatisfies(f, t, k + 1, limit, giveUp, good);
    case _ =>
  }
}
