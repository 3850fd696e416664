/**
 * The stopping rule of the CoclustMod fitting loop, over the criterion values
 * v(1), v(2), … that its rounds compute. The value before the first round is
 * -infinity, so the first round always continues; from the second round on,
 * the loop goes on while a round moves the value by more than the tolerance,
 * and stops after the first round that does not.
 */
module StoppingRule {
  import opened Matrices

  /** The absolute tolerance of the stopping rule (1e-9). */
  const Tolerance: real := 0.000000001

  /** Round n (n >= 2) moved the criterion by more than the tolerance, so the loop goes on. */
  predicate Moved(v: nat -> real, n: nat)
    requires n >= 2
  {
    Abs(v(n) - v(n - 1)) > Tolerance
  }

  /**
   * The stopping rule ends the loop after exactly n rounds: each of rounds 2
   * to n - 1 moved the criterion by more than the tolerance, and round n did not.
   */
  predicate StopsAfter(v: nat -> real, n: nat)
  {
    && n >= 2
    && !Moved(v, n)
    && forall j | 2 <= j < n :: Moved(v, j)
  }

  /** The stopping rule accepts one round count only. */
  lemma StopsAfterUnique(v: nat -> real, n: nat, n': nat)
    requires StopsAfter(v, n) && StopsAfter(v, n')
    ensures n == n'
  {
  }

  /** Up to the round where the stopping rule ends the loop, a round moves the criterion exactly when it is not the last. */
  lemma MovedBeforeStop(v: nat -> real, n: nat, stop: nat)
    requires StopsAfter(v, stop) && 2 <= n <= stop
    ensures Moved(v, n) <==> n < stop
  {
  }

  /** From round n to round n + 1 the value does not fall and stays at most top. */
  predicate Rises(v: nat -> real, n: nat, top: real)
  {
    v(n) <= v(n + 1) <= top
  }

  /** From the second round on, the values never fall and stay at most top. */
  ghost predicate Climbs(v: nat -> real, top: real)
  {
    forall n | n >= 2 :: Rises(v, n, top)
  }

  /** How many more steps of at least the tolerance a value m can still climb before it reaches top. */
  function Headroom(m: real, top: real): nat
  {
    if top < m then 0 else ((top - m) / Tolerance).Floor
  }

  /**
   * A move of more than the tolerance up to a value that stays at most top
   * uses up at least one step of headroom.
   */
  lemma HeadroomShrinks(a: real, e: real, top: real)
    requires a <= e <= top && Abs(e - a) > Tolerance
    ensures Headroom(e, top) < Headroom(a, top)
  {
  }

  /**
   * When the values climb, a round after the second that moves the criterion
   * by more than the tolerance uses up headroom under top.
   */
  lemma RoundUsesHeadroom(v: nat -> real, top: real, n: nat)
    requires Climbs(v, top) && n >= 2 && Moved(v, n + 1)
    ensures Headroom(v(n + 1), top) < Headroom(v(n), top)
  {
    assert Rises(v, n, top);
    HeadroomShrinks(v(n), v(n + 1), top);
  }

  /** Rounds 2 to n - 1 and round n moved, so rounds 2 to n did. */
  lemma MovedExtends(v: nat -> real, n: nat)
    requires n >= 2 && forall j | 2 <= j < n :: Moved(v, j)
    requires Moved(v, n)
    ensures forall j | 2 <= j < n + 1 :: Moved(v, j)
  {
  }

  /**
   * The round, from n >= 2 on, at which the loop stops when each round from
   * the second to n - 1 moved the criterion by more than the tolerance: the
   * first round from n on that does not. When the values climb it always
   * exists, so the loop terminates: from the third round on, each round the
   * search passes over uses up headroom.
   */
  function StopRound(v: nat -> real, top: real, n: nat): (stop: nat)
    requires Climbs(v, top) && n >= 2
    requires forall j | 2 <= j < n :: Moved(v, j)
    ensures n <= stop
    decreases if n == 2 then Headroom(v(2), top) + 1 else Headroom(v(n - 1), top)
  {
    if !Moved(v, n) then n
    else
      MovedExtends(v, n);
      if n == 2 then StopRound(v, top, n + 1)
      else
        RoundUsesHeadroom(v, top, n - 1);
        StopRound(v, top, n + 1)
  }

  /** The stopping rule ends the loop after StopRound rounds. */
  lemma {:induction false} StopRoundStops(v: nat -> real, top: real, n: nat)
    requires Climbs(v, top) && n >= 2
    requires forall j | 2 <= j < n :: Moved(v, j)
    ensures StopsAfter(v, StopRound(v, top, n))
    decreases if n == 2 then Headroom(v(2), top) + 1 else Headroom(v(n - 1), top)
  {
    if Moved(v, n) {
      MovedExtends(v, n);
      if n > 2 {
        RoundUsesHeadroom(v, top, n - 1);
      }
      StopRoundStops(v, top, n + 1);
    }
  }

  /**
   * The test the loop makes after round n + 1, against the round stop after
   * which the stopping rule ends the loop: the first round always goes on,
   * and a later one goes on when it moved the criterion. It goes on exactly
   * when round n + 1 comes before stop.
   */
  lemma GoesOnUntil(v: nat -> real, stop: nat, n: nat, change: bool)
    requires StopsAfter(v, stop) && n < stop
    requires change <==> n == 0 || Moved(v, n + 1)
    ensures change <==> n + 1 < stop
  {
    if n > 0 {
      MovedBeforeStop(v, n + 1, stop);
    }
  }
}
