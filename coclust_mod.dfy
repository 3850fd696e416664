/**
 * CoclustMod: co-clustering of the rows and columns of a data matrix by
 * direct maximisation of graph modularity.
 *
 * Fit builds the modularity matrix B once, then alternates two passes until
 * the criterion stops moving: every row of the row indicator Z is rewritten as
 * the one-hot row at the first argmax of the matching row of B·W, then every
 * row of the column indicator W as the one-hot row at the first argmax of the
 * matching row of Bᵗ·Z. Z and W are two-dimensional arrays overwritten in
 * place; W is the caller's own array when one was configured.
 */
module CoclustModel {
  import opened Matrices
  import opened Modularity
  import opened StoppingRule

  datatype Option<T> = None | Some(value: T)

  /** How a call to Fit ends. */
  datatype Status =
    | Fitted(mEnd: real)   // the loop stopped; mEnd is the last criterion value computed
    | ZeroDivision         // the total mass N of X is zero, so B cannot be formed
    | DimensionMismatch    // W does not have one row per column of X, so B·W cannot be formed
    | EmptyArgmax          // there are no clusters, so a row of B·W has no argmax

  /** The entries of a two-dimensional array, as a matrix. */
  function Entries(a: array2<real>): (m: Matrix)
    reads a
    ensures IsMatrix(m, a.Length0, a.Length1)
  {
    seq(a.Length0, i requires 0 <= i < a.Length0 reads a =>
      seq(a.Length1, j requires 0 <= j < a.Length1 reads a => a[i, j]))
  }

  /**
   * Rewrites row i of a, for every i, as the one-hot row whose 1 sits at the
   * first argmax of row i of scores: first the whole row is set to 0, then
   * the entry at the argmax to 1.
   */
  method AssignOneHot(a: array2<real>, scores: Matrix)
    requires IsMatrix(scores, a.Length0, a.Length1) && a.Length1 > 0
    modifies a
    ensures Entries(a) == ArgMaxRows(scores, a.Length1)
  {
    var k := a.Length1;
    for i := 0 to a.Length0
      invariant forall r, c | 0 <= r < i && 0 <= c < k :: a[r, c] == OneHot(k, ArgMax(scores[r]))[c]
    {
      var best := ArgMax(scores[i]);
      for c := 0 to k
        invariant forall r, c' | 0 <= r < i && 0 <= c' < k :: a[r, c'] == OneHot(k, ArgMax(scores[r]))[c']
        invariant forall c' | 0 <= c' < c :: a[i, c'] == 0.0
      {
        a[i, c] := 0.0;
      }
      a[i, best] := 1.0;
    }
    assert forall r | 0 <= r < a.Length0 :: Entries(a)[r] == ArgMaxRows(scores, k)[r];
  }

  /** The row and column indicators that a round of the loop leaves behind, and the criterion value it computes. */
  datatype Snapshot = Snapshot(z: Matrix, w: Matrix, m: real)

  /**
   * One round of the loop started from the column indicator w: the row pass
   * against b·w, then the column pass against bᵗ·z with the new z. Its value
   * is trace(zᵗ·(b·w)) with the b·w formed before the column pass.
   */
  function Round(b: Matrix, w: Matrix, k: nat): (s: Snapshot)
    requires k > 0 && IsMatrix(b, |b|, |w|) && IsMatrix(w, |w|, k)
    ensures IsMatrix(s.z, |b|, k) && IsMatrix(s.w, |w|, k)
  {
    var z := ArgMaxRows(MatMul(b, w, k), k);
    Snapshot(z, ArgMaxRows(MatMul(Transpose(b, |w|), z, k), k), Criterion(z, b, w, k))
  }

  /** The value of a round is the sum of the row maxima of b·w: the row pass takes the best row of b·w for every i. */
  lemma RoundValue(b: Matrix, w: Matrix, k: nat)
    requires k > 0 && IsMatrix(b, |b|, |w|) && IsMatrix(w, |w|, k)
    ensures Round(b, w, k).m == SumOfRowMaxima(MatMul(b, w, k), k)
  {
    RowPassOptimal(Round(b, w, k).z, b, w, k);
  }

  /**
   * One round of the loop on the arrays: the row pass rewrites z against
   * b·w, the column pass rewrites w against bᵗ·z with the new z, and the
   * criterion is taken as trace(zᵗ·(b·w)) with the b·w formed before the
   * column pass. The arrays and the value end as Round says.
   */
  method Reassign(b: Matrix, z: array2<real>, w: array2<real>) returns (mEnd: real)
    requires z != w && z.Length1 == w.Length1 > 0
    requires IsMatrix(b, z.Length0, w.Length0)
    modifies z, w
    ensures Round(b, old(Entries(w)), w.Length1) == Snapshot(Entries(z), Entries(w), mEnd)
  {
    var k := w.Length1;
    var bw := MatMul(b, Entries(w), k);
    AssignOneHot(z, bw);
    var btz := MatMul(Transpose(b, w.Length0), Entries(z), k);
    AssignOneHot(w, btz);
    mEnd := Trace(MatMul(Transpose(Entries(z), k), bw, k));
  }

  /** The loop can start from w0: there is a cluster, and b and w0 have the shapes B·W needs. */
  predicate Startable(b: Matrix, w0: Matrix, k: nat)
  {
    k > 0 && IsMatrix(b, |b|, |w0|) && IsMatrix(w0, |w0|, k)
  }

  /** What round n (n >= 1) of the loop, started from the column indicator w0, leaves behind. */
  function Run(b: Matrix, w0: Matrix, k: nat, n: nat): (s: Snapshot)
    requires Startable(b, w0, k) && n > 0
    ensures IsMatrix(s.z, |b|, k) && IsMatrix(s.w, |w0|, k)
    decreases n, 1
  {
    Round(b, Before(b, w0, k, n), k)
  }

  /** The W that round n (n >= 1) of a run from w0 starts from. */
  function Before(b: Matrix, w0: Matrix, k: nat, n: nat): (w: Matrix)
    requires Startable(b, w0, k) && n > 0
    ensures IsMatrix(w, |w0|, k)
    decreases n, 0
  {
    if n == 1 then w0 else Run(b, w0, k, n - 1).w
  }

  /** Whatever W a run starts from, every round leaves two indicators behind. */
  lemma RunIndicators(b: Matrix, w0: Matrix, k: nat, n: nat)
    requires Startable(b, w0, k) && n > 0
    ensures IsIndicator(Run(b, w0, k, n).z, |b|, k) && IsIndicator(Run(b, w0, k, n).w, |w0|, k)
  {
  }

  /** From the second round on, a round starts from the W the round before it left. */
  lemma RunStep(b: Matrix, w0: Matrix, k: nat, n: nat)
    requires Startable(b, w0, k) && n >= 2
    ensures Run(b, w0, k, n) == Round(b, Run(b, w0, k, n - 1).w, k)
  {
  }

  /**
   * From the second round on, the value of a round is no smaller than the
   * one before it: the round starts from an indicator W.
   */
  lemma ValueNeverFalls(b: Matrix, w0: Matrix, k: nat, n: nat)
    requires Startable(b, w0, k) && n >= 2
    ensures Run(b, w0, k, n).m <= Run(b, w0, k, n + 1).m
  {
    var wPrev, last := Run(b, w0, k, n - 1).w, Run(b, w0, k, n);
    RunStep(b, w0, k, n);
    RunStep(b, w0, k, n + 1);
    RunIndicators(b, w0, k, n - 1);
    RoundImproves(last.z, b, wPrev, k);
  }

  /** From the second round on, the value of a round is at most the absolute mass of b. */
  lemma ValueBounded(b: Matrix, w0: Matrix, k: nat, n: nat)
    requires Startable(b, w0, k) && n >= 2
    ensures Run(b, w0, k, n).m <= AbsTotal(b)
  {
    var wPrev, last := Run(b, w0, k, n - 1).w, Run(b, w0, k, n);
    RunStep(b, w0, k, n);
    RunIndicators(b, w0, k, n);
    RunIndicators(b, w0, k, n - 1);
    CriterionBounded(last.z, b, wPrev, k);
  }

  /** The criterion value round n computes (the value for n = 0 is never read). */
  function Value(b: Matrix, w0: Matrix, k: nat, n: nat): real
    requires Startable(b, w0, k)
  {
    if n == 0 then 0.0 else Run(b, w0, k, n).m
  }

  /** The criterion values of the rounds of a run from w0, as the sequence the stopping rule reads. */
  function Values(b: Matrix, w0: Matrix, k: nat): nat -> real
    requires Startable(b, w0, k)
  {
    (n: nat) => Value(b, w0, k, n)
  }

  /**
   * From the second round on, the values of a run from w0 never fall and stay
   * at most the absolute mass of b, so the stopping rule ends the loop.
   */
  lemma ValuesClimb(b: Matrix, w0: Matrix, k: nat)
    requires Startable(b, w0, k)
    ensures Climbs(Values(b, w0, k), AbsTotal(b))
  {
    forall n | n >= 2 ensures Rises(Values(b, w0, k), n, AbsTotal(b)) {
      ValuesRise(b, w0, k, n);
    }
  }

  /** Round n + 1 (n >= 2) of a run from w0 does not fall below round n and stays at most the absolute mass of b. */
  lemma ValuesRise(b: Matrix, w0: Matrix, k: nat, n: nat)
    requires Startable(b, w0, k) && n >= 2
    ensures Rises(Values(b, w0, k), n, AbsTotal(b))
  {
    ValueSteps(b, w0, k, n);
  }

  /** The same step stated on Value, which names the value of a round without the Values lambda. */
  lemma ValueSteps(b: Matrix, w0: Matrix, k: nat, n: nat)
    requires Startable(b, w0, k) && n >= 2
    ensures Value(b, w0, k, n) <= Value(b, w0, k, n + 1) <= AbsTotal(b)
  {
    ValueNeverFalls(b, w0, k, n);
    ValueBounded(b, w0, k, n + 1);
  }

  /** The value the stopping rule sees after round n of a run is that round's criterion. */
  lemma ValueAt(b: Matrix, w0: Matrix, k: nat, n: nat)
    requires Startable(b, w0, k) && n > 0
    ensures Values(b, w0, k)(n) == Run(b, w0, k, n).m
  {
  }

  /** Round n + 1 of a run from w0, on the arrays: they start as W before it and end as it leaves Z and W. */
  method Advance(b: Matrix, z: array2<real>, w: array2<real>, ghost w0: Matrix, ghost n: nat) returns (mEnd: real)
    requires z != w && z.Length1 == w.Length1 > 0
    requires IsMatrix(b, z.Length0, w.Length0) && IsMatrix(w0, w.Length0, w.Length1)
    requires Entries(w) == Before(b, w0, w.Length1, n + 1)
    modifies z, w
    ensures Run(b, w0, w.Length1, n + 1) == Snapshot(Entries(z), Entries(w), mEnd)
  {
    mEnd := Reassign(b, z, w);
  }

  /** Round n + 1 (n >= 1) of a run moved the stopping rule's value exactly when it moved the criterion by more than the tolerance. */
  lemma MovedOnRun(b: Matrix, w0: Matrix, k: nat, n: nat)
    requires Startable(b, w0, k) && n > 0
    ensures Moved(Values(b, w0, k), n + 1) <==> Abs(Run(b, w0, k, n + 1).m - Run(b, w0, k, n).m) > Tolerance
  {
    ValueAt(b, w0, k, n);
    ValueAt(b, w0, k, n + 1);
  }

  /**
   * The loop's test after round n + 1 of a run, which compares its value
   * mEnd with the previous one mBegin (unset before the first round), is the
   * stopping rule's test on the run's values.
   */
  lemma LoopTest(b: Matrix, w0: Matrix, k: nat, n: nat, mBegin: Option<real>, mEnd: real)
    requires Startable(b, w0, k)
    requires mBegin == if n == 0 then None else Some(Run(b, w0, k, n).m)
    requires mEnd == Run(b, w0, k, n + 1).m
    ensures mBegin.None? || Abs(mEnd - mBegin.value) > Tolerance <==> n == 0 || Moved(Values(b, w0, k), n + 1)
  {
    if n > 0 {
      MovedOnRun(b, w0, k, n);
    }
  }

  /**
   * One pass of the loop body, as round n + 1 of a run from w0: Reassign,
   * then the test of the new value against the previous one, which is unset
   * (-infinity) before the first round. The arrays and the value end as
   * round n + 1 leaves them, and the loop goes on exactly when this is the
   * first round or the value moved by more than the tolerance, that is, when
   * round n + 1 comes before the round stop after which the stopping rule
   * ends the loop.
   */
  method Step(b: Matrix, z: array2<real>, w: array2<real>, mBegin: Option<real>,
               ghost w0: Matrix, ghost v: nat -> real, ghost stop: nat, ghost n: nat)
    returns (mEnd: real, change: bool)
    requires z != w && z.Length1 == w.Length1 > 0
    requires IsMatrix(b, z.Length0, w.Length0) && IsMatrix(w0, w.Length0, w.Length1)
    requires v == Values(b, w0, w.Length1) && StopsAfter(v, stop) && n < stop
    requires Entries(w) == Before(b, w0, w.Length1, n + 1)
    requires mBegin == if n == 0 then None else Some(Run(b, w0, w.Length1, n).m)
    modifies z, w
    ensures Run(b, w0, w.Length1, n + 1) == Snapshot(Entries(z), Entries(w), mEnd)
    ensures change <==> n == 0 || Moved(v, n + 1)
    ensures change <==> n + 1 < stop
  {
    mEnd := Advance(b, z, w, w0, n);
    change := mBegin.None? || Abs(mEnd - mBegin.value) > Tolerance;
    LoopTest(b, w0, w.Length1, n, mBegin, mEnd);
    GoesOnUntil(v, stop, n, change);
  }

  /**
   * The state the loop stops in: z is the row pass's choice against wPrev,
   * w the column pass's choice against z, the last criterion value mEnd is
   * trace(zᵗ·b·wPrev), and it is within the tolerance of the value before it.
   */
  ghost predicate Settled(b: Matrix, wPrev: Matrix, z: Matrix, w: Matrix, k: nat, mEnd: real, mPrev: real)
  {
    && k > 0 && IsMatrix(b, |b|, |wPrev|) && IsIndicator(wPrev, |wPrev|, k)
    && z == ArgMaxRows(MatMul(b, wPrev, k), k)
    && IsMatrix(Transpose(b, |wPrev|), |wPrev|, |b|)
    && w == ArgMaxRows(MatMul(Transpose(b, |wPrev|), z, k), k)
    && mEnd == Criterion(z, b, wPrev, k)
    && Abs(mEnd - mPrev) <= Tolerance
  }

  /** A round n >= 2 of a run that moves the criterion by no more than the tolerance is Settled. */
  lemma RoundSettles(b: Matrix, w0: Matrix, k: nat, n: nat)
    requires Startable(b, w0, k) && n >= 2
    requires Abs(Run(b, w0, k, n).m - Run(b, w0, k, n - 1).m) <= Tolerance
    ensures var last := Run(b, w0, k, n);
      Settled(b, Run(b, w0, k, n - 1).w, last.z, last.w, k, Run(b, w0, k, n).m, Run(b, w0, k, n - 1).m)
  {
    RunStep(b, w0, k, n);
    RunIndicators(b, w0, k, n - 1);
  }

  /**
   * Where the stopping rule ends the loop, the last round is Settled: this
   * holds for every round n >= 2 that did not move the value, and so for the
   * one StopsAfter picks.
   */
  lemma StopsAfterSettles(b: Matrix, w0: Matrix, k: nat, n: nat)
    requires Startable(b, w0, k)
    requires n >= 2 && !Moved(Values(b, w0, k), n)
    ensures var last := Run(b, w0, k, n);
      Settled(b, Run(b, w0, k, n - 1).w, last.z, last.w, k, Run(b, w0, k, n).m, Run(b, w0, k, n - 1).m)
  {
    assert Abs(Run(b, w0, k, n).m - Run(b, w0, k, n - 1).m) <= Tolerance by {
      MovedOnRun(b, w0, k, n - 1);
    }
    RoundSettles(b, w0, k, n);
  }

  /**
   * What the last round's two passes achieve: its value is the sum of the
   * row maxima of b·wPrev, no indicator in place of z scores more against
   * wPrev (the W the round started from), and no indicator in place of w
   * scores more against z. This holds of every round; the tolerance part of
   * Settled plays no part. It is not a coordinate-wise optimum of the pair
   * (z, w) that the loop returns: m_end scores z against wPrev, not against
   * the new w, so the loop can stop although another row pass against w
   * would raise the criterion.
   */
  lemma LastPassesOptimal(b: Matrix, wPrev: Matrix, z: Matrix, w: Matrix, k: nat, mEnd: real, mPrev: real)
    requires Settled(b, wPrev, z, w, k, mEnd, mPrev)
    ensures mEnd == SumOfRowMaxima(MatMul(b, wPrev, k), k)
    ensures forall z' | IsIndicator(z', |b|, k) :: Criterion(z', b, wPrev, k) <= mEnd
    ensures forall w' | IsIndicator(w', |wPrev|, k) :: Criterion(z, b, w', k) <= Criterion(z, b, w, k)
  {
    RowPassOptimal(z, b, wPrev, k);
    forall z' | IsIndicator(z', |b|, k) ensures Criterion(z', b, wPrev, k) <= mEnd {
      RowPassOptimal(z', b, wPrev, k);
    }
    forall w' | IsIndicator(w', |wPrev|, k) ensures Criterion(z, b, w', k) <= Criterion(z, b, w, k) {
      ColumnPassOptimal(z, b, w', k);
    }
  }

  /**
   * Every run stops: the stopping rule ends the loop after some round of a
   * run from any starting W, because the values climb under the absolute
   * mass of b.
   */
  lemma RunStops(b: Matrix, w0: Matrix, k: nat) returns (stop: nat)
    requires Startable(b, w0, k)
    ensures StopsAfter(Values(b, w0, k), stop)
  {
    ValuesClimb(b, w0, k);
    stop := StopRound(Values(b, w0, k), AbsTotal(b), 2);
    StopRoundStops(Values(b, w0, k), AbsTotal(b), 2);
  }

  /**
   * The loop of the fit: starting with the previous value unset (-infinity),
   * run rounds of Reassign until the criterion moves by no more than the
   * tolerance, and return its last value. It runs exactly the number of
   * rounds at which the stopping rule ends the loop for the values of a run
   * from the starting W, and leaves the arrays and the value as the last of
   * those rounds does.
   */
  method Ascend(b: Matrix, z: array2<real>, w: array2<real>) returns (mEnd: real, ghost rounds: nat)
    requires z != w && z.Length1 == w.Length1 > 0
    requires IsMatrix(b, z.Length0, w.Length0)
    modifies z, w
    ensures StopsAfter(Values(b, old(Entries(w)), w.Length1), rounds)
    ensures Run(b, old(Entries(w)), w.Length1, rounds) == Snapshot(Entries(z), Entries(w), mEnd)
  {
    var k := w.Length1;
    ghost var w0 := Entries(w);
    ghost var v := Values(b, w0, k);
    ghost var stop := RunStops(b, w0, k);
    rounds := 0;
    var mBegin: Option<real> := None;
    var change := true;
    mEnd := 0.0;
    while change
      invariant rounds <= stop
      invariant rounds == 0 ==> Entries(w) == w0
      invariant rounds > 0 ==> Run(b, w0, k, rounds) == Snapshot(Entries(z), Entries(w), mEnd)
      invariant change ==> rounds < stop && mBegin == if rounds == 0 then None else Some(mEnd)
      invariant !change ==> rounds == stop
      decreases stop - rounds
    {
      mEnd, change := Step(b, z, w, mBegin, w0, v, stop, rounds);
      if change {
        mBegin := Some(mEnd);
      }
      rounds := rounds + 1;
    }
  }

  /** The modularity co-clustering model and its configuration. */
  class CoclustMod {
    /** The number of co-clusters to form. */
    var nClusters: nat
    /** The initial column indicator, or null to draw one at random. */
    var init: array2?<real>
    /** The iteration cap; it is stored but Fit never reads it. */
    var maxIter: int

    constructor (nClusters: nat := 2, init: array2?<real> := null, maxIter: int := 20)
      ensures this.nClusters == nClusters && this.init == init && this.maxIter == maxIter
    {
      this.nClusters := nClusters;
      this.init := init;
      this.maxIter := maxIter;
    }

    /**
     * Co-clusters the rows and columns of x. W is the configured init array
     * when there is one, used and overwritten in place, and otherwise drawn,
     * which stands for the random initial indicator. Returns the final Z and
     * W and how the loop ended.
     *
     * The failures, in the order the fit meets them: a zero total mass fails
     * the division forming B, before the loop; in the first row pass of the
     * loop, a W without one row per column of x fails the product B·W, and
     * zero clusters fail the argmax. Z is then still the all-zero matrix it
     * was allocated as, and W is untouched. On success Z,
     * W and the last value are what Run leaves from the starting W after the
     * number of rounds at which the stopping rule ends the loop.
     * The fit only reads x, so x is unchanged unless it is W itself.
     */
    method Fit(x: array2<real>, drawn: array2<real>)
      returns (status: Status, z: array2<real>, w: array2<real>, ghost rounds: nat)
      requires init == null ==> drawn.Length0 == x.Length1 && drawn.Length1 == nClusters
      requires init != null ==> init.Length1 == nClusters
      modifies if init != null then init else drawn
      ensures w == (if init != null then init else drawn)
      ensures fresh(z) && z.Length0 == x.Length0 && z.Length1 == nClusters
      ensures x != w ==> unchanged(x)
      ensures status == ZeroDivision <==> Total(old(Entries(x))) == 0.0
      ensures status == DimensionMismatch <==> Total(old(Entries(x))) != 0.0 && w.Length0 != x.Length1
      ensures status == EmptyArgmax <==>
        Total(old(Entries(x))) != 0.0 && w.Length0 == x.Length1 && nClusters == 0
      ensures !status.Fitted? ==>
        unchanged(w) && forall i, j | 0 <= i < z.Length0 && 0 <= j < z.Length1 :: z[i, j] == 0.0
      ensures status.Fitted? ==>
        var b, w0 := ModularityMatrix(old(Entries(x)), x.Length1), old(Entries(w));
        && StopsAfter(Values(b, w0, nClusters), rounds)
        && Run(b, w0, nClusters, rounds) == Snapshot(Entries(z), Entries(w), status.mEnd)
    {
      if init == null {
        w := drawn;
      } else {
        w := init;
      }
      z := new real[x.Length0, nClusters]((i, j) => 0.0);
      rounds := 0;

      var xs := Entries(x);
      if Total(xs) == 0.0 {
        return ZeroDivision, z, w, rounds;
      }
      var cols := x.Length1;
      var b := ModularityMatrix(xs, cols);
      if w.Length0 != cols {
        return DimensionMismatch, z, w, rounds;
      }
      if nClusters == 0 {
        return EmptyArgmax, z, w, rounds;
      }
      var mEnd;
      mEnd, rounds := Ascend(b, z, w);
      status := Fitted(mEnd);
    }
  }
}
