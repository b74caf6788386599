/** backend/internal/trajectory/trajectory.go: the figures for one read, and what
    they add up to over the rest of a period. */
module Trajectory {
  import opened Options
  import opened Rounding

  datatype Mode = Adaptive | Fixed | UnknownMode(name: string)

  datatype State = Afloat | Drifting | TakingOnWater

  /** The thresholds are multiples of the Baseline Daily Budget. */
  datatype Parameters = Parameters(warmUpDays: int, driftingBelow: real, takingOnWaterBelow: real)

  datatype Inputs = Inputs(
    pool: int, periodDays: int, daysElapsed: int,
    settled: int, today: int, future: int,
    mode: Mode, parameters: Parameters)
  {
    /** r: the days left, today included. */
    function DaysLeft(): int { periodDays - daysElapsed }

    /** P' - S_settled: what is left for them. */
    function Remaining(): int { pool - future - settled }

    /** V, unrounded. */
    function Variance(): real
      requires periodDays > 0
    {
      Times(Share(pool, periodDays), daysElapsed) - Rat(settled)
    }
  }

  datatype Figures = Figures(
    baseline: int, available: int, allowance: int, left: int, forward: Option<int>,
    variance: int, bufferDays: int, state: State)

  datatype Result = Failed(reason: string) | Ok(figures: Figures)

  function DecideState(daysElapsed: int, p: Parameters, v: real, b: real): State {
    if daysElapsed < p.warmUpDays then Afloat
    else if v >= p.driftingBelow * b then Afloat
    else if v >= p.takingOnWaterBelow * b then Drifting
    else TakingOnWater
  }

  /** Calculate: every figure from exact rationals, each rounded once. */
  function Calculate(x: Inputs): Result {
    if x.periodDays <= 0 then Failed("period_days must be positive")
    else if x.DaysLeft() <= 0 then Failed("no days remaining")
    else if x.mode.UnknownMode? then Failed("unknown mode")
    else if x.pool == 0 then Failed("baseline daily budget is zero")
    else
      var r := x.DaysLeft();
      var b := Share(x.pool, x.periodDays);
      var numerator := Rat(x.pool - x.future) - Rat(x.settled);
      var a := if x.mode.Fixed? then b else numerator / r as real;
      var v := x.Variance();
      BaselineNotZero(x);
      Ok(Figures(
        Floor4(b),
        x.pool - x.future,
        Floor4(a),
        Floor4(a) - x.today,
        if r > 1 then Some(Floor4((numerator - Rat(x.today)) / (r - 1) as real)) else None,
        HalfUp4(v),
        HalfUp4(v / b),
        DecideState(x.daysElapsed, x.parameters, v, b)))
  }

  lemma BaselineNotZero(x: Inputs)
    requires x.periodDays > 0 && x.pool != 0
    ensures var b := Share(x.pool, x.periodDays); b != 0.0 && (b > 0.0 <==> x.pool > 0)
  {
    var d := x.periodDays as real;
    Undo(Rat(x.pool), d);
    Cancel(0.0, Share(x.pool, x.periodDays), d);
  }

  /** An adaptive read that Calculate accepts. */
  predicate Adapts(x: Inputs) {
    x.periodDays > 0 && x.DaysLeft() > 0 && x.mode.Adaptive? && x.pool != 0
  }

  /** A read in either mode that Calculate accepts. */
  predicate Accepts(x: Inputs) {
    x.periodDays > 0 && x.DaysLeft() > 0 && !x.mode.UnknownMode? && x.pool != 0
  }

  /** What both modes report of the pool, exactly on the reads that are accepted: the
      Available Pool is what future spend leaves, and the Baseline Daily Budget its
      share of every day, rounded down. */
  lemma PoolFigures(x: Inputs)
    ensures Calculate(x).Ok? <==> Accepts(x)
    ensures Calculate(x).Ok? ==>
              var f := Calculate(x).figures; f.available + x.future == x.pool && f.baseline == x.pool / x.periodDays
  {
    if Accepts(x) { FloorOfShare(x.pool, x.periodDays); }
  }

  /** In adaptive mode the allowance and the forward rate are integer quotients of
      what is left, rounded down, in units of 0.0001. */
  lemma AdaptiveFigures(x: Inputs)
    requires Adapts(x)
    ensures Calculate(x).Ok?
    ensures var f := Calculate(x).figures;
            && f.allowance == x.Remaining() / x.DaysLeft()
            && f.left == f.allowance - x.today
            && (x.DaysLeft() == 1 <==> f.forward.None?)
            && (x.DaysLeft() > 1 ==> f.forward == Some((x.Remaining() - x.today) / (x.DaysLeft() - 1)))
  {
    FloorOfShare(x.Remaining(), x.DaysLeft());
    assert Rat(x.pool - x.future) - Rat(x.settled) == Rat(x.Remaining());
    if x.DaysLeft() > 1 {
      FloorOfShare(x.Remaining() - x.today, x.DaysLeft() - 1);
      assert Rat(x.Remaining()) - Rat(x.today) == Rat(x.Remaining() - x.today);
    }
  }

  /** In fixed mode the allowance is the Baseline Daily Budget, whatever has been
      spent; the forward rate still shares out what is left. */
  lemma FixedFigures(x: Inputs)
    requires Accepts(x) && x.mode.Fixed?
    ensures Calculate(x).Ok?
    ensures var f := Calculate(x).figures;
            && f.allowance == f.baseline == x.pool / x.periodDays
            && f.left == f.allowance - x.today
            && (x.DaysLeft() == 1 <==> f.forward.None?)
            && (x.DaysLeft() > 1 ==> f.forward == Some((x.Remaining() - x.today) / (x.DaysLeft() - 1)))
  {
    FloorOfShare(x.pool, x.periodDays);
    if x.DaysLeft() > 1 {
      FloorOfShare(x.Remaining() - x.today, x.DaysLeft() - 1);
      assert Rat(x.pool - x.future) - Rat(x.settled) - Rat(x.today) == Rat(x.Remaining() - x.today);
    }
  }

  /** Variance is the nearest to `lead` over `days`, Buffer Days to `lead` over `pool`. */
  predicate RoundedFrom(variance: int, bufferDays: int, lead: int, days: int, pool: int)
    requires days > 0
  {
    && Nearest(variance, lead, days)
    && (pool > 0 ==> Nearest(bufferDays, 10000 * lead, pool))
    && (pool < 0 ==> Nearest(bufferDays, -(10000 * lead), -pool))
  }

  /** What P * e - S_settled * D comes to in units: D times the Trajectory Variance,
      and P times the Buffer Days. */
  function Lead(x: Inputs): int { x.pool * x.daysElapsed - x.settled * x.periodDays }

  /** Trajectory Variance and Buffer Days against whole numbers: each is the exact
      fraction's nearest multiple of 0.0001, for a pool of either sign. */
  lemma ReportedNearest(x: Inputs)
    requires Accepts(x)
    ensures Calculate(x).Ok?
    ensures var f := Calculate(x).figures; RoundedFrom(f.variance, f.bufferDays, Lead(x), x.periodDays, x.pool)
  {
    ExactNearest(x);
  }

  /** V / B, unrounded. */
  function ExactBufferDays(x: Inputs): real
    requires x.periodDays > 0 && x.pool != 0
  {
    BaselineNotZero(x);
    x.Variance() / Share(x.pool, x.periodDays)
  }

  lemma ExactNearest(x: Inputs)
    requires Accepts(x)
    ensures RoundedFrom(HalfUp4(x.Variance()), HalfUp4(ExactBufferDays(x)), Lead(x), x.periodDays, x.pool)
  {
    BaselineNotZero(x);
    LeadIs(x);
    Undo(Rat(x.pool), x.periodDays as real);
    FiguresNearest(x.Variance(), Share(x.pool, x.periodDays), x.periodDays, Lead(x), x.pool);
  }

  lemma FiguresNearest(v: real, b: real, d: int, n: int, pool: int)
    requires b != 0.0 && d > 0 && b * d as real == Rat(pool) && v * 10000.0 * d as real == n as real
    ensures RoundedFrom(HalfUp4(v), HalfUp4(v / b), n, d, pool)
  {
    NearestOf(v, n, d);
    BufferNearest(v, b, d as real, n, pool);
  }

  lemma BufferNearest(v: real, b: real, d: real, n: int, pool: int)
    requires d > 0.0 && b != 0.0 && b * d == Rat(pool) && v * 10000.0 * d == n as real
    ensures pool > 0 ==> Nearest(HalfUp4(v / b), 10000 * n, pool)
    ensures pool < 0 ==> Nearest(HalfUp4(v / b), -(10000 * n), -pool)
  {
    BufferTimesPool(b, d, v, n as real, pool);
    if pool > 0 { NearestOf(v / b, 10000 * n, pool); }
    if pool < 0 {
      assert v / b * 10000.0 * (-pool) as real == -(v / b * 10000.0 * pool as real);
      NearestOf(v / b, -(10000 * n), -pool);
    }
  }

  lemma LeadIs(x: Inputs)
    requires x.periodDays > 0
    ensures x.Variance() * 10000.0 * x.periodDays as real == Lead(x) as real
  {
    var d, e, b := x.periodDays as real, x.daysElapsed as real, Share(x.pool, x.periodDays);
    Undo(Rat(x.pool), d);
    assert b * d == Rat(x.pool);
    assert (b * e - Rat(x.settled)) * 10000.0 * d == (b * d) * e * 10000.0 - Rat(x.settled) * 10000.0 * d;
    assert Rat(x.pool) * e * 10000.0 == x.pool as real * e;
    assert (x.pool * x.daysElapsed) as real == x.pool as real * e;
    assert (x.settled * x.periodDays) as real == x.settled as real * d;
  }

  lemma BufferTimesPool(b: real, d: real, v: real, n: real, pool: int)
    requires d > 0.0 && b != 0.0 && b * d == Rat(pool) && v * 10000.0 * d == n
    ensures v / b * 10000.0 * pool as real == 10000.0 * n
  {
    var y := v / b;
    assert y * b == v;
    assert pool as real == b * d * 10000.0;
    assert y * 10000.0 * (b * d * 10000.0) == (y * b) * 10000.0 * d * 10000.0;
  }

  // ------------------------------------------------------------ from day to day

  /** The next day's read, today's spend having settled. */
  function Tomorrow(x: Inputs, spend: int): Inputs {
    x.(daysElapsed := x.daysElapsed + 1, settled := x.settled + x.today, today := spend)
  }

  /** Tomorrow's allowance is today's Forward Daily Rate, whatever is spent
      tomorrow; it does not fall if today stayed within its allowance, and does
      not rise if today did not. */
  lemma TomorrowsAllowance(x: Inputs, spend: int)
    requires Adapts(x) && x.DaysLeft() > 1
    ensures Calculate(x).Ok? && Calculate(Tomorrow(x, spend)).Ok?
    ensures var today, tomorrow := Calculate(x).figures, Calculate(Tomorrow(x, spend)).figures;
            && today.forward == Some(tomorrow.allowance)
            && (today.left >= 0 ==> tomorrow.allowance >= today.allowance)
            && (today.left < 0 ==> tomorrow.allowance <= today.allowance)
  {
    AdaptiveFigures(x);
    AdaptiveFigures(Tomorrow(x, spend));
    ShareAfterSpending(x.Remaining(), x.DaysLeft(), x.today);
  }

  lemma ShareAfterSpending(n: int, r: int, spend: int)
    requires r > 1
    ensures spend <= n / r ==> (n - spend) / (r - 1) >= n / r
    ensures spend > n / r ==> (n - spend) / (r - 1) <= n / r
  {
    var q, q' := n / r, (n - spend) / (r - 1);
    DivMod(n, r);
    DivMod(n - spend, r - 1);
    assert q * r == q * (r - 1) + q;
    ScaledOrder(q', q, r - 1);
    ScaledOrder(q, q', r - 1);
  }

  function Sum(spends: seq<int>): int { if spends == [] then 0 else spends[0] + Sum(spends[1..]) }

  /** The figures of each remaining day on which `spends` is spent, day by day. */
  ghost function Days(x: Inputs, spends: seq<int>): seq<Figures>
    requires Adapts(x) && |spends| <= x.DaysLeft()
    decreases |spends|
  {
    if spends == [] then []
    else
      var y := x.(today := spends[0]);
      AdaptiveFigures(y);
      [Calculate(y).figures] +
      if |spends| == 1 then [] else Days(Tomorrow(y, 0), spends[1..])
  }

  lemma {:induction false} DaysLength(x: Inputs, spends: seq<int>)
    requires Adapts(x) && |spends| <= x.DaysLeft()
    ensures |Days(x, spends)| == |spends|
    decreases |spends|
  {
    if |spends| > 1 { DaysLength(Tomorrow(x.(today := spends[0]), 0), spends[1..]); }
  }

  /** Keeping Left to Spend Today at zero or more on every remaining day keeps the
      total within the pool: nothing is overspent at the end of the period. */
  lemma {:induction false} StayingWithinAllowance(x: Inputs, spends: seq<int>)
    requires Adapts(x) && |spends| == x.DaysLeft()
    requires forall i :: 0 <= i < |Days(x, spends)| ==> Days(x, spends)[i].left >= 0
    ensures Sum(spends) <= x.Remaining()
    decreases |spends|
  {
    var y := x.(today := spends[0]);
    AdaptiveFigures(y);
    var days := Days(x, spends);
    assert days[0].left >= 0;
    if |spends| == 1 {
      assert spends[1..] == [];
    } else {
      var rest := Days(Tomorrow(y, 0), spends[1..]);
      assert forall i :: 0 <= i < |rest| ==> rest[i] == days[i + 1];
      StayingWithinAllowance(Tomorrow(y, 0), spends[1..]);
    }
  }

  /** Spending exactly Today's Allowance every remaining day. */
  ghost predicate SpendsAllowance(x: Inputs, spends: seq<int>)
    requires Adapts(x) && |spends| == x.DaysLeft()
    decreases |spends|
  {
    var y := x.(today := spends[0]);
    AdaptiveFigures(y);
    && spends[0] == Calculate(y).figures.allowance
    && (|spends| > 1 ==> SpendsAllowance(Tomorrow(y, 0), spends[1..]))
  }

  /** It can always be done. */
  lemma {:induction false} AllowanceCanBeSpent(x: Inputs) returns (spends: seq<int>)
    requires Adapts(x)
    ensures |spends| == x.DaysLeft() && SpendsAllowance(x, spends)
    decreases x.DaysLeft()
  {
    var today := x.Remaining() / x.DaysLeft();
    var y := x.(today := today);
    AdaptiveFigures(y);
    if x.DaysLeft() == 1 {
      spends := [today];
    } else {
      var rest := AllowanceCanBeSpent(Tomorrow(y, 0));
      spends := [today] + rest;
      assert spends[1..] == rest;
    }
  }

  /** The fair split: with quotient q and remainder m of what is left over the r
      days left, the first r - m days get q, the last m days get q + 0.0001, and
      the pool is exhausted exactly on the last day. */
  lemma {:induction false} FairSplit(x: Inputs, spends: seq<int>)
    requires Adapts(x) && |spends| == x.DaysLeft() && SpendsAllowance(x, spends)
    ensures var r, q, m := x.DaysLeft(), x.Remaining() / x.DaysLeft(), x.Remaining() % x.DaysLeft();
            forall i :: 0 <= i < r ==> spends[i] == if i < r - m then q else q + 1
    ensures Sum(spends) == x.Remaining()
    decreases |spends|
  {
    var y := x.(today := spends[0]);
    var n, r := x.Remaining(), x.DaysLeft();
    AdaptiveFigures(y);
    if r == 1 {
      assert spends[1..] == [];
      assert n / 1 == n && n % 1 == 0;
    } else {
      var rest := spends[1..];
      FairSplit(Tomorrow(y, 0), rest);
      SplitAfterShare(n, r);
      assert forall i :: 0 < i < r ==> spends[i] == rest[i - 1];
    }
  }

  /** Both in the reported figures: spending the allowance to the end spends the
      Available Pool less settled spend exactly, and staying within it spends no more. */
  lemma AvailableIsSpent(x: Inputs, spends: seq<int>)
    requires Adapts(x) && |spends| == x.DaysLeft()
    ensures Calculate(x).Ok?
    ensures SpendsAllowance(x, spends) ==> Sum(spends) == Calculate(x).figures.available - x.settled
    ensures (forall i :: 0 <= i < |Days(x, spends)| ==> Days(x, spends)[i].left >= 0) ==>
              Sum(spends) <= Calculate(x).figures.available - x.settled
  {
    PoolFigures(x);
    if SpendsAllowance(x, spends) { FairSplit(x, spends); }
    if forall i :: 0 <= i < |Days(x, spends)| ==> Days(x, spends)[i].left >= 0 { StayingWithinAllowance(x, spends); }
  }

  /** Taking one share of the floored quotient leaves a split with the same quotient
      and remainder, until only the larger shares are left. */
  lemma SplitAfterShare(n: int, r: int)
    requires r > 1
    ensures var q, m := n / r, n % r;
            var q', m' := (n - q) / (r - 1), (n - q) % (r - 1);
            if m < r - 1 then q' == q && m' == m else q' == q + 1 && m' == 0
  {
    var q, m := n / r, n % r;
    DivMod(n, r);
    assert q * r == q * (r - 1) + q;
    if m < r - 1 {
      DivModIs(n - q, r - 1, q, m);
    } else {
      assert (q + 1) * (r - 1) == q * (r - 1) + (r - 1);
      DivModIs(n - q, r - 1, q + 1, 0);
    }
  }

  lemma DivModIs(a: int, d: int, q: int, m: int)
    requires d > 0 && a == q * d + m && 0 <= m < d
    ensures a / d == q && a % d == m
  {
    DivMod(a, d);
    ScaledOrder(a / d, q, d);
    ScaledOrder(q, a / d, d);
  }

  // ------------------------------------------------------------ state

  function Rank(s: State): int { match s case Afloat => 2 case Drifting => 1 case TakingOnWater => 0 }

  /** More settled spend never improves the State, whatever the pool's sign and
      however the thresholds are ordered. */
  lemma MoreSpendNeverImproves(x: Inputs, more: int)
    requires Accepts(x) && x.settled <= more
    ensures Calculate(x).Ok?
    ensures Calculate(x.(settled := more)).Ok?
    ensures Rank(Calculate(x.(settled := more)).figures.state) <= Rank(Calculate(x).figures.state)
  {
    assert x.(settled := more).Variance() <= x.Variance();
  }

  /** The reported Buffer Days and the State agree on a threshold stored at 4dp, up
      to the rounding at the threshold itself; a negative pool turns the
      comparison round. */
  lemma BufferDaysMatchState(x: Inputs, threshold: int)
    requires Accepts(x) && x.daysElapsed >= x.parameters.warmUpDays
    requires x.parameters.driftingBelow == Rat(threshold)
    ensures Calculate(x).Ok?
    ensures var f := Calculate(x).figures;
            && (x.pool > 0 ==> (f.bufferDays > threshold ==> f.state.Afloat?)
                               && (f.state.Afloat? ==> f.bufferDays >= threshold))
            && (x.pool < 0 ==> (f.bufferDays < threshold ==> f.state.Afloat?)
                               && (f.state.Afloat? ==> f.bufferDays <= threshold))
  {
    BaselineNotZero(x);
    StateAgainst(Calculate(x).figures, x, threshold, x.Variance(), Share(x.pool, x.periodDays));
  }

  /** The same of the lower threshold, once the State is not Afloat. */
  lemma BufferDaysMatchWater(x: Inputs, threshold: int)
    requires Accepts(x) && x.daysElapsed >= x.parameters.warmUpDays
    requires x.parameters.takingOnWaterBelow == Rat(threshold)
    ensures Calculate(x).Ok?
    ensures var f := Calculate(x).figures;
            !f.state.Afloat? ==>
              && (x.pool > 0 ==> (f.bufferDays > threshold ==> f.state.Drifting?)
                                 && (f.state.Drifting? ==> f.bufferDays >= threshold))
              && (x.pool < 0 ==> (f.bufferDays < threshold ==> f.state.Drifting?)
                                 && (f.state.Drifting? ==> f.bufferDays <= threshold))
  {
    BaselineNotZero(x);
    if !Calculate(x).figures.state.Afloat? {
      WaterAgainst(Calculate(x).figures, x, threshold, x.Variance(), Share(x.pool, x.periodDays));
    }
  }

  lemma WaterAgainst(f: Figures, x: Inputs, threshold: int, v: real, b: real)
    requires b != 0.0 && f.bufferDays == HalfUp4(v / b)
    requires f.state == DecideState(x.daysElapsed, x.parameters, v, b) && !f.state.Afloat?
    requires x.daysElapsed >= x.parameters.warmUpDays && x.parameters.takingOnWaterBelow == Rat(threshold)
    ensures b > 0.0 ==> (f.bufferDays > threshold ==> f.state.Drifting?)
                        && (f.state.Drifting? ==> f.bufferDays >= threshold)
    ensures b < 0.0 ==> (f.bufferDays < threshold ==> f.state.Drifting?)
                        && (f.state.Drifting? ==> f.bufferDays <= threshold)
  {
    ThresholdAgainst(v, b, threshold);
  }

  lemma StateAgainst(f: Figures, x: Inputs, threshold: int, v: real, b: real)
    requires b != 0.0 && f.bufferDays == HalfUp4(v / b)
    requires f.state == DecideState(x.daysElapsed, x.parameters, v, b)
    requires x.daysElapsed >= x.parameters.warmUpDays && x.parameters.driftingBelow == Rat(threshold)
    ensures b > 0.0 ==> (f.bufferDays > threshold ==> f.state.Afloat?)
                        && (f.state.Afloat? ==> f.bufferDays >= threshold)
    ensures b < 0.0 ==> (f.bufferDays < threshold ==> f.state.Afloat?)
                        && (f.state.Afloat? ==> f.bufferDays <= threshold)
  {
    ThresholdAgainst(v, b, threshold);
  }

  lemma ThresholdAgainst(v: real, b: real, threshold: int)
    requires b != 0.0
    ensures b > 0.0 ==> (HalfUp4(v / b) > threshold ==> v >= Rat(threshold) * b)
                        && (v >= Rat(threshold) * b ==> HalfUp4(v / b) >= threshold)
    ensures b < 0.0 ==> (HalfUp4(v / b) < threshold ==> v >= Rat(threshold) * b)
                        && (v >= Rat(threshold) * b ==> HalfUp4(v / b) <= threshold)
  {
    CompareRatio(v, b, Rat(threshold));
    RoundedAgainst(v / b, threshold);
  }

  lemma RoundedAgainst(r: real, threshold: int)
    ensures HalfUp4(r) > threshold ==> r > Rat(threshold)
    ensures HalfUp4(r) < threshold ==> r < Rat(threshold)
  {
    HalfUpOfMoney(threshold);
    if r <= Rat(threshold) { HalfUpMonotone(r, Rat(threshold)); }
    if r >= Rat(threshold) { HalfUpMonotone(Rat(threshold), r); }
  }

  lemma CompareRatio(v: real, b: real, t: real)
    requires b != 0.0
    ensures b > 0.0 ==> (v >= t * b <==> v / b >= t)
    ensures b < 0.0 ==> (v >= t * b <==> v / b <= t)
  {
    var y := v / b;
    assert y * b == v;
    if b > 0.0 { Cancel(t, y, b); } else { Cancel(y, t, -b); }
  }

  /** The average pace so far, kept to the end, would overspend the pool. */
  predicate PaceOverspends(x: Inputs)
    requires x.daysElapsed > 0
  {
    Rat(x.settled) / x.daysElapsed as real * x.periodDays as real > Rat(x.pool)
  }

  /** That is the exact Variance below zero, for a pool of either sign. */
  lemma OverspendIsBehind(x: Inputs)
    requires x.periodDays > 0 && x.pool != 0 && x.daysElapsed > 0
    ensures PaceOverspends(x) <==> x.Variance() < 0.0
  {
    var e, d := x.daysElapsed as real, x.periodDays as real;
    Undo(Rat(x.pool), d);
    PaceAgainstBaseline(Share(x.pool, x.periodDays), e, d, Rat(x.settled));
  }

  lemma PaceAgainstBaseline(b: real, e: real, d: real, s: real)
    requires e > 0.0 && d > 0.0
    ensures s / e * d > b * d <==> b * e - s < 0.0
  {
    Undo(s, e);
    Cancel(s / e, b, e);
    Cancel(s / e, b, d);
  }

  lemma SignOfQuotient(v: real, b: real)
    requires b != 0.0
    ensures b > 0.0 ==> (v / b < 0.0 <==> v < 0.0)
    ensures b < 0.0 ==> (v / b < 0.0 <==> v > 0.0)
  {
    CompareRatio(v, b, 0.0);
    CompareRatio(-v, b, 0.0);
    assert (-v) / b == -(v / b);
  }

  /** Exactly when "exact Buffer Days below zero" and "the pace would overspend the
      pool" say the same: for a positive pool, and with settled spend dead on pace. */
  lemma NegativeBufferMeansOverspend(x: Inputs)
    requires x.periodDays > 0 && x.pool != 0 && x.daysElapsed > 0
    ensures (ExactBufferDays(x) < 0.0 <==> PaceOverspends(x)) <==> x.pool > 0 || x.Variance() == 0.0
  {
    BaselineNotZero(x);
    OverspendIsBehind(x);
    SignOfQuotient(x.Variance(), Share(x.pool, x.periodDays));
  }

  /** The reported Buffer Days are negative exactly when settled spend is off the
      pool's pace, ahead of a positive one or behind a negative one, by at least half
      of 0.0001 days' baseline. */
  lemma ReportedNegativeExactly(x: Inputs)
    requires Accepts(x)
    ensures Calculate(x).Ok?
    ensures x.pool > 0 ==> (Calculate(x).figures.bufferDays < 0
                            <==> 20000 * (x.settled * x.periodDays - x.pool * x.daysElapsed) >= x.pool)
    ensures x.pool < 0 ==> (Calculate(x).figures.bufferDays < 0
                            <==> 20000 * (x.pool * x.daysElapsed - x.settled * x.periodDays) >= -x.pool)
  {
    ReportedNearest(x);
    var days := Calculate(x).figures.bufferDays;
    if x.pool > 0 {
      NegativeNearest(days, 10000 * Lead(x), x.pool);
    } else {
      NegativeNearest(days, -(10000 * Lead(x)), -x.pool);
    }
  }

  lemma NegativeNearest(units: int, n: int, d: int)
    requires d > 0 && Nearest(units, n, d)
    ensures units < 0 <==> 2 * n <= -d
  {
    ScaledOrder(units, 0, d);
    NotNegative(units, d);
  }

  /** The State in whole numbers, for thresholds stored at 4dp and a pool of either
      sign: no rounding, and no division, takes part in it. */
  lemma StateInUnits(x: Inputs, drifting: int, water: int)
    requires Accepts(x) && x.daysElapsed >= x.parameters.warmUpDays
    requires x.parameters.driftingBelow == Rat(drifting) && x.parameters.takingOnWaterBelow == Rat(water)
    ensures Calculate(x).Ok?
    ensures Calculate(x).figures.state == StateFor(Lead(x), x.pool, drifting, water)
  {
    Undo(Rat(x.pool), x.periodDays as real);
    LeadIs(x);
    DecidedInUnits(x, x.Variance(), Share(x.pool, x.periodDays), x.periodDays, Lead(x), x.pool, drifting, water);
  }

  function StateFor(lead: int, pool: int, drifting: int, water: int): State {
    if 10000 * lead >= drifting * pool then Afloat
    else if 10000 * lead >= water * pool then Drifting
    else TakingOnWater
  }

  lemma DecidedInUnits(x: Inputs, v: real, b: real, d: int, n: int, pool: int, drifting: int, water: int)
    requires x.daysElapsed >= x.parameters.warmUpDays
    requires x.parameters.driftingBelow == Rat(drifting) && x.parameters.takingOnWaterBelow == Rat(water)
    requires d > 0 && b * d as real == Rat(pool) && v * 10000.0 * d as real == n as real
    ensures DecideState(x.daysElapsed, x.parameters, v, b) == StateFor(n, pool, drifting, water)
  {
    ThresholdInUnits(v, b, d, n, pool, drifting);
    ThresholdInUnits(v, b, d, n, pool, water);
  }

  lemma ThresholdInUnits(v: real, b: real, d: int, n: int, pool: int, threshold: int)
    requires d > 0 && b * d as real == Rat(pool) && v * 10000.0 * d as real == n as real
    ensures v >= Rat(threshold) * b <==> 10000 * n >= threshold * pool
  {
    var dr, t := d as real, Rat(threshold);
    Cancel(t * b, v, dr);
    assert (t * b) * dr == t * (b * dr);
    assert t * Rat(pool) * 100000000.0 == threshold as real * pool as real;
    assert (threshold * pool) as real == threshold as real * pool as real;
    assert v * dr * 10000.0 == v * 10000.0 * dr;
  }

  // ------------------------------------------------------------ the documented table

  /** State as the design documents it: a table on the exact Buffer Days, after
      warm-up. */
  function Documented(x: Inputs): State
    requires x.periodDays > 0 && x.pool != 0
  {
    var days := ExactBufferDays(x);
    if x.daysElapsed < x.parameters.warmUpDays || days >= x.parameters.driftingBelow then Afloat
    else if days >= x.parameters.takingOnWaterBelow then Drifting
    else TakingOnWater
  }

  /** Exactly when the State is the documented one: during warm-up, for a positive
      pool, and for a negative one whose Buffer Days are exactly at the upper
      threshold. */
  lemma DocumentedExactly(x: Inputs)
    requires Accepts(x)
    ensures Calculate(x).Ok?
    ensures Calculate(x).figures.state == Documented(x) <==>
            || x.daysElapsed < x.parameters.warmUpDays
            || x.pool > 0
            || ExactBufferDays(x) == x.parameters.driftingBelow
  {
    BaselineNotZero(x);
    DecidesByRatio(x, x.Variance(), Share(x.pool, x.periodDays));
  }

  /** With a negative pool the comparisons turn round: Afloat at or below the upper
      threshold, and Drifting only between thresholds stored in the wrong order. */
  lemma NegativePoolTurnsRound(x: Inputs)
    requires Accepts(x) && x.pool < 0 && x.daysElapsed >= x.parameters.warmUpDays
    ensures Calculate(x).Ok?
    ensures var state, days := Calculate(x).figures.state, ExactBufferDays(x);
            && (state.Afloat? <==> days <= x.parameters.driftingBelow)
            && (state.Drifting? <==> x.parameters.driftingBelow < days <= x.parameters.takingOnWaterBelow)
  {
    BaselineNotZero(x);
    DecidesByRatio(x, x.Variance(), Share(x.pool, x.periodDays));
  }

  lemma DecidesByRatio(x: Inputs, v: real, b: real)
    requires b != 0.0
    ensures var state, p := DecideState(x.daysElapsed, x.parameters, v, b), x.parameters;
            x.daysElapsed >= p.warmUpDays ==>
              && (b > 0.0 ==> (state.Afloat? <==> v / b >= p.driftingBelow)
                              && (state.TakingOnWater? <==> v / b < p.driftingBelow && v / b < p.takingOnWaterBelow))
              && (b < 0.0 ==> (state.Afloat? <==> v / b <= p.driftingBelow)
                              && (state.TakingOnWater? <==> v / b > p.driftingBelow && v / b > p.takingOnWaterBelow))
  {
    CompareRatio(v, b, x.parameters.driftingBelow);
    CompareRatio(v, b, x.parameters.takingOnWaterBelow);
  }

  /** A negative pool, five days in and nothing spent: five Buffer Days, and
      TakingOnWater where the table says Afloat; and Buffer Days above zero although
      the pace overspends the pool. */
  const InDebt := Inputs(-100000, 10, 5, 0, 0, 0, Adaptive, Parameters(3, -1.0, -3.0))

  lemma NegativePoolIsMisread()
    ensures Accepts(InDebt) && Calculate(InDebt).Ok?
    ensures Calculate(InDebt).figures.bufferDays == 50000 && Calculate(InDebt).figures.state == TakingOnWater
    ensures Documented(InDebt) == Afloat
    ensures ExactBufferDays(InDebt) > 0.0 && PaceOverspends(InDebt)
  {
    BaselineNotZero(InDebt);
    assert Share(InDebt.pool, InDebt.periodDays) == -1.0;
    assert InDebt.Variance() == -5.0;
    assert ExactBufferDays(InDebt) == 5.0;
    OverspendIsBehind(InDebt);
  }
}
