/** backend/internal/trajectory/target_line.go: the cumulative target line of a
    period whose Budget changes at day `effectiveDay`. */
module TargetLine {
  import opened Rounding

  datatype Line = Line(periodDays: int, effectiveDay: int, bOld: real, kink: real, bNew: real)
  {
    /** The days before the change. */
    function Before(): int { effectiveDay - 1 }

    /** The target through `day`, unrounded: the old baseline up to the change,
        then the new one, never below the kink. */
    function Exact(day: int): real {
      if day <= Before() then Times(bOld, day)
      else
        var candidate := kink + Times(bNew, day - Before());
        if candidate < kink then kink else candidate
    }

    /** At. */
    function At(day: int): int { HalfUp4(Exact(day)) }
  }

  datatype Result = Failed(reason: string) | Ok(line: Line)

  /** NewTargetLine. */
  function New(periodDays: int, before: int, after: int, effectiveDay: int): Result {
    if periodDays <= 0 then Failed("period_days must be positive")
    else if effectiveDay < 1 || effectiveDay > periodDays then Failed("effective_day out of range")
    else
      var bOld := Share(before, periodDays);
      var kink := Times(bOld, effectiveDay - 1);
      Ok(Line(periodDays, effectiveDay, bOld, kink, (Rat(after) - kink) / (periodDays - (effectiveDay - 1)) as real))
  }

  /** There is a line exactly for a period of days and a change on one of them, and it
      starts from nothing. */
  lemma LineStarts(before: int, after: int, periodDays: int, effectiveDay: int)
    ensures New(periodDays, before, after, effectiveDay).Ok? <==> 1 <= effectiveDay <= periodDays
    ensures 1 <= effectiveDay <= periodDays ==> New(periodDays, before, after, effectiveDay).line.At(0) == 0
  {
    if 1 <= effectiveDay <= periodDays { BeforeInUnits(before, after, periodDays, effectiveDay, 0); }
  }

  lemma TimesMonotone(b: real, i: int, j: int)
    requires i <= j
    ensures b >= 0.0 ==> Times(b, i) <= Times(b, j)
    ensures b <= 0.0 ==> Times(b, i) >= Times(b, j)
  {
    var k := (j - i) as real;
    assert b * j as real == b * i as real + b * k;
    assert b >= 0.0 ==> b * k >= 0.0;
    assert b <= 0.0 ==> b * k <= 0.0;
  }

  lemma SignOfShare(units: int, days: int)
    requires days > 0
    ensures Share(units, days) >= 0.0 <==> units >= 0
  {
    Undo(Rat(units), days as real);
    Cancel(0.0, Rat(units) / days as real, days as real);
  }

  /** From the change on, the line is the kink plus a nonnegative slope. */
  lemma AfterChange(line: Line, day: int)
    requires day >= line.Before() && line.kink == Times(line.bOld, line.Before())
    ensures var slope := if line.bNew < 0.0 then 0.0 else line.bNew;
            line.Exact(day) == line.kink + Times(slope, day - line.Before()) >= line.kink
  {
    var n := (day - line.Before()) as real;
    assert line.bNew >= 0.0 ==> line.bNew * n >= 0.0;
    assert n > 0.0 && line.bNew < 0.0 ==> line.bNew * n < 0.0;
  }

  /** Both branches give the same value at the day before the change: the line has
      no jump, and from there on it never falls below that value. */
  lemma ContinuousAtKink(before: int, after: int, periodDays: int, effectiveDay: int, day: int)
    requires New(periodDays, before, after, effectiveDay).Ok? && day >= effectiveDay - 1
    ensures var line := New(periodDays, before, after, effectiveDay).line;
            && line.Exact(effectiveDay - 1) == line.kink
            && line.At(day) >= line.At(effectiveDay - 1)
  {
    var line := New(periodDays, before, after, effectiveDay).line;
    AfterChange(line, day);
    HalfUpMonotone(line.kink, line.Exact(day));
  }

  /** The exact line rises or stays level from one day to a later one if the old
      pool is not negative, or the change is already in force. */
  lemma ExactMonotone(before: int, after: int, periodDays: int, effectiveDay: int, i: int, j: int)
    requires New(periodDays, before, after, effectiveDay).Ok? && i <= j
    requires before >= 0 || effectiveDay - 1 <= i
    ensures var line := New(periodDays, before, after, effectiveDay).line; line.Exact(i) <= line.Exact(j)
  {
    SignOfShare(before, periodDays);
    LineRises(New(periodDays, before, after, effectiveDay).line, i, j);
  }

  lemma LineRises(line: Line, i: int, j: int)
    requires line.kink == Times(line.bOld, line.Before()) && i <= j
    requires line.bOld >= 0.0 || line.Before() <= i
    ensures line.Exact(i) <= line.Exact(j)
  {
    if i == j {
    } else if j <= line.Before() {
      TimesMonotone(line.bOld, i, j);
    } else {
      AfterChange(line, j);
      if i < line.Before() {
        TimesMonotone(line.bOld, i, line.Before());
      } else {
        AfterChange(line, i);
        TimesMonotone(if line.bNew < 0.0 then 0.0 else line.bNew, i - line.Before(), j - line.Before());
      }
    }
  }

  /** The reported line never falls over a period with a nonnegative old pool. */
  lemma NeverFalls(before: int, after: int, periodDays: int, effectiveDay: int, i: int, j: int)
    requires New(periodDays, before, after, effectiveDay).Ok? && i <= j
    requires before >= 0 || effectiveDay - 1 <= i
    ensures var line := New(periodDays, before, after, effectiveDay).line; line.At(i) <= line.At(j)
  {
    var line := New(periodDays, before, after, effectiveDay).line;
    ExactMonotone(before, after, periodDays, effectiveDay, i, j);
    HalfUpMonotone(line.Exact(i), line.Exact(j));
  }

  /** Before the change a negative pool's line only falls. */
  lemma NegativeFalls(line: Line, i: int, j: int)
    requires line.bOld <= 0.0 && i <= j <= line.Before()
    ensures line.At(i) >= line.At(j)
  {
    TimesMonotone(line.bOld, i, j);
    HalfUpMonotone(line.Exact(j), line.Exact(i));
  }

  /** The reported line on a day up to the change, in whole units. */
  lemma BeforeInUnits(before: int, after: int, periodDays: int, effectiveDay: int, day: int)
    requires New(periodDays, before, after, effectiveDay).Ok? && day < effectiveDay
    ensures New(periodDays, before, after, effectiveDay).line.At(day) == HalfUpQuotient(before * day, periodDays)
  {
    HalfUpOfShare(before, periodDays, day);
  }

  /** Exactly when the reported line never falls over the days from `first` to D:
      the old pool is not negative, the change is in force by then, or the old pool
      is so small that rounding shows no fall from `first` to the change. */
  lemma NeverFallsExactly(before: int, after: int, periodDays: int, effectiveDay: int, first: int)
    requires New(periodDays, before, after, effectiveDay).Ok?
    ensures var line := New(periodDays, before, after, effectiveDay).line;
            (forall i, j :: first <= i <= j <= periodDays ==> line.At(i) <= line.At(j))
            <==> || before >= 0
                 || effectiveDay - 1 <= first
                 || HalfUpQuotient(before * first, periodDays)
                    == HalfUpQuotient(before * (effectiveDay - 1), periodDays)
  {
    var line, kinkDay := New(periodDays, before, after, effectiveDay).line, effectiveDay - 1;
    if before >= 0 || kinkDay <= first {
      forall i, j | first <= i <= j <= periodDays ensures line.At(i) <= line.At(j) {
        NeverFalls(before, after, periodDays, effectiveDay, i, j);
      }
    } else {
      SignOfShare(before, periodDays);
      BeforeInUnits(before, after, periodDays, effectiveDay, first);
      BeforeInUnits(before, after, periodDays, effectiveDay, kinkDay);
      NegativeFalls(line, first, kinkDay);
      if line.At(first) == line.At(kinkDay) {
        forall i, j | first <= i <= j <= periodDays ensures line.At(i) <= line.At(j) {
          LevelThenRises(before, after, periodDays, effectiveDay, first, i, j);
        }
      }
    }
  }

  lemma LevelThenRises(before: int, after: int, periodDays: int, effectiveDay: int, first: int, i: int, j: int)
    requires New(periodDays, before, after, effectiveDay).Ok? && before < 0 && first <= i <= j
    requires var line := New(periodDays, before, after, effectiveDay).line;
             first < line.Before() && line.At(first) == line.At(line.Before())
    ensures var line := New(periodDays, before, after, effectiveDay).line; line.At(i) <= line.At(j)
  {
    var line := New(periodDays, before, after, effectiveDay).line;
    SignOfShare(before, periodDays);
    if i <= line.Before() { NegativeFalls(line, first, i); }
    if j <= line.Before() {
      NegativeFalls(line, j, line.Before());
    } else if i <= line.Before() {
      NeverFalls(before, after, periodDays, effectiveDay, line.Before(), j);
    } else {
      NeverFalls(before, after, periodDays, effectiveDay, i, j);
    }
  }

  /** Over the whole period from day 0 that is a bound on the old pool: the target
      reached by the change is less than half a unit below zero. */
  lemma NeverFallsFromZero(before: int, after: int, periodDays: int, effectiveDay: int)
    requires New(periodDays, before, after, effectiveDay).Ok?
    ensures var line := New(periodDays, before, after, effectiveDay).line;
            (forall i, j :: 0 <= i <= j <= periodDays ==> line.At(i) <= line.At(j))
            <==> before >= 0 || 2 * (-before * (effectiveDay - 1)) < periodDays
  {
    NeverFallsExactly(before, after, periodDays, effectiveDay, 0);
    RoundsToZero(before * 0, periodDays);
    RoundsToZero(before * (effectiveDay - 1), periodDays);
    NegateProduct(before, effectiveDay - 1);
    SignOfProduct(before, effectiveDay - 1);
  }

  lemma SignOfProduct(a: int, k: int)
    requires k >= 0
    ensures a >= 0 ==> a * k >= 0
    ensures a < 0 ==> a * k <= 0
  {
  }

  /** A negative pool's reported line does fall: three days, 0.0003 owed. */
  lemma NegativePoolFalls()
    ensures New(3, -3, 0, 3).Ok? && New(3, -3, 0, 3).line.At(1) > New(3, -3, 0, 3).line.At(2)
  {
    BeforeInUnits(-3, 0, 3, 3, 1);
    BeforeInUnits(-3, 0, 3, 3, 2);
  }

  /** On the last day the line stands at the new pool, or at the kink if the new
      pool is below it; it reports the new pool exactly when the kink does not
      round to more. */
  lemma EndsAtNewPool(before: int, after: int, periodDays: int, effectiveDay: int)
    requires New(periodDays, before, after, effectiveDay).Ok?
    ensures var line := New(periodDays, before, after, effectiveDay).line;
            && line.At(periodDays) == (if Rat(after) >= line.kink then after else HalfUp4(line.kink))
            && (line.At(periodDays) == after <==> HalfUpQuotient(before * (effectiveDay - 1), periodDays) <= after)
  {
    var line := New(periodDays, before, after, effectiveDay).line;
    EndsAt(before, after, periodDays, effectiveDay);
    HalfUpOfShare(before, periodDays, effectiveDay - 1);
    AgainstKink(line.kink, after);
  }

  /** Both sides of it: a Budget cut to 0 from 0.0010 ends at its kink, 0.0003; from
      0.0001 the kink is above 0 but does not show. */
  lemma CutBudgetEndsAtKink()
    ensures New(10, 10, 0, 4).Ok? && New(10, 10, 0, 4).line.At(10) != 0
    ensures New(10, 1, 0, 4).Ok? && New(10, 1, 0, 4).line.kink > 0.0 && New(10, 1, 0, 4).line.At(10) == 0
  {
    EndsAtNewPool(10, 0, 10, 4);
    EndsAtNewPool(1, 0, 10, 4);
  }

  lemma EndsAt(before: int, after: int, periodDays: int, effectiveDay: int)
    requires New(periodDays, before, after, effectiveDay).Ok?
    ensures var line := New(periodDays, before, after, effectiveDay).line;
            line.Exact(periodDays) == if Rat(after) >= line.kink then Rat(after) else line.kink
  {
    var line := New(periodDays, before, after, effectiveDay).line;
    Undo(Rat(after) - line.kink, (periodDays - line.Before()) as real);
    assert line.kink + Times(line.bNew, periodDays - line.Before()) == Rat(after);
  }

  lemma AgainstKink(kink: real, after: int)
    ensures HalfUp4(Rat(after)) == after
    ensures Rat(after) >= kink ==> HalfUp4(kink) <= after
    ensures Rat(after) < kink ==> HalfUp4(kink) >= after
  {
    HalfUpOfMoney(after);
    if kink <= Rat(after) { HalfUpMonotone(kink, Rat(after)); } else { HalfUpMonotone(Rat(after), kink); }
  }

  /** The slope a Budget that does not change gets is the slope it had. */
  lemma SlopeUnchanged(pool: int, periodDays: int, effectiveDay: int)
    requires New(periodDays, pool, pool, effectiveDay).Ok?
    ensures var line := New(periodDays, pool, pool, effectiveDay).line; line.bNew == line.bOld
  {
    var line := New(periodDays, pool, pool, effectiveDay).line;
    var b, rest := line.bOld, (periodDays - line.Before()) as real;
    Undo(Rat(pool), periodDays as real);
    assert b * periodDays as real == b * line.Before() as real + b * rest;
    Undo(Rat(pool) - line.kink, rest);
    Cancel(line.bNew, b, rest);
  }

  /** A Budget that does not change: the unrounded line is the plain baseline up to
      the change and for a nonnegative pool; a negative one is clamped flat. */
  lemma UnchangedPoolLine(pool: int, periodDays: int, effectiveDay: int, day: int)
    requires New(periodDays, pool, pool, effectiveDay).Ok?
    ensures var line := New(periodDays, pool, pool, effectiveDay).line;
            line.Exact(day) == Times(line.bOld, if pool >= 0 || day < effectiveDay then day else line.Before())
  {
    var line := New(periodDays, pool, pool, effectiveDay).line;
    var b, n := line.bOld, (day - line.Before()) as real;
    SignOfShare(pool, periodDays);
    SlopeUnchanged(pool, periodDays, effectiveDay);
    assert b * day as real == b * line.Before() as real + b * n;
    if day > line.Before() {
      AfterChange(line, day);
      assert b < 0.0 ==> b * n < 0.0;
    }
  }

  /** Exactly when the reported line of an unchanged Budget is the plain baseline's:
      a nonnegative pool, a day before the change, or a pool so small that the
      baseline rounds the same on that day as at the change. */
  lemma UnchangedPoolKeepsBaseline(pool: int, periodDays: int, effectiveDay: int, day: int)
    requires New(periodDays, pool, pool, effectiveDay).Ok?
    ensures New(periodDays, pool, pool, effectiveDay).line.At(day) == HalfUpQuotient(pool * day, periodDays)
            <==> || pool >= 0
                 || day < effectiveDay
                 || HalfUpQuotient(pool * day, periodDays) == HalfUpQuotient(pool * (effectiveDay - 1), periodDays)
  {
    UnchangedPoolLine(pool, periodDays, effectiveDay, day);
    HalfUpOfShare(pool, periodDays, day);
    HalfUpOfShare(pool, periodDays, effectiveDay - 1);
  }

  /** A negative pool's unchanged line does leave its baseline: two days, 0.0002 owed. */
  lemma NegativePoolLeavesBaseline()
    ensures New(2, -2, -2, 1).Ok? && New(2, -2, -2, 1).line.At(2) == 0 && HalfUpQuotient(-2 * 2, 2) == -2
  {
    UnchangedPoolLine(-2, 2, 1, 2);
    HalfUpOfShare(-2, 2, 0);
  }
}
