/** What every run of the login machine keeps of the backoff: each row counts
    exactly the failures since its key was last cleared, deadlines only move
    later, and one recorded failure stops all but the attempts already being
    checked. */
module LoginThrottle {
  import opened Backoff
  import opened LoginProtocol

  /** The event records a failure for `key`, here or in the other backend. */
  predicate Records(s: State, e: Event, key: string) {
    || e == RecordElsewhere(key)
    || (&& e.Step? && e.p in s.attempts
        && var x := s.attempts[e.p];
           x.pc.Record? && x.pc.i < |x.keys| && x.keys[x.pc.i] == key && e.a == Write(true))
  }

  /** The event clears `key`, here or there. */
  predicate Clears(s: State, e: Event, key: string) {
    || (e.ClearElsewhere? && key in e.keys)
    || (&& e.Step? && e.p in s.attempts
        && var x := s.attempts[e.p];
           x.pc.ClearRows? && key in x.keys && e.a == Write(true))
  }

  /** The last event of the run did. */
  predicate Recorded(tr: Trace, key: string) { tr.Then? && Records(tr.prev.s, tr.e, key) }

  predicate Cleared(tr: Trace, key: string) { tr.Then? && Clears(tr.prev.s, tr.e, key) }

  /** The failures recorded for `key` since it was last cleared, on top of what
      the table held at the start if it never was. */
  ghost function FailuresSinceClear(tr: Trace, key: string): nat {
    if tr.Start? then (if key in tr.s.rows then tr.s.rows[key].failures else 0)
    else if Cleared(tr, key) then 0
    else if Recorded(tr, key) then FailuresSinceClear(tr.prev, key) + 1
    else FailuresSinceClear(tr.prev, key)
  }

  /** When `key`'s last failure was recorded, the table's own word for it if it was
      before the run. */
  ghost function LastRecordedAt(tr: Trace, key: string): int {
    if tr.Start? then (if key in tr.s.rows then tr.s.rows[key].updated else 0)
    else if Recorded(tr, key) then tr.s.clock
    else LastRecordedAt(tr.prev, key)
  }

  /** What one event makes of one key's row. */
  predicate RowMoves(s: State, e: Event, s': State, key: string) {
    && (Clears(s, e, key) ==> key !in s'.rows)
    && (!Clears(s, e, key) && !Records(s, e, key) ==>
          && (key in s'.rows <==> key in s.rows)
          && (key in s'.rows ==> s'.rows[key] == s.rows[key]))
    && (Records(s, e, key) ==>
          && key in s'.rows
          && s'.rows[key].failures == (if key in s.rows then s.rows[key].failures else 0) + 1
          && s'.rows[key].updated == s'.clock == s.clock
          && (key in s.rows ==> s.rows[key].until <= s'.rows[key].until))
  }

  /** How one event changes one key's row: cleared, counted once more, or left alone. */
  lemma RowAfterEvent(c: Config, s: State, e: Event, s': State, key: string)
    requires c.CurveIsValid() && Inv(c, s) && Next(c, s, e, s')
    ensures RowMoves(s, e, s', key)
  {
    if e.Step? {
      RowAfterStep(c, s, e.p, e.a, key);
    } else if e.RecordElsewhere? {
      RecordKeepsCurve(s.rows, e.key, s.clock, c.first, c.max);
    }
  }

  lemma RowAfterStep(c: Config, s: State, p: Pid, a: Action, key: string)
    requires c.CurveIsValid() && Inv(c, s) && p in s.attempts && Enabled(s, s.attempts[p], a)
    ensures RowMoves(s, Step(p, a), After(c, s, p, a), key)
  {
    var x := s.attempts[p];
    assert AttemptOk(x, s.peak);
    if x.pc.Record? { RecordKeepsCurve(s.rows, x.keys[x.pc.i], s.clock, c.first, c.max); }
  }

  /** Along every run a key has a row exactly when failures were recorded since
      its last clear, and the row counts exactly those and dates the last. */
  lemma {:induction false} RowCountsFailuresSinceClear(c: Config, tr: Trace, key: string)
    requires Execution(c, tr)
    ensures key in tr.s.rows <==> FailuresSinceClear(tr, key) > 0
    ensures key in tr.s.rows ==>
              && tr.s.rows[key].failures == FailuresSinceClear(tr, key)
              && tr.s.rows[key].updated == LastRecordedAt(tr, key)
  {
    if tr.Then? {
      RowCountsFailuresSinceClear(c, tr.prev, key);
      ReachableInv(c, tr.prev);
      RowAfterEvent(c, tr.prev.s, tr.e, tr.s, key);
    }
  }

  /** The deadline of a key is the moment its last failure was recorded plus the
      curve's window for the failures since its last clear: at least `first` and at
      most `max` later. */
  lemma DeadlineFollowsCurve(c: Config, tr: Trace, key: string)
    requires Execution(c, tr) && key in tr.s.rows
    ensures var until, last, n := tr.s.rows[key].until, LastRecordedAt(tr, key), FailuresSinceClear(tr, key);
            && last <= tr.s.clock
            && n >= 1
            && until == last + CappedDoubling(c.first, c.max, n - 1)
            && last + c.first <= until <= last + c.max
  {
    ReachableInv(c, tr);
    RowCountsFailuresSinceClear(c, tr, key);
    NeverLockedOut(tr.s.rows[key], tr.s.clock, c.first, c.max);
  }

  // ------------------------------------------------------------ what a 429 announces

  /** In `s`, waiting `n` seconds passes the deadline of every one of `keys`, and one
      that is ahead by at most one second. */
  predicate Announces(s: State, keys: seq<string>, n: int) {
    && (forall k :: k in keys && k in s.rows ==> s.rows[k].until < s.clock + n * 1_000_000)
    && (exists k :: k in keys && k in s.rows && s.clock < s.rows[k].until
                    && s.clock + n * 1_000_000 <= s.rows[k].until + 1_000_000)
  }

  predicate IsRead(pc: Pc) { pc.FirstRead? || pc.SecondRead? }

  /** One of attempt `p`'s backoff reads was answered when `n` was the wait to announce. */
  ghost predicate WasAnnounced(tr: Trace, p: Pid, n: int) {
    tr.Then? &&
    (|| WasAnnounced(tr.prev, p, n)
     || (&& tr.e == Step(p, Query(true)) && p in tr.prev.s.attempts && IsRead(tr.prev.s.attempts[p].pc)
         && Announces(tr.prev.s, tr.prev.s.attempts[p].keys, n)))
  }

  /** The attempt has answered 429 with `n`, or is on its way to. */
  predicate Refusing(x: Attempt, n: int) {
    match x.pc
    case CountOut(next) => next == Refuse(TooManyAttempts(n)) || next == Finish(TooManyAttempts(n))
    case FreeToken(next) => next == Refuse(TooManyAttempts(n)) || next == Finish(TooManyAttempts(n))
    case Returning(answer) => answer == TooManyAttempts(n)
    case Done(answer) => answer == TooManyAttempts(n)
    case _ => false
  }

  lemma StepAnnounces(c: Config, s: State, x: Attempt, a: Action, n: int)
    requires Enabled(s, x, a) && Refusing(Moved(c, s, x, a), n) && !Refusing(x, n)
    ensures a == Query(true) && IsRead(x.pc) && Announces(s, x.keys, n)
  {
    var wait := Remaining(s.rows, x.keys, s.clock);
    if IsRead(x.pc) && wait > 0 { RetryAfterLandsJustPast(s.rows, x.keys, s.clock); }
  }

  /** In every run, the Retry-After of a 429 is what the read it was refused by called
      for: past every deadline of the attempt's keys, one of them by at most a second. */
  lemma {:induction false} RetryAfterIsAnnounced(c: Config, tr: Trace, p: Pid, n: int)
    requires Execution(c, tr) && p in tr.s.attempts && Refusing(tr.s.attempts[p], n)
    ensures WasAnnounced(tr, p, n)
  {
    if tr.Then? {
      if tr.e.Step? && tr.e.p == p {
        var x := tr.prev.s.attempts[p];
        if Refusing(x, n) {
          RetryAfterIsAnnounced(c, tr.prev, p, n);
        } else {
          StepAnnounces(c, tr.prev.s, x, tr.e.a, n);
        }
      } else {
        OthersKept(c, tr.prev.s, tr.e, tr.s, p);
        RetryAfterIsAnnounced(c, tr.prev, p, n);
      }
    }
  }

  // ------------------------------------------------------------ the burst

  /** An attempt sharing `key` that has passed its read under the permit and is
      about to have its password checked. */
  predicate PastSecondRead(s: State, p: Pid, key: string) {
    p in s.attempts && s.attempts[p].pc.Verify? && key in s.attempts[p].keys
  }

  /** The attempts sharing `key` whose password check happened in the run, in order. */
  ghost function Checked(tr: Trace, key: string): seq<Pid> {
    if tr.Start? then []
    else if tr.e.Step? && PastSecondRead(tr.prev.s, tr.e.p, key) then Checked(tr.prev, key) + [tr.e.p]
    else Checked(tr.prev, key)
  }

  ghost predicate EverCleared(tr: Trace, key: string) {
    tr.Then? && (Cleared(tr, key) || EverCleared(tr.prev, key))
  }

  ghost predicate Distinct(ps: seq<Pid>) {
    forall i, j :: 0 <= i < j < |ps| ==> ps[i] != ps[j]
  }

  lemma {:induction false} ClockOnlyAdvances(c: Config, tr: Trace)
    requires c.CurveIsValid() && tr.Valid(c)
    ensures tr.First().clock <= tr.s.clock
  {
    if tr.Then? { ClockOnlyAdvances(c, tr.prev); }
  }

  lemma {:induction false} DeadlineHoldsUntilCleared(c: Config, tr: Trace, key: string)
    requires c.CurveIsValid() && tr.Valid(c) && Inv(c, tr.First())
    requires key in tr.First().rows && !EverCleared(tr, key)
    ensures key in tr.s.rows && tr.First().rows[key].until <= tr.s.rows[key].until
  {
    if tr.Then? {
      DeadlineHoldsUntilCleared(c, tr.prev, key);
      ValidKeepsInv(c, tr.prev);
      RowAfterEvent(c, tr.prev.s, tr.e, tr.s, key);
    }
  }

  /** A deadline still ahead turns back whoever reads it. */
  lemma ReaderTurnsBack(c: Config, s: State, x: Attempt, a: Action, key: string)
    requires Enabled(s, x, a) && key in s.rows && s.clock < s.rows[key].until && key in x.keys
    ensures !Moved(c, s, x, a).pc.Verify?
  {
    assert Remaining(s.rows, x.keys, s.clock) > 0;
  }

  /** So no attempt sharing the key newly passes its second read. */
  lemma ThrottledAttemptStaysOut(c: Config, s: State, e: Event, s': State, q: Pid, key: string)
    requires c.CurveIsValid() && Next(c, s, e, s')
    requires key in s.rows && s.clock < s.rows[key].until
    requires PastSecondRead(s', q, key)
    ensures PastSecondRead(s, q, key) && !(e.Step? && e.p == q)
  {
    if e.Step? && e.p == q {
      assert Moved(c, s, s.attempts[q], e.a).keys == s.attempts[q].keys;
      ReaderTurnsBack(c, s, s.attempts[q], e.a, key);
    }
  }

  /** While the deadline is ahead and the key is not cleared, whoever is checked
      had passed its second read at the start, and is checked once. */
  lemma {:induction false} OnlyThoseInsideAreChecked(c: Config, tr: Trace, key: string)
    requires c.CurveIsValid() && tr.Valid(c) && Inv(c, tr.First())
    requires key in tr.First().rows && !EverCleared(tr, key)
    requires tr.s.clock < tr.First().rows[key].until
    ensures Distinct(Checked(tr, key))
    ensures forall q :: q in Checked(tr, key) ==> PastSecondRead(tr.First(), q, key) && !PastSecondRead(tr.s, q, key)
    ensures forall q :: PastSecondRead(tr.s, q, key) ==> PastSecondRead(tr.First(), q, key)
  {
    if tr.Then? {
      var s := tr.prev.s;
      OnlyThoseInsideAreChecked(c, tr.prev, key);
      DeadlineHoldsUntilCleared(c, tr.prev, key);
      forall q | PastSecondRead(tr.s, q, key) ensures PastSecondRead(s, q, key) && !(tr.e.Step? && tr.e.p == q) {
        ThrottledAttemptStaysOut(c, s, tr.e, tr.s, q, key);
      }
    }
  }

  lemma {:induction false} DistinctFit(ps: seq<Pid>, inside: set<Pid>)
    requires Distinct(ps) && forall p :: p in ps ==> p in inside
    ensures |ps| <= |inside|
  {
    if ps != [] {
      var last := ps[|ps| - 1];
      var rest := ps[..|ps| - 1];
      assert last in ps;
      forall p | p in rest ensures p in inside - {last} {
        assert p in ps;
      }
      DistinctFit(rest, inside - {last});
    }
  }

  /** The burst bound. `before` is any run of the process, at whose end attempt
      `p` records a failure for `key` with a deadline; `after` is any continuation,
      in any interleaving, that ends before that deadline without the key being
      cleared. At most CAP - 1 further attempts sharing the key are checked, each
      once, and every one of them was already past its read under the permit, and
      holding its permit, when the failure was written. The other backend may record
      failures meanwhile; its own attempts have its own permits. */
  lemma BurstBound(c: Config, before: Trace, p: Pid, key: string, after: Trace)
    requires Execution(c, before) && p in before.s.attempts
    requires Enabled(before.s, before.s.attempts[p], Write(true))
    requires Recorded(Then(before, Step(p, Write(true)), after.First()), key)
    requires after.First() == After(c, before.s, p, Write(true))
    requires after.Valid(c) && !EverCleared(after, key)
    requires key in after.First().rows ==> after.s.clock < after.First().rows[key].until
    ensures |Checked(after, key)| <= 3
    ensures Distinct(Checked(after, key))
    ensures forall q :: q in Checked(after, key) ==>
              q != p && PastSecondRead(before.s, q, key) && q in Holders(before.s)
  {
    var s := after.First();
    var now := Then(before, Step(p, Write(true)), s);
    ReachableInv(c, before);
    ReachableInv(c, now);
    assert AttemptOk(before.s.attempts[p], before.s.peak);
    RowAfterEvent(c, before.s, now.e, s, key);
    OnlyThoseInsideAreChecked(c, after, key);
    InsideFit(s, p, key, Checked(after, key));
    forall q | q in Checked(after, key)
      ensures q != p && PastSecondRead(before.s, q, key) && q in Holders(before.s)
    {
      assert PastSecondRead(s, q, key);
    }
  }

  /** A failure the other backend records stops everyone here but the attempts already
      past their second read: at most CAP of them. */
  lemma BurstBoundElsewhere(c: Config, before: Trace, key: string, after: Trace)
    requires Execution(c, before) && Next(c, before.s, RecordElsewhere(key), after.First())
    requires after.Valid(c) && !EverCleared(after, key)
    requires key in after.First().rows ==> after.s.clock < after.First().rows[key].until
    ensures |Checked(after, key)| <= 4
    ensures Distinct(Checked(after, key))
    ensures forall q :: q in Checked(after, key) ==> PastSecondRead(before.s, q, key) && q in Holders(before.s)
  {
    var s := after.First();
    ReachableInv(c, before);
    NextKeepsInv(c, before.s, RecordElsewhere(key), s);
    RowAfterEvent(c, before.s, RecordElsewhere(key), s, key);
    OnlyThoseInsideAreChecked(c, after, key);
    forall q | q in Checked(after, key) ensures q in Holders(s) && q in Holders(before.s) {
      assert PastSecondRead(s, q, key);
    }
    DistinctFit(Checked(after, key), Holders(s));
  }

  /** Besides a permit holder that is past its own check, at most CAP - 1 attempts
      are past their second read. */
  lemma InsideFit(s: State, p: Pid, key: string, ps: seq<Pid>)
    requires PermitsConserved(s) && p in Holders(s) && !s.attempts[p].pc.Verify?
    requires Distinct(ps) && forall q :: q in ps ==> PastSecondRead(s, q, key)
    ensures |ps| <= CAP - 1
  {
    var inside := set q | q in s.attempts && PastSecondRead(s, q, key);
    assert inside + {p} <= Holders(s);
    SubsetSize(inside + {p}, Holders(s));
    DistinctFit(ps, inside);
  }
}
