/** How fast one key's passwords can be guessed over a whole run: however logins
    interleave, each further CAP failures cost one window, and the windows follow the
    doubling curve. */
module LoginRate {
  import opened Backoff
  import opened LoginProtocol
  import opened LoginThrottle

  // ------------------------------------------------------------ who may still record

  /** The attempt's password was wrong and its write for `key` is still to come. */
  predicate Owes(x: Attempt, key: string) {
    x.pc.Record? && exists j :: x.pc.i <= j < |x.keys| && x.keys[j] == key
  }

  /** It may still come to record a failure for `key` without another read. */
  predicate Inside(x: Attempt, key: string) {
    (x.pc.Verify? && key in x.keys) || Owes(x, key)
  }

  function Insiders(s: State, key: string): set<Pid> {
    set p | p in s.attempts && Inside(s.attempts[p], key)
  }

  predicate KeysDiffer(x: Attempt) {
    forall i, j :: 0 <= i < j < |x.keys| ==> x.keys[i] != x.keys[j]
  }

  lemma {:induction false} KeysDifferAlways(c: Config, tr: Trace, p: Pid)
    requires Execution(c, tr)
    ensures p in tr.s.attempts ==> KeysDiffer(tr.s.attempts[p])
  {
    if tr.Then? {
      KeysDifferAlways(c, tr.prev, p);
      if tr.e.Step? && tr.e.p == p {
        assert tr.s.attempts[p].keys == tr.prev.s.attempts[p].keys;
      } else if p in tr.prev.s.attempts {
        OthersKept(c, tr.prev.s, tr.e, tr.s, p);
      }
    }
  }

  /** The event records a failure for `key` in this process. */
  predicate RecordsHere(s: State, e: Event, key: string) { e.Step? && Records(s, e, key) }

  ghost function HereRecords(tr: Trace, key: string): nat {
    if tr.Start? then 0 else HereRecords(tr.prev, key) + One(RecordsHere(tr.prev.s, tr.e, key))
  }

  /** The attempt is about to record a failure for `key`. */
  predicate AtKey(x: Attempt, key: string) { x.pc.Record? && x.pc.i < |x.keys| && x.keys[x.pc.i] == key }

  /** While a deadline of `key` is ahead no action brings an attempt inside, and a
      write for `key` puts its attempt out. */
  lemma StepStaysOut(c: Config, s: State, x: Attempt, a: Action, key: string)
    requires AttemptOk(x, s.peak) && KeysDiffer(x) && Enabled(s, x, a)
    requires key in s.rows && s.clock < s.rows[key].until
    ensures Inside(Moved(c, s, x, a), key) ==> Inside(x, key)
    ensures AtKey(x, key) ==> Inside(x, key)
  {
    var x' := Moved(c, s, x, a);
    assert x'.keys == x.keys;
    if key in x.keys { ReaderTurnsBack(c, s, x, a, key); }
    if x'.pc.Record? && Inside(x', key) {
      var j :| x'.pc.i <= j < |x.keys| && x.keys[j] == key;
      assert x.keys[j] in x.keys;
    }
  }

  lemma WriteLeaves(c: Config, s: State, x: Attempt, a: Action, key: string)
    requires AttemptOk(x, s.peak) && KeysDiffer(x) && Enabled(s, x, a) && AtKey(x, key)
    ensures !Inside(Moved(c, s, x, a), key)
  {
  }

  lemma InsidersShrink(c: Config, s: State, e: Event, s': State, key: string)
    requires c.CurveIsValid() && Inv(c, s) && Next(c, s, e, s')
    requires forall p :: p in s.attempts ==> KeysDiffer(s.attempts[p])
    requires key in s.rows && s.clock < s.rows[key].until
    ensures Insiders(s', key) <= Insiders(s, key)
    ensures RecordsHere(s, e, key) ==> e.p in Insiders(s, key) && e.p !in Insiders(s', key)
  {
    if e.Step? {
      var x := s.attempts[e.p];
      assert AttemptOk(x, s.peak);
      StepStaysOut(c, s, x, e.a, key);
      if AtKey(x, key) { WriteLeaves(c, s, x, e.a, key); }
    }
    forall p | p in Insiders(s', key) ensures p in Insiders(s, key) {
      if !(e.Step? && e.p == p) { OthersKept(c, s, e, s', p); }
    }
  }

  // ------------------------------------------------------------ one window

  ghost predicate ClearedSince(tr: Trace, base: Trace, key: string) {
    tr != base && tr.Then? && (Cleared(tr, key) || ClearedSince(tr.prev, base, key))
  }

  lemma {:induction false} PrefixRuns(c: Config, tr: Trace, base: Trace)
    requires Execution(c, tr) && Extends(tr, base)
    ensures Execution(c, base) && base.s.clock <= tr.s.clock
  {
    if tr != base { PrefixRuns(c, tr.prev, base); }
  }

  lemma {:induction false} DeadlineHoldsSince(c: Config, tr: Trace, base: Trace, key: string)
    requires Execution(c, tr) && Extends(tr, base) && !ClearedSince(tr, base, key) && key in base.s.rows
    ensures key in tr.s.rows && base.s.rows[key].until <= tr.s.rows[key].until
  {
    if tr != base {
      DeadlineHoldsSince(c, tr.prev, base, key);
      ReachableInv(c, tr.prev);
      RowAfterEvent(c, tr.prev.s, tr.e, tr.s, key);
    }
  }

  /** Before the deadline, what has been recorded and what may still be only shift. */
  lemma {:induction false} RecordsBeforeDeadline(c: Config, tr: Trace, base: Trace, key: string)
    requires Execution(c, tr) && Extends(tr, base) && !ClearedSince(tr, base, key)
    requires key in base.s.rows && tr.s.clock < base.s.rows[key].until
    ensures HereRecords(tr, key) + |Insiders(tr.s, key)| <= HereRecords(base, key) + |Insiders(base.s, key)|
  {
    if tr != base {
      var s := tr.prev.s;
      assert s.clock <= tr.s.clock;
      RecordsBeforeDeadline(c, tr.prev, base, key);
      DeadlineHoldsSince(c, tr.prev, base, key);
      ReachableInv(c, tr.prev);
      forall p | p in s.attempts ensures KeysDiffer(s.attempts[p]) { KeysDifferAlways(c, tr.prev, p); }
      InsidersShrink(c, s, tr.e, tr.s, key);
      if RecordsHere(s, tr.e, key) {
        SubsetSize(Insiders(tr.s, key) + {tr.e.p}, Insiders(s, key));
      } else {
        SubsetSize(Insiders(tr.s, key), Insiders(s, key));
      }
    }
  }

  /** Whoever has just recorded still holds its permit and is out. */
  lemma RecorderLeavesRoom(c: Config, tr: Trace, key: string)
    requires Execution(c, tr) && tr.Then? && RecordsHere(tr.prev.s, tr.e, key)
    ensures |Insiders(tr.s, key)| <= CAP - 1
  {
    var p := tr.e.p;
    ReachableInv(c, tr);
    ReachableInv(c, tr.prev);
    KeysDifferAlways(c, tr.prev, p);
    assert AttemptOk(tr.prev.s.attempts[p], tr.prev.s.peak);
    WriteLeaves(c, tr.prev.s, tr.prev.s.attempts[p], tr.e.a, key);
    assert p in Holders(tr.s) && Insiders(tr.s, key) + {p} <= Holders(tr.s);
    SubsetSize(Insiders(tr.s, key) + {p}, Holders(tr.s));
  }

  /** After a failure recorded here, at most CAP - 1 more are before its deadline. */
  lemma RecordsPerWindow(c: Config, tr: Trace, cut: Trace, key: string)
    requires Execution(c, tr) && Extends(tr, cut) && !ClearedSince(tr, cut, key)
    requires cut.Then? && RecordsHere(cut.prev.s, cut.e, key) && key in cut.s.rows
    requires tr.s.clock < cut.s.rows[key].until
    ensures HereRecords(tr, key) <= HereRecords(cut, key) + 3
  {
    PrefixRuns(c, tr, cut);
    RecordsBeforeDeadline(c, tr, cut, key);
    RecorderLeavesRoom(c, cut, key);
  }

  // ------------------------------------------------------------ the whole run

  /** The least time in which `m` failures can be recorded: one window for each CAP,
      the window of the count the failures had reached CAP before. */
  function SpentAt(c: Config, m: nat): int {
    if m <= CAP then 0 else SpentAt(c, m - CAP) + CappedDoubling(c.first, c.max, m - CAP - 1)
  }

  lemma {:induction false} SpentGrows(c: Config, m: nat, n: nat)
    requires c.CurveIsValid() && m <= n
    ensures 0 <= SpentAt(c, m) <= SpentAt(c, n)
    decreases n
  {
    if n > CAP {
      WindowGrowsWithinBounds(c.first, c.max, n - CAP - 1, n - CAP - 1);
      if m > CAP {
        SpentGrows(c, m - CAP, n - CAP);
        WindowGrowsWithinBounds(c.first, c.max, m - CAP - 1, n - CAP - 1);
      } else {
        SpentGrows(c, n - CAP, n - CAP);
      }
    }
  }

  lemma {:induction false} RecordsOnlyGrow(tr: Trace, base: Trace, key: string)
    requires Extends(tr, base)
    ensures HereRecords(base, key) <= HereRecords(tr, key)
  {
    if tr != base { RecordsOnlyGrow(tr.prev, base, key); }
  }

  /** The run up to its `m`-th record since `base`. */
  lemma {:induction false} UpToRecord(tr: Trace, base: Trace, key: string, m: nat) returns (cut: Trace)
    requires Extends(tr, base) && 1 <= m <= HereRecords(tr, key) - HereRecords(base, key)
    requires !ClearedSince(tr, base, key)
    ensures Extends(tr, cut) && Extends(cut, base) && cut != base
    ensures cut.Then? && RecordsHere(cut.prev.s, cut.e, key) && HereRecords(cut, key) == HereRecords(base, key) + m
    ensures !ClearedSince(tr, cut, key) && !ClearedSince(cut, base, key)
  {
    if RecordsHere(tr.prev.s, tr.e, key) && HereRecords(tr, key) == HereRecords(base, key) + m {
      cut := tr;
    } else {
      cut := UpToRecord(tr.prev, base, key, m);
    }
  }

  /** The row counts at least the failures recorded here since, if it was not cleared. */
  lemma {:induction false} CountAtLeast(c: Config, tr: Trace, base: Trace, key: string)
    requires Execution(c, tr) && Extends(tr, base) && !ClearedSince(tr, base, key)
    ensures var m := HereRecords(tr, key) - HereRecords(base, key);
            m > 0 ==> key in tr.s.rows && tr.s.rows[key].failures >= m
  {
    if tr != base {
      CountAtLeast(c, tr.prev, base, key);
      RecordsOnlyGrow(tr.prev, base, key);
      ReachableInv(c, tr.prev);
      RowAfterEvent(c, tr.prev.s, tr.e, tr.s, key);
    }
  }

  /** The rate over a whole run: from any point on, in any interleaving and whatever
      the other backend records, `m` failures recorded for a key that is not cleared
      take at least SpentAt(m). */
  lemma {:induction false} FailureRate(c: Config, tr: Trace, base: Trace, key: string)
    requires Execution(c, tr) && Extends(tr, base) && !ClearedSince(tr, base, key)
    ensures HereRecords(base, key) <= HereRecords(tr, key)
    ensures base.s.clock + SpentAt(c, HereRecords(tr, key) - HereRecords(base, key)) <= tr.s.clock
    decreases HereRecords(tr, key)
  {
    RecordsOnlyGrow(tr, base, key);
    PrefixRuns(c, tr, base);
    var m := HereRecords(tr, key) - HereRecords(base, key);
    if m > CAP {
      var cut := UpToRecord(tr, base, key, m - CAP);
      PrefixRuns(c, tr, cut);
      FailureRate(c, cut, base, key);
      DeadlineAtRecord(c, cut, base, key, m - CAP);
      if tr.s.clock < cut.s.rows[key].until { RecordsPerWindow(c, tr, cut, key); }
    }
  }

  lemma DeadlineAtRecord(c: Config, cut: Trace, base: Trace, key: string, n: nat)
    requires Execution(c, cut) && Extends(cut, base) && !ClearedSince(cut, base, key)
    requires cut.Then? && RecordsHere(cut.prev.s, cut.e, key)
    requires n >= 1 && HereRecords(cut, key) == HereRecords(base, key) + n
    ensures key in cut.s.rows && cut.s.clock + CappedDoubling(c.first, c.max, n - 1) <= cut.s.rows[key].until
  {
    CountAtLeast(c, cut, base, key);
    DeadlineFollowsCurve(c, cut, key);
    RowCountsFailuresSinceClear(c, cut, key);
    WindowGrowsWithinBounds(c.first, c.max, n - 1, FailuresSinceClear(cut, key) - 1);
  }

  // ------------------------------------------------------------ guesses

  /** The event checks a wrong password for `key`. */
  predicate WrongGuess(c: Config, s: State, e: Event, key: string) {
    && e.Step? && e.a == Run && PastSecondRead(s, e.p, key)
    && var x := s.attempts[e.p]; !c.matches(x.password, x.account.HashToCheck(c))
  }

  ghost function Guesses(c: Config, tr: Trace, key: string): nat {
    if tr.Start? then 0 else Guesses(c, tr.prev, key) + One(WrongGuess(c, tr.prev.s, tr.e, key))
  }

  /** The event loses no write owed for `key`: none fails, and nobody owing one panics. */
  predicate LosesNone(s: State, e: Event, key: string) {
    e.Step? && e.p in s.attempts && Owes(s.attempts[e.p], key) ==>
      !e.a.Panic? && (AtKey(s.attempts[e.p], key) ==> e.a == Write(true))
  }

  ghost predicate NoneLost(tr: Trace, base: Trace, key: string) {
    tr == base || (tr.Then? && LosesNone(tr.prev.s, tr.e, key) && NoneLost(tr.prev, base, key))
  }

  function Owing(s: State, key: string): set<Pid> { set p | p in s.attempts && Owes(s.attempts[p], key) }

  /** An attempt starts owing with its wrong guess and stops with its write. */
  lemma StepOwes(c: Config, s: State, x: Attempt, a: Action, key: string)
    requires AttemptOk(x, s.peak) && KeysDiffer(x) && Enabled(s, x, a)
    requires Owes(x, key) ==> !a.Panic? && (AtKey(x, key) ==> a == Write(true))
    ensures var wrong := x.pc.Verify? && key in x.keys && a == Run && !c.matches(x.password, x.account.HashToCheck(c));
            One(Owes(Moved(c, s, x, a), key)) ==
            One(Owes(x, key)) + One(wrong) - One(AtKey(x, key) && a == Write(true))
  {
    var x' := Moved(c, s, x, a);
    assert x'.keys == x.keys;
    if x.pc.Verify? && key in x.keys {
      var j :| 0 <= j < |x.keys| && x.keys[j] == key;
    } else if x.pc.Record? {
      RecordOwes(c, s, x, a, key);
    }
  }

  lemma RecordOwes(c: Config, s: State, x: Attempt, a: Action, key: string)
    requires x.pc.Record? && AttemptOk(x, s.peak) && KeysDiffer(x) && Enabled(s, x, a)
    requires Owes(x, key) ==> !a.Panic? && (AtKey(x, key) ==> a == Write(true))
    ensures Owes(Moved(c, s, x, a), key) <==> Owes(x, key) && !AtKey(x, key)
    ensures AtKey(x, key) ==> Owes(x, key)
  {
    if Owes(x, key) && !AtKey(x, key) {
      var j :| x.pc.i <= j < |x.keys| && x.keys[j] == key;
      assert x.pc.i + 1 <= j;
    }
  }

  lemma EventOwes(c: Config, s: State, e: Event, s': State, key: string)
    requires c.CurveIsValid() && Inv(c, s) && Next(c, s, e, s') && LosesNone(s, e, key)
    requires forall p :: p in s.attempts ==> KeysDiffer(s.attempts[p])
    ensures |Owing(s', key)| == |Owing(s, key)| + One(WrongGuess(c, s, e, key)) - One(RecordsHere(s, e, key))
  {
    if e.Step? {
      assert AttemptOk(s.attempts[e.p], s.peak);
      StepOwes(c, s, s.attempts[e.p], e.a, key);
      OwingAfter(s, s', e.p, Moved(c, s, s.attempts[e.p], e.a), key);
    } else {
      OwingUnmoved(c, s, e, s', key);
    }
  }

  lemma OwingAfter(s: State, s': State, p: Pid, x': Attempt, key: string)
    requires p in s.attempts && s'.attempts == s.attempts[p := x']
    ensures |Owing(s', key)| == |Owing(s, key)| + One(Owes(x', key)) - One(Owes(s.attempts[p], key))
  {
    assert Owing(s', key) == if Owes(x', key) then Owing(s, key) + {p} else Owing(s, key) - {p};
    ToggleSize(Owing(s, key), p, Owes(x', key));
  }

  lemma OwingUnmoved(c: Config, s: State, e: Event, s': State, key: string)
    requires c.CurveIsValid() && Next(c, s, e, s') && !e.Step?
    ensures Owing(s', key) == Owing(s, key)
  {
    forall p ensures p in Owing(s', key) <==> p in Owing(s, key) { OthersKept(c, s, e, s', p); }
  }

  lemma {:induction false} GuessesAreRecorded(c: Config, tr: Trace, base: Trace, key: string)
    requires Execution(c, tr) && Extends(tr, base) && NoneLost(tr, base, key)
    ensures Guesses(c, tr, key) + |Owing(base.s, key)| + HereRecords(base, key) ==
            HereRecords(tr, key) + |Owing(tr.s, key)| + Guesses(c, base, key)
  {
    if tr != base {
      GuessesAreRecorded(c, tr.prev, base, key);
      ReachableInv(c, tr.prev);
      forall p | p in tr.prev.s.attempts ensures KeysDiffer(tr.prev.s.attempts[p]) {
        KeysDifferAlways(c, tr.prev, p);
      }
      EventOwes(c, tr.prev.s, tr.e, tr.s, key);
    }
  }

  lemma OwingFits(s: State, key: string)
    requires PermitsConserved(s)
    ensures |Owing(s, key)| <= CAP
  {
    assert Owing(s, key) <= Holders(s);
    SubsetSize(Owing(s, key), Holders(s));
  }

  /** The guess rate: from any point on, while its key is not cleared and no write for
      it is lost, `n` wrong guesses at a key take at least the time n - CAP recorded
      failures do: CAP guesses for each window, and the windows double up to max. */
  lemma {:induction false} GuessRate(c: Config, tr: Trace, base: Trace, key: string)
    requires Execution(c, tr) && Extends(tr, base) && !ClearedSince(tr, base, key) && NoneLost(tr, base, key)
    ensures var n := Guesses(c, tr, key) - Guesses(c, base, key);
            n > CAP ==> base.s.clock + SpentAt(c, n - CAP) <= tr.s.clock
  {
    FailureRate(c, tr, base, key);
    GuessesOutrunRecords(c, tr, base, key);
    var n, m := Guesses(c, tr, key) - Guesses(c, base, key), HereRecords(tr, key) - HereRecords(base, key);
    if n > CAP { SpentGrows(c, n - CAP, m); }
  }

  lemma {:induction false} GuessesOutrunRecords(c: Config, tr: Trace, base: Trace, key: string)
    requires Execution(c, tr) && Extends(tr, base) && NoneLost(tr, base, key)
    ensures Guesses(c, tr, key) - Guesses(c, base, key) <= HereRecords(tr, key) - HereRecords(base, key) + CAP
  {
    GuessesAreRecorded(c, tr, base, key);
    ReachableInv(c, tr);
    OwingFits(tr.s, key);
  }
}
