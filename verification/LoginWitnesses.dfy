/** Runs that show what statements about login cannot promise: the burst bound is
    reached, and one password makes an unknown address answer 500 and wipes the
    caller's own backoff row. */
module LoginWitnesses {
  import opened Backoff
  import opened LoginProtocol
  import opened LoginThrottle
  import LoginAnswers

  /** The run with one more action of attempt `p`. */
  ghost function Do(c: Config, tr: Trace, p: Pid, a: Action): (tr': Trace)
    requires Execution(c, tr) && p in tr.s.attempts && Enabled(tr.s, tr.s.attempts[p], a)
    ensures Execution(c, tr') && tr'.Then? && tr'.prev == tr && tr'.e == Step(p, a) && tr'.s == After(c, tr.s, p, a)
  {
    Then(tr, Step(p, a), After(c, tr.s, p, a))
  }

  lemma StoryDo(c: Config, tr: Trace, p: Pid, a: Action)
    requires Execution(c, tr) && p in tr.s.attempts && Enabled(tr.s, tr.s.attempts[p], a)
    ensures LoginAnswers.Story(c, Do(c, tr, p, a), p) ==
            LoginAnswers.Story(c, tr, p) + LoginAnswers.FactOf(c, tr.s, tr.s.attempts[p], a)
  {
  }

  /** The same, for an action that takes the attempt to `x` and adds `facts` to its story. */
  lemma DoTo(c: Config, tr: Trace, p: Pid, a: Action, x: Attempt, facts: seq<LoginAnswers.Fact>) returns (tr': Trace)
    requires Execution(c, tr) && p in tr.s.attempts && Enabled(tr.s, tr.s.attempts[p], a)
    requires Moved(c, tr.s, tr.s.attempts[p], a) == x && LoginAnswers.FactOf(c, tr.s, tr.s.attempts[p], a) == facts
    ensures Execution(c, tr') && p in tr'.s.attempts && tr'.s.attempts[p] == x && tr'.First() == tr.First()
    ensures LoginAnswers.Story(c, tr', p) == LoginAnswers.Story(c, tr, p) + facts
    ensures !a.Write? && !a.Create? && !tr.s.attempts[p].pc.SwapPeak? ==>
              tr'.s == tr.s.(attempts := tr.s.attempts[p := x],
                             tokens := tr.s.tokens + TokenDelta(tr.s.attempts[p], a),
                             inFlight := tr.s.inFlight + FlightDelta(tr.s.attempts[p]))
  {
    tr' := Do(c, tr, p, a);
    StoryDo(c, tr, p, a);
  }

  /** A process with nothing recorded and no users yet, its peak already at the cap. */
  const Fresh := State(map[], map[], Directory(map[], map[]), 0, 0, 0, CAP, map[])

  /** Neither the address nor the caller is throttled, and nobody has an account. */
  ghost predicate Quiet(tr: Trace, email: string, ip: string) {
    && Remaining(tr.s.rows, BackoffKeys(email, ip), tr.s.clock) == 0
    && tr.s.directory == Directory(map[], map[]) && tr.s.peak == CAP
  }

  function Guess(email: string, ip: string, password: string, pc: Pc): Attempt {
    Attempt(email, BackoffKeys(email, ip), password, Unknown, false, pc)
  }

  lemma {:induction false} NothingRemains(keys: seq<string>, now: int)
    ensures Remaining(map[], keys, now) == 0
  {
    if keys != [] { NothingRemains(keys[1..], now); }
  }

  /** A new attempt, up to the queue. */
  lemma ToQueue(c: Config, tr: Trace, p: Pid, email: string, ip: string, password: string) returns (tr': Trace)
    requires Execution(c, tr) && Quiet(tr, email, ip) && p !in tr.s.attempts
    ensures Execution(c, tr') && tr'.First() == tr.First()
    ensures tr'.s == tr.s.(attempts := tr.s.attempts[p := Guess(email, ip, password, Queue)])
    ensures LoginAnswers.Story(c, tr, p) == [] ==> LoginAnswers.Story(c, tr', p) == LoginAnswers.Queued(Unknown)
  {
    var x := Guess(email, ip, password, FirstRead);
    var t := Then(tr, Arrive(p, email, ip, password), tr.s.(attempts := tr.s.attempts[p := x]));
    tr' := DoTo(c, t, p, Query(true), x.(pc := LoginProtocol.FindUser), [LoginAnswers.Unthrottled]);
    tr' := DoTo(c, tr', p, Query(true), x.(pc := Enter), [LoginAnswers.NoUser]);
    tr' := DoTo(c, tr', p, Context(true), x.(pc := Queue), []);
  }

  /** From the queue to the password check, while permits are left. */
  lemma ToCheck(c: Config, tr: Trace, p: Pid, x: Attempt) returns (tr': Trace)
    requires Execution(c, tr) && Remaining(tr.s.rows, x.keys, tr.s.clock) == 0 && tr.s.peak == CAP
    requires tr.s.tokens < CAP && tr.s.inFlight < CAP
    requires p in tr.s.attempts && tr.s.attempts[p] == x && x.pc.Queue?
    ensures Execution(c, tr') && tr'.First() == tr.First()
    ensures tr'.s == tr.s.(attempts := tr.s.attempts[p := x.(pc := Verify)],
                           tokens := tr.s.tokens + 1, inFlight := tr.s.inFlight + 1)
    ensures LoginAnswers.Story(c, tr', p) ==
            LoginAnswers.Story(c, tr, p) + [LoginAnswers.Took, LoginAnswers.Unthrottled]
  {
    tr' := DoTo(c, tr, p, TakeToken, x.(pc := CountIn), [LoginAnswers.Took]);
    tr' := DoTo(c, tr', p, Run, x.(pc := LoadPeak(tr.s.inFlight + 1)), []);
    tr' := DoTo(c, tr', p, Run, x.(pc := SecondRead), []);
    tr' := DoTo(c, tr', p, Query(true), x.(pc := Verify), [LoginAnswers.Unthrottled]);
  }

  lemma Inside(c: Config, tr: Trace, p: Pid, email: string, ip: string, password: string) returns (tr': Trace)
    requires Execution(c, tr) && Quiet(tr, email, ip) && p !in tr.s.attempts && tr.s.tokens < CAP && tr.s.inFlight < CAP
    ensures Execution(c, tr') && tr'.First() == tr.First()
    ensures tr'.s == tr.s.(attempts := tr.s.attempts[p := Guess(email, ip, password, Verify)],
                           tokens := tr.s.tokens + 1, inFlight := tr.s.inFlight + 1)
  {
    var t := ToQueue(c, tr, p, email, ip, password);
    tr' := ToCheck(c, t, p, Guess(email, ip, password, Queue));
  }

  lemma FourInside(c: Config, email: string, password: string) returns (tr: Trace)
    requires c.CurveIsValid()
    ensures Execution(c, tr) && tr.s.rows == map[] && tr.s.clock == 0
    ensures forall p :: 0 <= p <= 3 ==> p in tr.s.attempts && tr.s.attempts[p] == Guess(email, "", password, Verify)
  {
    NothingRemains(BackoffKeys(email, ""), 0);
    tr := Inside(c, Start(Fresh), 0, email, "", password);
    tr := Inside(c, tr, 1, email, "", password);
    tr := Inside(c, tr, 2, email, "", password);
    tr := Inside(c, tr, 3, email, "", password);
  }

  /** The bound is reached: four guesses at one address get inside together, the
      first records its failure, and the other three are checked after it. */
  lemma BurstBoundIsReached(c: Config, email: string, password: string)
    returns (before: Trace, after: Trace)
    requires c.CurveIsValid() && !c.matches(password, c.dummyHash)
    ensures var key := BackoffKeys(email, "")[0];
            && Execution(c, before) && 0 in before.s.attempts
            && Enabled(before.s, before.s.attempts[0], Write(true))
            && Recorded(Then(before, Step(0, Write(true)), after.First()), key)
            && after.First() == After(c, before.s, 0, Write(true))
            && after.Valid(c) && !EverCleared(after, key)
            && key in after.First().rows && after.s.clock < after.First().rows[key].until
            && |Checked(after, key)| == 3
  {
    var t := FourInside(c, email, password);
    before := Do(c, t, 0, Run);
    after := ThreeMore(c, before, email, password);
  }

  /** One more of them is checked. */
  lemma OneMore(c: Config, tr: Trace, p: Pid, email: string, password: string, key: string) returns (tr': Trace)
    requires c.CurveIsValid() && tr.Valid(c) && !EverCleared(tr, key) && !c.matches(password, c.dummyHash)
    requires p in tr.s.attempts && tr.s.attempts[p] == Guess(email, "", password, Verify)
    requires key == BackoffKeys(email, "")[0]
    ensures tr'.Valid(c) && tr'.First() == tr.First() && !EverCleared(tr', key)
    ensures tr'.s == tr.s.(attempts := tr.s.attempts[p := Guess(email, "", password, Record(0))])
    ensures Checked(tr', key) == Checked(tr, key) + [p]
  {
    tr' := Then(tr, Step(p, Run), After(c, tr.s, p, Run));
  }

  lemma ThreeMore(c: Config, before: Trace, email: string, password: string) returns (after: Trace)
    requires Execution(c, before) && !c.matches(password, c.dummyHash) && before.s.rows == map[] && before.s.clock == 0
    requires 0 in before.s.attempts && before.s.attempts[0] == Guess(email, "", password, Record(0))
    requires forall p :: 1 <= p <= 3 ==>
               p in before.s.attempts && before.s.attempts[p] == Guess(email, "", password, Verify)
    ensures var key := BackoffKeys(email, "")[0];
            && after.First() == After(c, before.s, 0, Write(true))
            && after.Valid(c) && !EverCleared(after, key)
            && key in after.First().rows && after.s.clock < after.First().rows[key].until
            && |Checked(after, key)| == 3
  {
    var key := BackoffKeys(email, "")[0];
    after := Start(After(c, before.s, 0, Write(true)));
    after := OneMore(c, after, 1, email, password, key);
    after := OneMore(c, after, 2, email, password, key);
    after := OneMore(c, after, 3, email, password, key);
  }

  /** A user with a stored hash, and nothing recorded. */
  function Enrolled(email: string, user: int, hash: string): State {
    Fresh.(directory := Directory(map[email := user], map[user := hash]))
  }

  /** Login works: an account's own password, every statement answered, is answered 204,
      with one session, for that user. */
  lemma RightPasswordSignsIn(c: Config, email: string, ip: string, password: string, user: int, hash: string,
                             id: string)
    returns (tr: Trace)
    requires c.CurveIsValid() && c.matches(password, hash)
    ensures Execution(c, tr) && tr.First() == Enrolled(email, user, hash)
    ensures 0 in tr.s.attempts && tr.s.attempts[0].pc == Done(NoContent)
    ensures tr.s.sessions == map[id := user]
  {
    var keys := BackoffKeys(email, ip);
    var x := Attempt(email, keys, password, Known(user, hash), false, Queue);
    NothingRemains(keys, 0);
    tr := KnownToQueue(c, email, ip, password, user, hash);
    tr := ToCheck(c, tr, 0, x);
    tr := KnownToSession(c, tr, x, id);
  }

  lemma KnownToQueue(c: Config, email: string, ip: string, password: string, user: int, hash: string)
    returns (tr: Trace)
    requires c.CurveIsValid() && Remaining(map[], BackoffKeys(email, ip), 0) == 0
    ensures var s, x := Enrolled(email, user, hash),
                        Attempt(email, BackoffKeys(email, ip), password, Known(user, hash), false, Queue);
            Execution(c, tr) && tr.First() == s && tr.s == s.(attempts := map[0 := x])
  {
    var s := Enrolled(email, user, hash);
    var x := Guess(email, ip, password, FirstRead);
    var start := Start(s);
    assert Execution(c, start);
    tr := Then(start, Arrive(0, email, ip, password), s.(attempts := s.attempts[0 := x]));
    tr := DoTo(c, tr, 0, Query(true), x.(pc := LoginProtocol.FindUser), [LoginAnswers.Unthrottled]);
    tr := DoTo(c, tr, 0, Query(true), x.(pc := FindHash(user)), [LoginAnswers.FoundUser(user)]);
    x := x.(account := Known(user, hash));
    tr := DoTo(c, tr, 0, Query(true), x.(pc := Enter), [LoginAnswers.FoundHash(hash)]);
    tr := DoTo(c, tr, 0, Context(true), x.(pc := Queue), []);
  }

  lemma KnownToSession(c: Config, start: Trace, x: Attempt, id: string) returns (tr: Trace)
    requires Execution(c, start) && 0 in start.s.attempts && start.s.attempts[0] == x.(pc := Verify)
    requires x.account.Known? && c.matches(x.password, x.account.hash) && start.s.sessions == map[]
    ensures Execution(c, tr) && tr.First() == start.First()
    ensures 0 in tr.s.attempts && tr.s.attempts[0].pc == Done(NoContent)
    ensures tr.s.sessions == map[id := x.account.user]
  {
    var x' := x.(released := true);
    tr := DoTo(c, start, 0, Run, x'.(pc := CountOut(Accept)), [LoginAnswers.Matched(x.account.hash)]);
    tr := DoTo(c, tr, 0, Run, x'.(pc := FreeToken(Accept)), []);
    tr := DoTo(c, tr, 0, Run, x'.(pc := ClearRows), [LoginAnswers.Freed]);
    tr := Do(c, tr, 0, Write(true));
    tr := CreatesSession(c, tr, x', id);
  }

  lemma CreatesSession(c: Config, start: Trace, x: Attempt, id: string) returns (tr: Trace)
    requires Execution(c, start) && 0 in start.s.attempts && start.s.attempts[0] == x.(pc := CreateSession)
    requires x.account.Known? && x.released && start.s.sessions == map[]
    ensures Execution(c, tr) && tr.First() == start.First()
    ensures 0 in tr.s.attempts && tr.s.attempts[0].pc == Done(NoContent)
    ensures tr.s.sessions == map[id := x.account.user]
  {
    tr := Do(c, start, 0, Create(id, true, true));
    tr := Do(c, tr, 0, Run);
  }

  /** An unknown address with the dummy hash's own text passes the check, finds no
      user to sign in, and answers 500 instead of 401. */
  lemma UnknownAddressCanAnswer500(c: Config, email: string) returns (tr: Trace)
    requires c.CurveIsValid() && c.DummyIsHashOfItsText()
    ensures Execution(c, tr) && 0 in tr.s.attempts
    ensures tr.s.attempts[0] == Guess(email, "", c.dummyText, Done(Internal)).(released := true)
    ensures LoginAnswers.Story(c, tr, 0) ==
            LoginAnswers.Accepted(c, tr.s.attempts[0])
            + [LoginAnswers.Freed, LoginAnswers.AttemptedClear, LoginAnswers.NotCreated]
  {
    NothingRemains(BackoffKeys(email, ""), 0);
    tr := ToClear(c, Start(Fresh), email, "");
    var x := Guess(email, "", c.dummyText, Verify).(released := true);
    tr := NoSession(c, tr, x);
  }

  /** Without an account and with the dummy text, up to the clear. */
  lemma ToClear(c: Config, start: Trace, email: string, ip: string) returns (tr: Trace)
    requires Execution(c, start) && c.DummyIsHashOfItsText() && start.Start? && Quiet(start, email, ip)
    ensures Execution(c, tr) && 0 in tr.s.attempts && tr.First() == start.s
    ensures tr.s.rows == start.s.rows && tr.s.directory == start.s.directory
    ensures tr.s.attempts[0] == Guess(email, ip, c.dummyText, ClearRows).(released := true)
    ensures LoginAnswers.Story(c, tr, 0) == LoginAnswers.Accepted(c, tr.s.attempts[0]) + [LoginAnswers.Freed]
  {
    tr := ToQueue(c, start, 0, email, ip, c.dummyText);
    tr := ToCheck(c, tr, 0, Guess(email, ip, c.dummyText, Queue));
    assert LoginAnswers.Story(c, tr, 0) == LoginAnswers.Cleared(Unknown);
    var x := Guess(email, ip, c.dummyText, Verify).(released := true);
    tr := DoTo(c, tr, 0, Run, x.(pc := CountOut(Accept)), [LoginAnswers.Matched(c.dummyHash)]);
    tr := DoTo(c, tr, 0, Run, x.(pc := FreeToken(Accept)), []);
    tr := DoTo(c, tr, 0, Run, x.(pc := ClearRows), [LoginAnswers.Freed]);
  }

  /** Cleared, then no session: there is no user to create one for. */
  lemma NoSession(c: Config, start: Trace, x: Attempt) returns (tr: Trace)
    requires Execution(c, start) && 0 in start.s.attempts && start.s.attempts[0] == x.(pc := ClearRows) && x.released
    ensures Execution(c, tr) && 0 in tr.s.attempts && tr.s.attempts[0] == x.(pc := Done(Internal))
    ensures LoginAnswers.Story(c, tr, 0) ==
            LoginAnswers.Story(c, start, 0) + [LoginAnswers.AttemptedClear, LoginAnswers.NotCreated]
  {
    tr := DoTo(c, start, 0, Write(true), x.(pc := CreateSession), [LoginAnswers.AttemptedClear]);
    tr := DoTo(c, tr, 0, Create("", false, false), x.(pc := Returning(Internal)), [LoginAnswers.NotCreated]);
    tr := DoTo(c, tr, 0, Run, x.(pc := Done(Internal)), []);
  }

  /** A process whose table counts `n` failures of one caller, just past its deadline. */
  function Worn(c: Config, key: string, n: nat): State
    requires n >= 1
  {
    var window := CappedDoubling(c.first, c.max, n - 1);
    Fresh.(rows := map[key := Row(n, window, 0)], clock := window)
  }

  /** Anyone can have the count kept for their own address forgotten, without an
      account: whatever it has reached, one login with the dummy text, once its
      deadline has passed, deletes the row. */
  lemma DummyTextWipesAddressRow(c: Config, email: string, ip: string, n: nat) returns (tr: Trace)
    requires c.CurveIsValid() && c.DummyIsHashOfItsText() && ip != "" && n >= 1
    ensures Execution(c, tr) && tr.First() == Worn(c, BackoffKeys(email, ip)[1], n)
    ensures tr.s.directory.users == map[]
    ensures BackoffKeys(email, ip)[1] !in tr.s.rows
  {
    var keys := BackoffKeys(email, ip);
    var s := Worn(c, keys[1], n);
    WindowGrowsWithinBounds(c.first, c.max, n - 1, n - 1);
    tr := ToClear(c, Start(s), email, ip);
    tr := Do(c, tr, 0, Write(true));
  }
}
