/** The local login of backend/internal/auth/login.go as a step machine. Any
    number of attempts interleave, one atomic action at a time: a SQL statement,
    a channel operation, an atomic counter operation, or the password check.
    Every statement may fail, the request context may end while an attempt is
    queued, and a handler may panic while it holds a permit. */
module LoginProtocol {
  import opened Backoff

  type Pid = nat

  /** argonConcurrencyCap. */
  const CAP := 4

  /** The settings login reads, and Argon2 as the relation between a password
      and a stored PHC string. */
  datatype Config = Config(
    first: int,
    max: int,
    matches: (string, string) -> bool,
    dummyHash: string,
    dummyText: string)
  {
    /** What config.go demands of the curve. */
    predicate CurveIsValid() { 0 < first <= max }

    /** The dummy hash is a hash of one fixed text and of nothing else. */
    ghost predicate DummyIsHashOfItsText() {
      forall password :: matches(password, dummyHash) <==> password == dummyText
    }
  }

  datatype Answer =
    | NoContent                     // 204, with the session cookie
    | InvalidCredentials            // 401
    | TooManyAttempts(retryAfter: int)  // 429
    | Internal                      // 500

  /** What resolve found. Only `Known` has a user to sign in; the other two are
      checked against the dummy hash. */
  datatype Account = Unknown | Dormant(user: int) | Known(user: int, hash: string)
  {
    function HashToCheck(c: Config): string { if Known? then hash else c.dummyHash }
  }

  /** What LocalLogin does once releasePermit has freed the permit. */
  datatype Continuation =
    | Refuse(answer: Answer)        // checkPassword answered
    | Reject                        // the password did not match
    | Accept                        // it did
    | Finish(answer: Answer)        // the deferred release; the answer is settled

  datatype Pc =
    | FirstRead                     // throttled, before the queue
    | FindUser                      // resolve: GetUserByEmail
    | FindHash(user: int)           // resolve: GetCredentialByUserID
    | Enter                         // acquireArgonPermit: ctx.Err()
    | Queue                         // its select
    | CountIn                       // argonInFlight.Add(1)
    | LoadPeak(n: int)              // argonPeakInFlight.Load()
    | SwapPeak(n: int, seen: int)   // n <= peak || CompareAndSwap(peak, n)
    | SecondRead                    // throttled, under the permit
    | Verify                        // verifyHoldingPermit
    | Record(i: nat)                // recordFailure: the i-th key
    | CountOut(next: Continuation)  // releaseArgonPermit: argonInFlight.Add(-1)
    | FreeToken(next: Continuation) // releaseArgonPermit: <-argonSem
    | ClearRows                     // ClearLoginAttempts
    | CreateSession                 // IssueSession
    | Returning(answer: Answer)     // the deferred releasePermit is about to run
    | Done(answer: Answer)

  datatype Attempt = Attempt(
    email: string,
    keys: seq<string>,
    password: string,
    account: Account,
    released: bool,                 // sync.OnceFunc has run
    pc: Pc)

  /** users and credentials, as resolve reads them. */
  datatype Directory = Directory(users: map<string, int>, hashes: map<int, string>)

  datatype State = State(
    rows: Rows,
    sessions: map<string, int>,
    directory: Directory,
    clock: int,
    tokens: int,                    // the length of argonSem
    inFlight: int,
    peak: int,
    attempts: map<Pid, Attempt>)

  /** What the environment decides about an attempt's next atomic action. */
  datatype Action =
    | Query(ok: bool)               // a read statement is answered or fails
    | Context(live: bool)           // ctx.Err()
    | TakeToken                     // the send on argonSem goes through
    | GiveUp                        // ctx.Done() is chosen instead
    | Run                           // an action with one outcome
    | Panic
    | Write(applied: bool)          // a write whose error is only logged
    | Create(id: string, applied: bool, reported: bool)

  datatype Event =
    | Arrive(p: Pid, email: string, ip: string, password: string)
    | Step(p: Pid, a: Action)
    | Tick(now: int)
    | Elsewhere(directory: Directory, sessions: map<string, int>)
    | RecordElsewhere(key: string)  // the other backend, over the same table
    | ClearElsewhere(keys: seq<string>)

  /** backoffKeys. */
  function BackoffKeys(email: string, ip: string): (keys: seq<string>)
    ensures |keys| == if ip == "" then 1 else 2
    ensures forall i, j :: 0 <= i < j < |keys| ==> keys[i] != keys[j]
  {
    var e := "email:" + email;
    var i := "ip:" + ip;
    assert e[0] == 'e' && i[0] == 'i';
    if ip == "" then [e] else [e, i]
  }

  /** Two logins are held back by each other's failures exactly if they name the same
      address of mail, or come from the same known address of the network. */
  lemma SharedKeyExactly(email1: string, ip1: string, email2: string, ip2: string)
    ensures (exists k :: k in BackoffKeys(email1, ip1) && k in BackoffKeys(email2, ip2))
            <==> email1 == email2 || (ip1 == ip2 && ip1 != "")
  {
    var e1, e2, i1, i2 := "email:" + email1, "email:" + email2, "ip:" + ip1, "ip:" + ip2;
    assert e1[0] == e2[0] == 'e' && i1[0] == i2[0] == 'i';
    assert e1[6..] == email1 && e2[6..] == email2 && i1[3..] == ip1 && i2[3..] == ip2;
    var keys1, keys2 := BackoffKeys(email1, ip1), BackoffKeys(email2, ip2);
    assert keys1[0] == e1 && keys2[0] == e2;
    assert ip1 != "" ==> keys1[1] == i1;
    assert ip2 != "" ==> keys2[1] == i2;
    if email1 == email2 {
      assert e1 in keys1 && e1 in keys2;
    } else if ip1 == ip2 && ip1 != "" {
      assert i1 in keys1 && i1 in keys2;
    }
  }

  // ------------------------------------------------------------ the steps

  predicate Enabled(s: State, x: Attempt, a: Action) {
    match x.pc
    case FirstRead | FindUser | FindHash(_) => a.Query?
    case Enter => a.Context?
    case Queue => a.GiveUp? || (a.TakeToken? && s.tokens < CAP)
    case CountIn | LoadPeak(_) | SwapPeak(_, _) => a.Run?
    case SecondRead => a.Query? || a.Panic?
    case Verify => a.Run? || a.Panic?
    case Record(_) => a.Write? || a.Panic?
    case CountOut(_) | FreeToken(_) | Returning(_) => a.Run?
    case ClearRows => a.Write?
    // sessions.user_id references users, so a row needs an account; the id is
    // a fresh token's hash.
    case CreateSession =>
      && a.Create?
      && (a.reported ==> a.applied)
      && (a.applied ==> x.account.Known? && a.id !in s.sessions)
    case Done(_) => false
  }

  /** throttled: where an attempt goes once its backoff read is answered. */
  function Throttled(s: State, x: Attempt, ok: bool): (refused: (bool, Answer)) {
    var wait := Remaining(s.rows, x.keys, s.clock);
    if !ok then (true, Internal)
    else if wait > 0 then (true, TooManyAttempts(RetryAfter(wait)))
    else (false, Internal)
  }

  function Delete(rows: Rows, keys: seq<string>): Rows {
    map k | k in rows && k !in keys :: rows[k]
  }

  /** The attempt after its action. */
  function Moved(c: Config, s: State, x: Attempt, a: Action): Attempt
    requires Enabled(s, x, a)
  {
    match x.pc
    case FirstRead =>
      var t := Throttled(s, x, a.ok);
      x.(pc := if t.0 then Done(t.1) else FindUser)
    case FindUser =>
      if !a.ok then x.(pc := Done(Internal))
      else if x.email in s.directory.users then x.(pc := FindHash(s.directory.users[x.email]))
      else x.(account := Unknown, pc := Enter)
    case FindHash(u) =>
      if !a.ok then x.(pc := Done(Internal))
      else if u in s.directory.hashes then x.(account := Known(u, s.directory.hashes[u]), pc := Enter)
      else x.(account := Dormant(u), pc := Enter)
    case Enter => x.(pc := if a.live then Queue else Done(Internal))
    case Queue => x.(pc := if a.TakeToken? then CountIn else Done(Internal))
    case CountIn => x.(pc := LoadPeak(s.inFlight + 1))
    case LoadPeak(n) => x.(pc := if n <= s.peak then SecondRead else SwapPeak(n, s.peak))
    case SwapPeak(n, seen) => x.(pc := if s.peak == seen then SecondRead else LoadPeak(n))
    case SecondRead =>
      if a.Panic? then x.(pc := Returning(Internal))
      else
        var t := Throttled(s, x, a.ok);
        if t.0 then x.(pc := CountOut(Refuse(t.1)), released := true) else x.(pc := Verify)
    case Verify =>
      if a.Panic? then x.(pc := Returning(Internal))
      else if c.matches(x.password, x.account.HashToCheck(c)) then
        x.(pc := CountOut(Accept), released := true)
      else x.(pc := Record(0))
    case Record(i) =>
      if a.Panic? then x.(pc := Returning(Internal))
      else if i + 1 < |x.keys| then x.(pc := Record(i + 1))
      else x.(pc := CountOut(Reject), released := true)
    case CountOut(next) => x.(pc := FreeToken(next))
    case FreeToken(next) =>
      (match next
       case Refuse(answer) => x.(pc := Returning(answer))
       case Reject => x.(pc := Returning(InvalidCredentials))
       case Accept => x.(pc := ClearRows)
       case Finish(answer) => x.(pc := Done(answer)))
    case ClearRows => x.(pc := CreateSession)
    case CreateSession => x.(pc := Returning(if a.reported then NoContent else Internal))
    case Returning(answer) =>
      if x.released then x.(pc := Done(answer)) else x.(pc := CountOut(Finish(answer)), released := true)
    case Done(_) => x
  }

  /** The rows after the action: only a recorded failure or a clear changes them. */
  function RowsAfter(c: Config, s: State, x: Attempt, a: Action): Rows
    requires c.CurveIsValid()
  {
    if !a.Write? || !a.applied then s.rows
    else if x.pc.Record? && x.pc.i < |x.keys| then RecordFailure(s.rows, x.keys[x.pc.i], s.clock, c.first, c.max)
    else if x.pc.ClearRows? then Delete(s.rows, x.keys)
    else s.rows
  }

  function SessionsAfter(s: State, x: Attempt, a: Action): map<string, int> {
    if a.Create? && a.applied && x.account.Known? then s.sessions[a.id := x.account.user] else s.sessions
  }

  /** The send on argonSem adds a token, the receive removes one. */
  function TokenDelta(x: Attempt, a: Action): int {
    if x.pc.Queue? && a.TakeToken? then 1 else if x.pc.FreeToken? then -1 else 0
  }

  function FlightDelta(x: Attempt): int {
    if x.pc.CountIn? then 1 else if x.pc.CountOut? then -1 else 0
  }

  function After(c: Config, s: State, p: Pid, a: Action): State
    requires c.CurveIsValid() && p in s.attempts && Enabled(s, s.attempts[p], a)
  {
    var x := s.attempts[p];
    s.(rows := RowsAfter(c, s, x, a),
       sessions := SessionsAfter(s, x, a),
       tokens := s.tokens + TokenDelta(x, a),
       inFlight := s.inFlight + FlightDelta(x),
       peak := if x.pc.SwapPeak? && s.peak == x.pc.seen then x.pc.n else s.peak,
       attempts := s.attempts[p := Moved(c, s, x, a)])
  }

  predicate Next(c: Config, s: State, e: Event, s': State)
    requires c.CurveIsValid()
  {
    match e
    case Arrive(p, email, ip, password) =>
      && p !in s.attempts
      && s' == s.(attempts := s.attempts[p :=
           Attempt(email, BackoffKeys(email, ip), password, Unknown, false, FirstRead)])
    case Step(p, a) => p in s.attempts && Enabled(s, s.attempts[p], a) && s' == After(c, s, p, a)
    case Tick(now) => s.clock <= now && s' == s.(clock := now)
    case Elsewhere(directory, sessions) => s' == s.(directory := directory, sessions := sessions)
    case RecordElsewhere(key) => s' == s.(rows := RecordFailure(s.rows, key, s.clock, c.first, c.max))
    case ClearElsewhere(keys) => s' == s.(rows := Delete(s.rows, keys))
  }

  /** A run: its first state, then one event at a time. */
  datatype Trace = Start(s: State) | Then(prev: Trace, e: Event, s: State)
  {
    function First(): State { if Start? then s else prev.First() }

    predicate Valid(c: Config)
      requires c.CurveIsValid()
    {
      Then? ==> prev.Valid(c) && Next(c, prev.s, e, s)
    }
  }

  /** `tr` continues `base`. */
  ghost predicate Extends(tr: Trace, base: Trace) {
    tr == base || (tr.Then? && Extends(tr.prev, base))
  }

  /** A fresh process over whatever the table holds; its peak counts the hashing
      done at package init. */
  predicate Initial(c: Config, s: State) {
    && s.attempts == map[]
    && s.tokens == 0 && s.inFlight == 0 && 0 <= s.peak <= CAP
    && RowsOnCurve(s.rows, s.clock, c.first, c.max)
  }

  /** A run of the process from its start. */
  predicate Execution(c: Config, tr: Trace) {
    c.CurveIsValid() && tr.Valid(c) && Initial(c, tr.First())
  }

  // ------------------------------------------------------------ the invariant

  /** Between the send on argonSem and the receive that undoes it. */
  predicate Holding(x: Attempt) {
    || x.pc.CountIn? || x.pc.LoadPeak? || x.pc.SwapPeak?
    || x.pc.SecondRead? || x.pc.Verify? || x.pc.Record?
    || x.pc.CountOut? || x.pc.FreeToken?
    || (x.pc.Returning? && !x.released)
  }

  /** Holding, and counted in argonInFlight. */
  predicate Counted(x: Attempt) {
    Holding(x) && !x.pc.CountIn? && !x.pc.FreeToken?
  }

  function Holders(s: State): set<Pid> { set p | p in s.attempts && Holding(s.attempts[p]) }

  function Counters(s: State): set<Pid> { set p | p in s.attempts && Counted(s.attempts[p]) }

  predicate PermitsConserved(s: State) {
    && s.tokens == |Holders(s)| <= CAP
    && s.inFlight == |Counters(s)|
    && 0 <= s.peak <= CAP
  }

  predicate AttemptOk(x: Attempt, peak: int) {
    && |x.keys| >= 1
    && (!x.pc.Returning? && !x.pc.Done? ==>
          x.released == (x.pc.CountOut? || x.pc.FreeToken? || x.pc.ClearRows? || x.pc.CreateSession?))
    && (x.pc.Record? ==> x.pc.i < |x.keys|)
    && (x.pc.LoadPeak? || x.pc.SwapPeak? ==> 1 <= x.pc.n <= CAP)
    && (x.pc.SwapPeak? ==> x.pc.seen < x.pc.n && x.pc.seen <= peak)
  }

  predicate AttemptsOk(s: State) {
    forall p :: p in s.attempts ==> AttemptOk(s.attempts[p], s.peak)
  }

  predicate Inv(c: Config, s: State) {
    && PermitsConserved(s)
    && AttemptsOk(s)
    && RowsOnCurve(s.rows, s.clock, c.first, c.max)
  }

  /** Changing one attempt changes the holder sets by that attempt only. */
  lemma SetsAfter(s: State, s': State, p: Pid, x': Attempt)
    requires s'.attempts == s.attempts[p := x']
    ensures Holders(s') == if Holding(x') then Holders(s) + {p} else Holders(s) - {p}
    ensures Counters(s') == if Counted(x') then Counters(s) + {p} else Counters(s) - {p}
  {
  }

  /** A token taken but not yet counted keeps argonInFlight below the tokens. */
  lemma CountersBelowHolders(s: State, p: Pid)
    ensures |Counters(s)| <= |Holders(s)|
    ensures p in Holders(s) && p !in Counters(s) ==> |Counters(s)| < |Holders(s)|
  {
    SubsetSize(Counters(s), Holders(s));
    if p in Holders(s) && p !in Counters(s) { SubsetSize(Counters(s) + {p}, Holders(s)); }
  }

  lemma {:induction false} SubsetSize<T>(a: set<T>, b: set<T>)
    requires a <= b
    ensures |a| <= |b|
  {
    if a != {} {
      var x :| x in a;
      SubsetSize(a - {x}, b - {x});
    }
  }

  function One(b: bool): int { if b then 1 else 0 }

  /** Each action moves the token count exactly as it moves its attempt into or
      out of the permit, and argonInFlight likewise. */
  lemma MovedDeltas(c: Config, s: State, x: Attempt, a: Action)
    requires AttemptOk(x, s.peak) && Enabled(s, x, a)
    ensures TokenDelta(x, a) == One(Holding(Moved(c, s, x, a))) - One(Holding(x))
    ensures FlightDelta(x) == One(Counted(Moved(c, s, x, a))) - One(Counted(x))
  {
  }

  lemma ToggleSize<T>(a: set<T>, x: T, inside: bool)
    ensures |if inside then a + {x} else a - {x}| == |a| + One(inside) - One(x in a)
  {
    if x in a {
      assert a + {x} == a;
    } else {
      assert a - {x} == a;
    }
  }

  lemma StepKeepsPermits(c: Config, s: State, p: Pid, a: Action)
    requires c.CurveIsValid() && Inv(c, s) && p in s.attempts && Enabled(s, s.attempts[p], a)
    ensures PermitsConserved(After(c, s, p, a))
  {
    var s' := After(c, s, p, a);
    var x := s.attempts[p];
    var x' := s'.attempts[p];
    assert AttemptOk(x, s.peak);
    MovedDeltas(c, s, x, a);
    SetsAfter(s, s', p, x');
    ToggleSize(Holders(s), p, Holding(x'));
    ToggleSize(Counters(s), p, Counted(x'));
  }

  lemma StepKeepsAttempts(c: Config, s: State, p: Pid, a: Action)
    requires c.CurveIsValid() && Inv(c, s) && p in s.attempts && Enabled(s, s.attempts[p], a)
    ensures s.peak <= After(c, s, p, a).peak
    ensures AttemptsOk(After(c, s, p, a))
  {
    var s' := After(c, s, p, a);
    CountersBelowHolders(s, p);
    assert AttemptOk(s.attempts[p], s.peak);
    assert p in Holders(s) <==> Holding(s.attempts[p]);
    assert p in Counters(s) <==> Counted(s.attempts[p]);
    MovedOk(c, s, s.attempts[p], a, s'.peak);
  }

  lemma MovedOk(c: Config, s: State, x: Attempt, a: Action, peak': int)
    requires AttemptOk(x, s.peak) && Enabled(s, x, a) && s.peak <= peak'
    requires x.pc.CountIn? ==> 0 <= s.inFlight < CAP
    ensures AttemptOk(Moved(c, s, x, a), peak')
  {
  }

  /** An event leaves every attempt it is not a step of where it was; one that was
      not there has only just arrived. */
  lemma OthersKept(c: Config, s: State, e: Event, s': State, p: Pid)
    requires c.CurveIsValid() && Next(c, s, e, s') && !(e.Step? && e.p == p)
    ensures p in s.attempts ==> p in s'.attempts && s'.attempts[p] == s.attempts[p]
    ensures p !in s.attempts && p in s'.attempts ==> s'.attempts[p].pc.FirstRead? && !s'.attempts[p].released
  {
  }

  lemma StepKeepsRows(c: Config, s: State, p: Pid, a: Action)
    requires c.CurveIsValid() && Inv(c, s) && p in s.attempts && Enabled(s, s.attempts[p], a)
    ensures RowsOnCurve(After(c, s, p, a).rows, s.clock, c.first, c.max)
  {
    var x := s.attempts[p];
    if x.pc.Record? && x.pc.i < |x.keys| {
      RecordKeepsCurve(s.rows, x.keys[x.pc.i], s.clock, c.first, c.max);
    }
  }

  lemma NextKeepsInv(c: Config, s: State, e: Event, s': State)
    requires c.CurveIsValid() && Inv(c, s) && Next(c, s, e, s')
    ensures Inv(c, s')
  {
    if e.Step? {
      StepKeepsPermits(c, s, e.p, e.a);
      StepKeepsAttempts(c, s, e.p, e.a);
      StepKeepsRows(c, s, e.p, e.a);
    } else {
      OtherKeepsInv(c, s, e, s');
    }
  }

  lemma OtherKeepsInv(c: Config, s: State, e: Event, s': State)
    requires c.CurveIsValid() && Inv(c, s) && Next(c, s, e, s') && !e.Step?
    ensures Inv(c, s')
  {
    assert Holders(s') == Holders(s) && Counters(s') == Counters(s);
    if e.RecordElsewhere? { RecordKeepsCurve(s.rows, e.key, s.clock, c.first, c.max); }
  }

  lemma {:induction false} ValidKeepsInv(c: Config, tr: Trace)
    requires c.CurveIsValid() && tr.Valid(c) && Inv(c, tr.First())
    ensures Inv(c, tr.s)
  {
    if tr.Then? {
      ValidKeepsInv(c, tr.prev);
      NextKeepsInv(c, tr.prev.s, tr.e, tr.s);
    }
  }

  lemma InitialInv(c: Config, s: State)
    requires Initial(c, s)
    ensures Inv(c, s)
  {
    assert Holders(s) == {} && Counters(s) == {};
  }

  lemma ReachableInv(c: Config, tr: Trace)
    requires Execution(c, tr)
    ensures Inv(c, tr.s)
  {
    InitialInv(c, tr.First());
    ValidKeepsInv(c, tr);
  }
}
