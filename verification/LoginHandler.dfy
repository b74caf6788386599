/** LocalLogin and the functions it calls, in the form the handler has: locals,
    loops and shared fields updated in place. Between any two atomic actions the
    other attempts may run (`Interfere`). Every atomic action is proved to be one
    step of the login machine, so whatever holds of every run of the machine holds
    of this code under every interleaving. What the environment decides about the
    attempt's own statements is an input (`Outcomes`): the code may not decide it. */
module LoginHandler {
  import opened Backoff
  import opened LoginProtocol
  import LoginAnswers
  import LoginThrottle
  import opened LoginPermits

  datatype RecordOutcome = Applied | Lost | Panics

  /** What becomes of an attempt's statements, its context and its luck. */
  datatype Outcomes = Outcomes(
    firstRead: bool, findUser: bool, findHash: bool,
    live: bool, patience: nat, lucky: bool,
    panicsAtRead: bool, secondRead: bool, panicsAtCheck: bool,
    record: nat -> RecordOutcome,
    clear: bool, id: string, insert: bool, reported: bool)
  {
    /** Every statement is answered and takes effect, and nothing panics. */
    predicate Healthy(keys: nat) {
      && firstRead && findUser && findHash && secondRead && clear && insert && reported
      && !panicsAtRead && !panicsAtCheck
      && forall i :: 0 <= i < keys ==> record(i) == Applied
    }
  }

  /** The attempt's action is the one its outcomes call for; whether the queue's
      select takes a token is between it and the others. */
  predicate AsDecided(o: Outcomes, x: Attempt, a: Action) {
    match x.pc
    case FirstRead => a == Query(o.firstRead)
    case FindUser => a == Query(o.findUser)
    case FindHash(_) => a == Query(o.findHash)
    case Enter => a == Context(o.live)
    case SecondRead => a == if o.panicsAtRead then Panic else Query(o.secondRead)
    case Verify => a == if o.panicsAtCheck then Panic else Run
    case Record(i) => a == if o.record(i).Panics? then Panic else Write(o.record(i).Applied?)
    case ClearRows => a == Write(o.clear)
    case CreateSession =>
      var applied := o.insert && x.account.Known?;
      a == Create(o.id, applied, applied && o.reported)
    case _ => true
  }

  /** `tr` continues `base`, and in it every action of attempt `p` was as decided. */
  ghost predicate Obeys(tr: Trace, base: Trace, p: Pid, o: Outcomes) {
    || tr == base
    || (&& tr.Then? && Obeys(tr.prev, base, p, o)
        && (tr.e.Step? && tr.e.p == p && p in tr.prev.s.attempts ==> AsDecided(o, tr.prev.s.attempts[p], tr.e.a)))
  }

  /** No continuation lowers the peak. */
  lemma {:induction false} PeakRisesAlong(c: Config, tr: Trace, base: Trace)
    requires Execution(c, tr) && Extends(tr, base)
    ensures base.s.peak <= tr.s.peak
  {
    if tr != base {
      PeakRisesAlong(c, tr.prev, base);
      ReachableInv(c, tr.prev);
      PeakOnlyRises(c, tr.prev.s, tr.e, tr.s);
    }
  }

  /** Past any session of its own. */
  predicate Late(x: Attempt) {
    x.pc.Returning? || x.pc.Done? || ((x.pc.CountOut? || x.pc.FreeToken?) && x.pc.next.Finish?)
  }

  // ------------------------------------------------------------ healthy statements

  /** As decided by healthy outcomes, no action adds a failure to the story, except that
      there may be nobody to create a session for. */
  lemma StepIsHealthy(c: Config, s: State, x: Attempt, a: Action, o: Outcomes)
    requires AttemptOk(x, s.peak) && Enabled(s, x, a) && AsDecided(o, x, a) && o.Healthy(|x.keys|)
    ensures forall f :: f in LoginAnswers.FactOf(c, s, x, a) ==>
              && f !in {LoginAnswers.ReadFailed, LoginAnswers.LookUpFailed, LoginAnswers.Panicked}
              && !(f.Created? && !f.reported)
              && (f.NotCreated? ==> x.pc.CreateSession? && !x.account.Known?)
  {
  }

  /** What healthy outcomes leave of a story. */
  predicate HealthyStory(x: Attempt, story: seq<LoginAnswers.Fact>) {
    forall f :: f in story ==>
      && f !in {LoginAnswers.ReadFailed, LoginAnswers.LookUpFailed, LoginAnswers.Panicked}
      && !(f.Created? && !f.reported)
      && (f.NotCreated? ==> !x.account.Known?)
  }

  lemma StepKeepsHealthy(c: Config, s: State, x: Attempt, a: Action, o: Outcomes, story: seq<LoginAnswers.Fact>)
    requires AttemptOk(x, s.peak) && Enabled(s, x, a) && AsDecided(o, x, a) && o.Healthy(|x.keys|)
    requires LoginAnswers.MidStory(c, x, story) && HealthyStory(x, story)
    ensures HealthyStory(Moved(c, s, x, a), story + LoginAnswers.FactOf(c, s, x, a))
    ensures Moved(c, s, x, a).keys == x.keys
  {
    StepIsHealthy(c, s, x, a, o);
    if x.pc.FindUser? || x.pc.FindHash? {
      assert LoginAnswers.NotCreated !in story;
    } else {
      assert Moved(c, s, x, a).account == x.account;
    }
  }

  lemma {:induction false} HealthyAlways(c: Config, tr: Trace, base: Trace, p: Pid, o: Outcomes)
    requires Execution(c, tr) && Obeys(tr, base, p, o) && p !in base.s.attempts && p in tr.s.attempts
    requires o.Healthy(|tr.s.attempts[p].keys|)
    ensures HealthyStory(tr.s.attempts[p], LoginAnswers.Story(c, tr, p))
  {
    if tr.Then? {
      LoginAnswers.StoryFits(c, tr.prev, p);
      ReachableInv(c, tr.prev);
      if p in tr.prev.s.attempts {
        if tr.e.Step? && tr.e.p == p {
          assert tr.s.attempts[p].keys == tr.prev.s.attempts[p].keys;
          HealthyAlways(c, tr.prev, base, p, o);
          StepKeepsHealthy(c, tr.prev.s, tr.prev.s.attempts[p], tr.e.a, o, LoginAnswers.Story(c, tr.prev, p));
        } else {
          OthersKept(c, tr.prev.s, tr.e, tr.s, p);
          HealthyAlways(c, tr.prev, base, p, o);
        }
      }
    }
  }

  lemma HealthyIsUntroubled(c: Config, tr: Trace, base: Trace, p: Pid, o: Outcomes)
    requires Execution(c, tr) && Obeys(tr, base, p, o) && p !in base.s.attempts && p in tr.s.attempts
    requires o.Healthy(|tr.s.attempts[p].keys|) && tr.s.attempts[p].account.Known?
    requires LoginAnswers.GaveUp !in LoginAnswers.Story(c, tr, p)
    ensures LoginAnswers.Untroubled(LoginAnswers.Story(c, tr, p))
  {
    HealthyAlways(c, tr, base, p, o);
    var story := LoginAnswers.Story(c, tr, p);
    forall i | 0 <= i < |story|
      ensures story[i] !in {LoginAnswers.ReadFailed, LoginAnswers.LookUpFailed, LoginAnswers.GaveUp,
                            LoginAnswers.Panicked, LoginAnswers.NotCreated}
      ensures !(story[i].Created? && !story[i].reported)
    {
      assert story[i] in story;
    }
  }

  datatype Refusal = Proceed | RefuseWith(answer: Answer)

  /** Where checkPassword's outcome leads once the permit is freed. */
  function Onward(refused: Refusal, matched: bool): Continuation {
    if refused.RefuseWith? then Refuse(refused.answer) else if matched then Accept else Reject
  }

  class Server {
    const c: Config

    // The database.
    var rows: Rows
    var sessions: map<string, int>
    var directory: Directory
    var clock: int

    // The process.
    var tokens: int
    var inFlight: int
    var peak: int

    /** The run that led to the present fields. */
    ghost var run: Trace

    ghost predicate Matches(s: State)
      reads this
    {
      && rows == s.rows && sessions == s.sessions && directory == s.directory && clock == s.clock
      && tokens == s.tokens && inFlight == s.inFlight && peak == s.peak
    }

    ghost predicate Valid()
      reads this
    {
      Execution(c, run) && Matches(run.s)
    }

    /** Attempt `p` is at `pc`. */
    ghost predicate At(p: Pid, pc: Pc)
      reads this
    {
      p in run.s.attempts && run.s.attempts[p].pc == pc
    }

    ghost function Me(p: Pid): Attempt
      requires p in run.s.attempts
      reads this
    {
      run.s.attempts[p]
    }

    /** A process that has just started, over whatever the table holds. */
    constructor (c: Config, s: State)
      requires c.CurveIsValid() && Initial(c, s)
      ensures Valid() && this.c == c && run == Start(s)
    {
      this.c := c;
      rows, sessions, directory, clock := s.rows, s.sessions, s.directory, s.clock;
      tokens, inFlight, peak := s.tokens, s.inFlight, s.peak;
      run := Start(s);
    }

    /** The run so far continues `base` as decided for attempt `p`, whose session id
        nobody else has used. */
    ghost predicate Runs(p: Pid, base: Trace, o: Outcomes)
      reads this
    {
      && Valid() && p in run.s.attempts && Obeys(run, base, p, o)
      && (Late(run.s.attempts[p]) || o.id !in sessions)
    }

    /** Others run: any number of events, none of them attempt `p`'s, and none with its
        freshly minted session id. The body does nothing; callers may rely only on the
        contract. */
    method Interfere(ghost p: Pid, ghost base: Trace, ghost o: Outcomes)
      requires Runs(p, base, o)
      modifies this
      ensures Runs(p, base, o) && Extends(run, old(run)) && Me(p) == old(Me(p))
    {
    }

    /** Interference, and what it means for the peak. */
    method LetOthersPublish(ghost p: Pid, ghost base: Trace, ghost o: Outcomes)
      requires Runs(p, base, o)
      modifies this
      ensures Runs(p, base, o) && Me(p) == old(Me(p))
      ensures old(peak) <= peak
    {
      Interfere(p, base, o);
      PeakRisesAlong(c, run, old(run));
    }

    /** Logs the action the fields have just been updated for. */
    ghost method Act(p: Pid, base: Trace, o: Outcomes, a: Action)
      requires Execution(c, run) && p in run.s.attempts && Enabled(run.s, Me(p), a)
      requires Obeys(run, base, p, o) && AsDecided(o, Me(p), a) && Matches(After(c, run.s, p, a))
      modifies this`run
      ensures Valid() && Obeys(run, base, p, o)
      ensures run == Then(old(run), Step(p, a), After(c, old(run.s), p, a))
    {
      run := Then(run, Step(p, a), After(c, run.s, p, a));
    }

    /** throttled: proceeds if nothing is active; 429, with a wait that just passes every
        deadline, if something is; 500 if the read failed. */
    method Throttled(ghost p: Pid, ghost base: Trace, ghost o: Outcomes, keys: seq<string>, answered: bool)
      returns (refused: Refusal)
      requires Runs(p, base, o) && Me(p).keys == keys
      requires (At(p, FirstRead) && answered == o.firstRead)
               || (At(p, SecondRead) && answered == o.secondRead && !o.panicsAtRead)
      modifies this
      ensures Runs(p, base, o)
      ensures old(At(p, FirstRead)) ==>
                Me(p) == old(Me(p)).(pc := if refused.Proceed? then FindUser else Done(refused.answer))
      ensures old(At(p, SecondRead)) ==>
                Me(p) == if refused.Proceed? then old(Me(p)).(pc := Verify)
                         else old(Me(p)).(pc := CountOut(Refuse(refused.answer)), released := true)
      ensures refused == RefuseWith(Internal) <==> !answered
      ensures refused.RefuseWith? && answered ==>
                refused.answer.TooManyAttempts?
                && LoginThrottle.Announces(old(run.s), keys, refused.answer.retryAfter)
    {
      var wait := Remaining(rows, keys, clock);
      if wait > 0 { RetryAfterLandsJustPast(rows, keys, clock); }
      Act(p, base, o, Query(answered));
      if !answered {
        refused := RefuseWith(Internal);
      } else if wait > 0 {
        refused := RefuseWith(TooManyAttempts(RetryAfter(wait)));
      } else {
        refused := Proceed;
      }
    }

    /** resolve: the account to check against, or an outage. */
    method Resolve(ghost p: Pid, ghost base: Trace, o: Outcomes, email: string) returns (ok: bool, account: Account)
      requires Runs(p, base, o) && At(p, FindUser) && Me(p).email == email
      modifies this
      ensures Runs(p, base, o)
      ensures Me(p) == if ok then old(Me(p)).(account := account, pc := Enter)
                       else old(Me(p)).(account := Me(p).account, pc := Done(Internal))
      ensures o.findUser && o.findHash ==> ok
    {
      account := Unknown;
      ok := o.findUser;
      var found := email in directory.users;
      var user := if found then directory.users[email] else 0;
      Act(p, base, o, Query(ok));
      if !ok || !found { return; }
      Interfere(p, base, o);
      ok, account := FindCredential(p, base, o, user);
    }

    /** GetCredentialByUserID: the account with its hash, or a dormant one. */
    method FindCredential(ghost p: Pid, ghost base: Trace, o: Outcomes, user: int) returns (ok: bool, account: Account)
      requires Runs(p, base, o) && At(p, FindHash(user))
      modifies this
      ensures Runs(p, base, o)
      ensures Me(p) == if ok then old(Me(p)).(account := account, pc := Enter)
                       else old(Me(p)).(pc := Done(Internal))
      ensures ok <==> o.findHash
      ensures ok ==> account == if user in old(directory.hashes) then Known(user, old(directory.hashes)[user])
                                else Dormant(user)
    {
      ok := o.findHash;
      if ok && user in directory.hashes {
        account := Known(user, directory.hashes[user]);
      } else {
        account := Dormant(user);
      }
      Act(p, base, o, Query(ok));
    }

    /** acquireArgonPermit: waits for a permit until the context ends, then
        publishes the count it saw. The swap loop terminates under any
        interference: a failed swap means the bounded peak rose. */
    method AcquireArgonPermit(ghost p: Pid, ghost base: Trace, o: Outcomes) returns (acquired: bool)
      requires Runs(p, base, o) && At(p, Enter)
      modifies this
      ensures Runs(p, base, o)
      ensures Me(p) == old(Me(p)).(pc := if acquired then SecondRead else Done(Internal))
      ensures !o.live ==> !acquired
      ensures o.live && o.patience > 0 && old(tokens) < CAP ==> acquired
    {
      acquired := Wait(p, base, o);
      if !acquired { return; }
      Interfere(p, base, o);
      PublishCount(p, base, o);
    }

    /** The select: a token as soon as one is free, or the end of the context, which
        comes after `patience` rounds; with both at once, either. */
    method Wait(ghost p: Pid, ghost base: Trace, o: Outcomes) returns (acquired: bool)
      requires Runs(p, base, o) && At(p, Enter)
      modifies this
      ensures Runs(p, base, o)
      ensures Me(p) == old(Me(p)).(pc := if acquired then CountIn else Done(Internal))
      ensures !o.live ==> !acquired
      ensures o.live && o.patience > 0 && old(tokens) < CAP ==> acquired
    {
      Act(p, base, o, Context(o.live));
      if !o.live { return false; }
      var patience := o.patience;
      while tokens >= CAP && patience > 0
        invariant Runs(p, base, o)
        invariant Me(p) == old(Me(p)).(pc := Queue)
        invariant old(tokens) < CAP ==> tokens < CAP && patience == o.patience
        decreases patience
      {
        Interfere(p, base, o);
        patience := patience - 1;
      }
      acquired := Select(p, base, o, patience == 0);
    }

    /** What the select chooses once it can. */
    method Select(ghost p: Pid, ghost base: Trace, o: Outcomes, ended: bool) returns (acquired: bool)
      requires Runs(p, base, o) && At(p, Queue)
      modifies this
      ensures Runs(p, base, o)
      ensures Me(p) == old(Me(p)).(pc := if acquired then CountIn else Done(Internal))
      ensures acquired <==> old(tokens) < CAP && (!ended || o.lucky)
    {
      acquired := tokens < CAP && (!ended || o.lucky);
      if acquired {
        tokens := tokens + 1;
        Act(p, base, o, TakeToken);
      } else {
        Act(p, base, o, GiveUp);
      }
    }

    method PublishCount(ghost p: Pid, ghost base: Trace, ghost o: Outcomes)
      requires Runs(p, base, o) && At(p, CountIn)
      modifies this
      ensures Runs(p, base, o)
      ensures Me(p) == old(Me(p)).(pc := SecondRead)
    {
      inFlight := inFlight + 1;
      var n := inFlight;
      Act(p, base, o, Run);
      ReachableInv(c, run);
      var published := false;
      ghost var low := peak;
      while !published
        invariant Runs(p, base, o)
        invariant Me(p) == old(Me(p)).(pc := if published then SecondRead else LoadPeak(n))
        invariant low <= peak <= CAP
        decreases !published, CAP - low
      {
        published := TryPublish(p, base, o, n);
        low := if published then low else low + 1;
      }
    }

    /** One pass of the swap loop; unless it is the last, the peak has risen. */
    method TryPublish(ghost p: Pid, ghost base: Trace, ghost o: Outcomes, n: int) returns (published: bool)
      requires Runs(p, base, o) && At(p, LoadPeak(n))
      modifies this
      ensures Runs(p, base, o)
      ensures Me(p) == old(Me(p)).(pc := if published then SecondRead else LoadPeak(n))
      ensures old(peak) <= peak <= CAP && (!published ==> old(peak) < peak)
    {
      LetOthersPublish(p, base, o);
      var seen := peak;
      Act(p, base, o, Run);
      if n <= seen {
        ReachableInv(c, run);
        return true;
      }
      LetOthersPublish(p, base, o);
      published := peak == seen;
      if published { peak := n; }
      Act(p, base, o, Run);
      ReachableInv(c, run);
    }

    /** releaseArgonPermit. */
    method ReleaseArgonPermit(ghost p: Pid, ghost base: Trace, ghost o: Outcomes, ghost next: Continuation)
      requires Runs(p, base, o) && At(p, CountOut(next))
      modifies this
      ensures Runs(p, base, o)
      ensures Me(p) == old(Me(p)).(pc := match next
                                         case Refuse(answer) => Returning(answer)
                                         case Reject => Returning(InvalidCredentials)
                                         case Accept => ClearRows
                                         case Finish(answer) => Done(answer))
    {
      Interfere(p, base, o);
      inFlight := inFlight - 1;
      Act(p, base, o, Run);
      Interfere(p, base, o);
      ReceiveToken(p, base, o, next);
    }

    /** The receive on argonSem. */
    method ReceiveToken(ghost p: Pid, ghost base: Trace, ghost o: Outcomes, ghost next: Continuation)
      requires Runs(p, base, o) && At(p, FreeToken(next))
      modifies this
      ensures Runs(p, base, o) && tokens == old(tokens) - 1
      ensures Me(p) == old(Me(p)).(pc := match next
                                         case Refuse(answer) => Returning(answer)
                                         case Reject => Returning(InvalidCredentials)
                                         case Accept => ClearRows
                                         case Finish(answer) => Done(answer))
    {
      tokens := tokens - 1;
      Act(p, base, o, Run);
    }

    /** RecordLoginFailure for the i-th key; its error is only logged. */
    method RecordLoginFailure(ghost p: Pid, ghost base: Trace, o: Outcomes, keys: seq<string>, i: nat)
      returns (panicked: bool)
      requires Runs(p, base, o) && At(p, Record(i)) && Me(p).keys == keys && i < |keys|
      modifies this
      ensures Runs(p, base, o)
      ensures Me(p) == if panicked then old(Me(p)).(pc := Returning(Internal))
                       else if i + 1 < |keys| then old(Me(p)).(pc := Record(i + 1))
                       else old(Me(p)).(pc := CountOut(Reject), released := true)
      ensures panicked <==> o.record(i).Panics?
    {
      Interfere(p, base, o);
      panicked := o.record(i).Panics?;
      if panicked {
        Act(p, base, o, Panic);
      } else {
        var applied := o.record(i).Applied?;
        if applied { rows := RecordFailure(rows, keys[i], clock, c.first, c.max); }
        Act(p, base, o, Write(applied));
      }
    }

    /** recordFailure: every key's row on its own, whether or not another failed. */
    method RecordFailures(ghost p: Pid, ghost base: Trace, o: Outcomes, keys: seq<string>) returns (panicked: bool)
      requires Runs(p, base, o) && At(p, Record(0)) && Me(p).keys == keys && |keys| > 0
      modifies this
      ensures Runs(p, base, o)
      ensures Me(p) == if panicked then old(Me(p)).(pc := Returning(Internal))
                       else old(Me(p)).(pc := CountOut(Reject), released := true)
      ensures panicked <==> exists i :: 0 <= i < |keys| && o.record(i).Panics?
    {
      panicked := false;
      var i := 0;
      while i < |keys|
        invariant 0 <= i <= |keys|
        invariant Runs(p, base, o)
        invariant Me(p) == if i < |keys| then old(Me(p)).(pc := Record(i))
                           else old(Me(p)).(pc := CountOut(Reject), released := true)
        invariant forall j :: 0 <= j < i ==> !o.record(j).Panics?
      {
        panicked := RecordLoginFailure(p, base, o, keys, i);
        if panicked { return; }
        i := i + 1;
      }
    }

    /** checkPassword, under the caller's permit. */
    method CheckPassword(ghost p: Pid, ghost base: Trace, o: Outcomes, keys: seq<string>, password: string,
                         hash: string)
      returns (refused: Refusal, ok: bool, panicked: bool)
      requires Runs(p, base, o) && At(p, SecondRead) && !Me(p).released
      requires Me(p).keys == keys && |keys| > 0 && Me(p).password == password && Me(p).account.HashToCheck(c) == hash
      modifies this
      ensures Runs(p, base, o)
      ensures Me(p) == if panicked then old(Me(p)).(pc := Returning(Internal))
                       else old(Me(p)).(pc := CountOut(Onward(refused, ok)), released := true)
      ensures ok ==> c.matches(password, hash)
    {
      ok := false;
      refused := Proceed;
      Interfere(p, base, o);
      panicked := o.panicsAtRead;
      if panicked { Act(p, base, o, Panic); return; }
      refused := Throttled(p, base, o, keys, o.secondRead);
      if refused.RefuseWith? { return; }
      Interfere(p, base, o);
      ok, panicked := VerifyAndRecord(p, base, o, keys, password, hash);
    }

    /** The check, and the failures it calls for. */
    method VerifyAndRecord(ghost p: Pid, ghost base: Trace, o: Outcomes, keys: seq<string>, password: string,
                           hash: string)
      returns (ok: bool, panicked: bool)
      requires Runs(p, base, o) && At(p, Verify) && !Me(p).released
      requires Me(p).keys == keys && |keys| > 0 && Me(p).password == password && Me(p).account.HashToCheck(c) == hash
      modifies this
      ensures Runs(p, base, o)
      ensures Me(p) == if panicked then old(Me(p)).(pc := Returning(Internal))
                       else old(Me(p)).(pc := CountOut(if ok then Accept else Reject), released := true)
      ensures ok <==> c.matches(password, hash) && !o.panicsAtCheck
    {
      ok := false;
      panicked := o.panicsAtCheck;
      if panicked { Act(p, base, o, Panic); return; }
      ok := c.matches(password, hash);
      Act(p, base, o, Run);
      if !ok {
        panicked := RecordFailures(p, base, o, keys);
      }
    }

    /** ClearLoginAttempts; its error is only logged. */
    method ClearLoginAttempts(ghost p: Pid, ghost base: Trace, o: Outcomes, keys: seq<string>)
      requires Runs(p, base, o) && At(p, ClearRows) && Me(p).keys == keys
      modifies this
      ensures Runs(p, base, o)
      ensures Me(p) == old(Me(p)).(pc := CreateSession)
    {
      Interfere(p, base, o);
      if o.clear { rows := Delete(rows, keys); }
      Act(p, base, o, Write(o.clear));
    }

    /** IssueSession: one row for the account's user, if the insert goes through. */
    method IssueSession(ghost p: Pid, ghost base: Trace, o: Outcomes, account: Account) returns (issued: bool)
      requires Runs(p, base, o) && At(p, CreateSession) && Me(p).account == account
      modifies this
      ensures Runs(p, base, o)
      ensures Me(p) == old(Me(p)).(pc := Returning(if issued then NoContent else Internal))
      ensures issued <==> account.Known? && o.insert && o.reported
    {
      Interfere(p, base, o);
      // sessions.user_id references users: without an account there is nobody to own a row.
      var applied := o.insert && account.Known?;
      issued := applied && o.reported;
      if applied { sessions := sessions[o.id := account.user]; }
      Act(p, base, o, Create(o.id, applied, issued));
    }

    /** LocalLogin, for a caller not seen before, under any interference. Its actions are
        as decided, its answer explains everything it did, a 429 announces a wait that
        just passes the deadlines and touched nothing, and with every statement answered
        and no giving up an account's login does not fail. */
    method LocalLogin(ghost p: Pid, o: Outcomes, email: string, ip: string, password: string) returns (answer: Answer)
      requires Valid() && p !in run.s.attempts && o.id !in sessions
      modifies this
      ensures Valid() && Obeys(run, old(run), p, o) && At(p, Done(answer))
      ensures Me(p).email == email && Me(p).keys == BackoffKeys(email, ip) && Me(p).password == password
      ensures LoginAnswers.Explains(c, Me(p), answer, LoginAnswers.Story(c, run, p))
      ensures answer.TooManyAttempts? ==>
                LoginAnswers.TouchedNothing(run, p) && LoginThrottle.WasAnnounced(run, p, answer.retryAfter)
      ensures o.Healthy(|BackoffKeys(email, ip)|) && Me(p).account.Known?
              && LoginAnswers.GaveUp !in LoginAnswers.Story(c, run, p) ==>
                && !answer.Internal?
                && (answer.NoContent? <==>
                      LoginAnswers.Matched(Me(p).account.hash) in LoginAnswers.Story(c, run, p))
    {
      answer := Login(p, o, email, ip, password);
      LoginAnswers.AnswerMatchesStory(c, run, p);
      if answer.TooManyAttempts? {
        LoginAnswers.RefusalTouchesNothing(c, run, p);
        LoginThrottle.RetryAfterIsAnnounced(c, run, p, answer.retryAfter);
      }
      if o.Healthy(|Me(p).keys|) && Me(p).account.Known? && LoginAnswers.GaveUp !in LoginAnswers.Story(c, run, p) {
        HealthyIsUntroubled(c, run, old(run), p, o);
        LoginAnswers.UntroubledAnswer(c, run, p);
      }
    }

    /** Its body. */
    method Login(ghost p: Pid, o: Outcomes, email: string, ip: string, password: string) returns (answer: Answer)
      requires Valid() && p !in run.s.attempts && o.id !in sessions
      modifies this
      ensures Valid() && Obeys(run, old(run), p, o) && At(p, Done(answer))
      ensures Me(p).email == email && Me(p).keys == BackoffKeys(email, ip) && Me(p).password == password
    {
      var keys := BackoffKeys(email, ip);
      ghost var base := run;
      ghost var x := Attempt(email, keys, password, Unknown, false, FirstRead);
      run := Then(run, Arrive(p, email, ip, password), run.s.(attempts := run.s.attempts[p := x]));
      Interfere(p, base, o);

      var refused := Throttled(p, base, o, keys, o.firstRead);
      if refused.RefuseWith? { return refused.answer; }
      Interfere(p, base, o);

      var ok, account := Resolve(p, base, o, email);
      if !ok { return Internal; }
      Interfere(p, base, o);

      var acquired := AcquireArgonPermit(p, base, o);
      if !acquired { return Internal; }
      answer := UnderPermit(p, base, o, keys, password, account);
    }

    /** LocalLogin from the acquired permit on: the once-wrapped release runs as
        soon as checkPassword is done, and again, if it has not, on the way out. */
    method UnderPermit(ghost p: Pid, ghost base: Trace, o: Outcomes, keys: seq<string>, password: string,
                       account: Account)
      returns (answer: Answer)
      requires Runs(p, base, o) && At(p, SecondRead) && !Me(p).released
      requires Me(p).keys == keys && |keys| > 0 && Me(p).password == password && Me(p).account == account
      modifies this
      ensures Runs(p, base, o)
      ensures Me(p) == old(Me(p)).(pc := Done(answer), released := true)
    {
      var refused, matched, panicked := CheckPassword(p, base, o, keys, password, account.HashToCheck(c));
      if panicked {
        answer := Internal;
      } else {
        answer := AfterCheck(p, base, o, keys, account, refused, matched);
      }
      DeferredRelease(p, base, o, answer, !panicked);
    }

    /** The release, and what the check's outcome is answered with. */
    method AfterCheck(ghost p: Pid, ghost base: Trace, o: Outcomes, keys: seq<string>, account: Account,
                      refused: Refusal, matched: bool)
      returns (answer: Answer)
      requires Runs(p, base, o) && At(p, CountOut(Onward(refused, matched)))
      requires Me(p).keys == keys && Me(p).account == account
      modifies this
      ensures Runs(p, base, o)
      ensures Me(p) == old(Me(p)).(pc := Returning(answer))
    {
      ReleaseArgonPermit(p, base, o, Onward(refused, matched));
      if refused.RefuseWith? { return refused.answer; }
      if !matched { return InvalidCredentials; }
      ClearLoginAttempts(p, base, o, keys);
      var issued := IssueSession(p, base, o, account);
      answer := if issued then NoContent else Internal;
    }

    /** The deferred releasePermit: does nothing if the release has run. */
    method DeferredRelease(ghost p: Pid, ghost base: Trace, ghost o: Outcomes, ghost answer: Answer, released: bool)
      requires Runs(p, base, o) && At(p, Returning(answer)) && Me(p).released == released
      modifies this
      ensures Runs(p, base, o)
      ensures Me(p) == old(Me(p)).(pc := Done(answer), released := true)
    {
      Interfere(p, base, o);
      Act(p, base, o, Run);
      if !released { ReleaseArgonPermit(p, base, o, Finish(answer)); }
    }
  }
}
