/** What the answer to a login says about what the login did, in every run: each
    attempt's answer fixes the story of everything it saw and did, in order. */
module LoginAnswers {
  import opened Backoff
  import opened LoginProtocol
  import LoginThrottle

  /** One thing an attempt saw or did. */
  datatype Fact =
    | Throttled | Unthrottled | ReadFailed
    | FoundUser(user: int) | NoUser | FoundHash(hash: string) | NoHash | LookUpFailed
    | GaveUp | Took
    | Matched(hash: string) | Mismatched(hash: string)
    | AttemptedWrite(key: string)
    | Freed
    | AttemptedClear
    | Created(owner: int, reported: bool) | NotCreated
    | Panicked

  function ReadFact(s: State, x: Attempt, ok: bool): Fact {
    if !ok then ReadFailed else if Remaining(s.rows, x.keys, s.clock) > 0 then Throttled else Unthrottled
  }

  /** What the attempt's next action amounts to, judged on the state it happens in. */
  function FactOf(c: Config, s: State, x: Attempt, a: Action): seq<Fact>
    requires Enabled(s, x, a)
  {
    if a.Panic? then [Panicked]
    else match x.pc
    case FirstRead | SecondRead => [ReadFact(s, x, a.ok)]
    case FindUser =>
      [if !a.ok then LookUpFailed
       else if x.email in s.directory.users then FoundUser(s.directory.users[x.email]) else NoUser]
    case FindHash(u) =>
      [if !a.ok then LookUpFailed
       else if u in s.directory.hashes then FoundHash(s.directory.hashes[u]) else NoHash]
    case Enter => if a.live then [] else [GaveUp]
    case Queue => [if a.TakeToken? then Took else GaveUp]
    case Verify =>
      var hash := x.account.HashToCheck(c);
      [if c.matches(x.password, hash) then Matched(hash) else Mismatched(hash)]
    case Record(i) => if i < |x.keys| then [AttemptedWrite(x.keys[i])] else []
    case FreeToken(_) => [Freed]
    case ClearRows => [AttemptedClear]
    case CreateSession => [if a.applied then Created(x.account.user, a.reported) else NotCreated]
    case _ => []
  }

  /** Everything attempt `p` saw and did in the run. */
  ghost function Story(c: Config, tr: Trace, p: Pid): seq<Fact>
    requires c.CurveIsValid() && tr.Valid(c)
  {
    if tr.Start? then []
    else if tr.e.Step? && tr.e.p == p then
      Story(c, tr.prev, p) + FactOf(c, tr.prev.s, tr.prev.s.attempts[p], tr.e.a)
    else Story(c, tr.prev, p)
  }

  // ------------------------------------------------------------ stories

  function LookUp(account: Account): seq<Fact> {
    match account
    case Unknown => [NoUser]
    case Dormant(u) => [FoundUser(u), NoHash]
    case Known(u, h) => [FoundUser(u), FoundHash(h)]
  }

  /** Past a first read that found no backoff, and looked up: about to queue. */
  function Queued(account: Account): seq<Fact> { [Unthrottled] + LookUp(account) }

  /** Past a second read, under the permit, that found no backoff either. */
  function Cleared(account: Account): seq<Fact> { Queued(account) + [Took, Unthrottled] }

  /** One write attempted per key, in order. */
  function Writes(keys: seq<string>): seq<Fact> {
    seq(|keys|, i requires 0 <= i < |keys| => AttemptedWrite(keys[i]))
  }

  function Rejected(c: Config, x: Attempt, written: nat): seq<Fact>
    requires written <= |x.keys|
  {
    Cleared(x.account) + [Mismatched(x.account.HashToCheck(c))] + Writes(x.keys[..written])
  }

  function Accepted(c: Config, x: Attempt): seq<Fact> {
    Cleared(x.account) + [Matched(x.account.HashToCheck(c))]
  }

  predicate IsWrite(f: Fact) { f.AttemptedWrite? || f.AttemptedClear? || f.Created? }

  predicate IsCheck(f: Fact) { f.Matched? || f.Mismatched? }

  /** Nothing is written before a password has been checked. */
  predicate WritesFollowCheck(story: seq<Fact>) {
    forall i :: 0 <= i < |story| && IsWrite(story[i]) ==> exists j :: 0 <= j < i && IsCheck(story[j])
  }

  /** The story of an attempt that has answered, or settled, `answer`. */
  predicate Explains(c: Config, x: Attempt, answer: Answer, story: seq<Fact>) {
    match answer
    // The one session was created last, for the account whose hash matched.
    case NoContent =>
      x.account.Known? && story == Accepted(c, x) + [Freed, AttemptedClear, Created(x.account.user, true)]
    // Every key's write was attempted, after the check and before the permit was freed.
    case InvalidCredentials => story == Rejected(c, x, |x.keys|) + [Freed]
    case TooManyAttempts(_) => story == [Throttled] || story == Queued(x.account) + [Took, Throttled, Freed]
    case Internal => Fails(c, x, story)
  }

  /** The story of an attempt that fails: a statement of its own failed, it gave up in
      the queue, it panicked, or it matched in vain. */
  predicate Fails(c: Config, x: Attempt, story: seq<Fact>) {
    || story == [ReadFailed]
    || story == [Unthrottled, LookUpFailed]
    || (|story| == 3 && story[0] == Unthrottled && story[1].FoundUser? && story[2] == LookUpFailed)
    || story == Queued(x.account) + [GaveUp]
    || story == Queued(x.account) + [Took, ReadFailed, Freed]
    || (story != [] && Last(story) == Freed && Panics(c, x, Front(story)))
    || MatchesInVain(c, x, story)
  }

  function Last(story: seq<Fact>): Fact
    requires story != []
  {
    story[|story| - 1]
  }

  function Front(story: seq<Fact>): seq<Fact>
    requires story != []
  {
    story[..|story| - 1]
  }

  /** A panic under the permit, before the read, the check or a write. */
  predicate Panics(c: Config, x: Attempt, story: seq<Fact>) {
    story != [] && Last(story) == Panicked && MayPanicAfter(c, x, Front(story))
  }

  predicate MayPanicAfter(c: Config, x: Attempt, story: seq<Fact>) {
    var written := |story| - |Cleared(x.account)| - 1;
    || story == Queued(x.account) + [Took]
    || story == Cleared(x.account)
    || (0 <= written < |x.keys| && story == Rejected(c, x, written))
  }

  /** Matched, freed and cleared, and then the session's insert failed, or went through
      and was reported as failed. */
  predicate MatchesInVain(c: Config, x: Attempt, story: seq<Fact>) {
    && story != []
    && Front(story) == Accepted(c, x) + [Freed, AttemptedClear]
    && (Last(story) == NotCreated || (x.account.Known? && Last(story) == Created(x.account.user, false)))
  }

  predicate MidStory(c: Config, x: Attempt, story: seq<Fact>) {
    match x.pc
    case FirstRead => story == []
    case FindUser => story == [Unthrottled]
    case FindHash(u) => story == [Unthrottled, FoundUser(u)]
    case Enter | Queue => story == Queued(x.account)
    case CountIn | LoadPeak(_) | SwapPeak(_, _) | SecondRead => story == Queued(x.account) + [Took]
    case Verify => story == Cleared(x.account)
    case Record(i) => i <= |x.keys| && story == Rejected(c, x, i)
    case CountOut(next) => BeforeFreed(c, x, next, story)
    case FreeToken(next) => BeforeFreed(c, x, next, story)
    case ClearRows => story == Accepted(c, x) + [Freed]
    case CreateSession => story == Accepted(c, x) + [Freed, AttemptedClear]
    case Returning(answer) =>
      if x.released then Explains(c, x, answer, story) else answer.Internal? && Panics(c, x, story)
    case Done(answer) => Explains(c, x, answer, story)
  }

  predicate BeforeFreed(c: Config, x: Attempt, next: Continuation, story: seq<Fact>) {
    match next
    case Refuse(answer) =>
      story == Queued(x.account) + [Took, if answer.TooManyAttempts? then Throttled else ReadFailed]
      && (answer.TooManyAttempts? || answer.Internal?)
    case Reject => story == Rejected(c, x, |x.keys|)
    case Accept => story == Accepted(c, x)
    case Finish(answer) => answer.Internal? && Panics(c, x, story)
  }

  lemma {:induction false} WritesGrow(keys: seq<string>, i: nat)
    requires i < |keys|
    ensures Writes(keys[..i + 1]) == Writes(keys[..i]) + [AttemptedWrite(keys[i])]
  {
  }

  lemma BeforePermitKeepsStory(c: Config, s: State, x: Attempt, a: Action, story: seq<Fact>)
    requires x.pc.FirstRead? || x.pc.FindUser? || x.pc.FindHash? || x.pc.Enter? || x.pc.Queue?
    requires AttemptOk(x, s.peak) && Enabled(s, x, a) && MidStory(c, x, story)
    ensures MidStory(c, Moved(c, s, x, a), story + FactOf(c, s, x, a))
  {
    var fact := FactOf(c, s, x, a);
    if fact == [] { assert story + fact == story; }
  }

  lemma AppendLast(story: seq<Fact>, fact: Fact)
    ensures story + [fact] != [] && Last(story + [fact]) == fact && Front(story + [fact]) == story
  {
  }

  lemma PanicKeepsStory(c: Config, s: State, x: Attempt, story: seq<Fact>)
    requires AttemptOk(x, s.peak) && Enabled(s, x, Panic) && MidStory(c, x, story)
    ensures MidStory(c, Moved(c, s, x, Panic), story + FactOf(c, s, x, Panic))
  {
    AppendLast(story, Panicked);
  }

  lemma UnderPermitKeepsStory(c: Config, s: State, x: Attempt, a: Action, story: seq<Fact>)
    requires x.pc.CountIn? || x.pc.LoadPeak? || x.pc.SwapPeak? || x.pc.SecondRead? || x.pc.Verify?
    requires AttemptOk(x, s.peak) && Enabled(s, x, a) && !a.Panic? && MidStory(c, x, story)
    ensures MidStory(c, Moved(c, s, x, a), story + FactOf(c, s, x, a))
  {
    var fact := FactOf(c, s, x, a);
    if fact == [] {
      assert story + fact == story;
    } else if x.pc.SecondRead? {
      assert story + fact == Queued(x.account) + [Took, fact[0]];
    }
  }

  lemma RecordKeepsStory(c: Config, s: State, x: Attempt, a: Action, story: seq<Fact>)
    requires x.pc.Record? && AttemptOk(x, s.peak) && Enabled(s, x, a) && !a.Panic? && MidStory(c, x, story)
    ensures MidStory(c, Moved(c, s, x, a), story + FactOf(c, s, x, a))
  {
    var i := x.pc.i;
    WritesGrow(x.keys, i);
    assert story + FactOf(c, s, x, a) == Rejected(c, x, i + 1);
  }

  lemma ReleaseKeepsStory(c: Config, s: State, x: Attempt, a: Action, story: seq<Fact>)
    requires x.pc.CountOut? || x.pc.FreeToken?
    requires AttemptOk(x, s.peak) && Enabled(s, x, a) && MidStory(c, x, story)
    ensures MidStory(c, Moved(c, s, x, a), story + FactOf(c, s, x, a))
  {
    if x.pc.CountOut? {
      assert story + FactOf(c, s, x, a) == story;
    } else {
      FreedKeepsStory(c, x, x.pc.next, story);
    }
  }

  /** What freeing the permit makes of the story, whatever comes next. */
  lemma FreedKeepsStory(c: Config, x: Attempt, next: Continuation, story: seq<Fact>)
    requires BeforeFreed(c, x, next, story)
    ensures match next
            case Refuse(answer) => Explains(c, x, answer, story + [Freed])
            case Reject => Explains(c, x, InvalidCredentials, story + [Freed])
            case Accept => story + [Freed] == Accepted(c, x) + [Freed]
            case Finish(answer) => Explains(c, x, answer, story + [Freed])
  {
    if next.Refuse? {
      var last := if next.answer.TooManyAttempts? then Throttled else ReadFailed;
      assert story + [Freed] == Queued(x.account) + [Took, last, Freed];
    } else if next.Finish? {
      AppendLast(story, Freed);
    }
  }

  lemma AfterReleaseKeepsStory(c: Config, s: State, x: Attempt, a: Action, story: seq<Fact>)
    requires x.pc.ClearRows? || x.pc.CreateSession? || x.pc.Returning?
    requires AttemptOk(x, s.peak) && Enabled(s, x, a) && MidStory(c, x, story)
    ensures MidStory(c, Moved(c, s, x, a), story + FactOf(c, s, x, a))
  {
    var fact := FactOf(c, s, x, a);
    if x.pc.ClearRows? {
      assert story + fact == Accepted(c, x) + [Freed, AttemptedClear];
    } else if x.pc.CreateSession? {
      assert story + fact == Accepted(c, x) + [Freed, AttemptedClear, fact[0]];
      AppendLast(story, fact[0]);
    } else {
      assert story + fact == story;
    }
  }

  lemma StepKeepsStory(c: Config, s: State, x: Attempt, a: Action, story: seq<Fact>)
    requires AttemptOk(x, s.peak) && Enabled(s, x, a) && MidStory(c, x, story)
    ensures MidStory(c, Moved(c, s, x, a), story + FactOf(c, s, x, a))
  {
    if a.Panic? {
      PanicKeepsStory(c, s, x, story);
    } else if x.pc.Record? {
      RecordKeepsStory(c, s, x, a, story);
    } else if x.pc.CountOut? || x.pc.FreeToken? {
      ReleaseKeepsStory(c, s, x, a, story);
    } else if x.pc.ClearRows? || x.pc.CreateSession? || x.pc.Returning? {
      AfterReleaseKeepsStory(c, s, x, a, story);
    } else if Holding(x) {
      UnderPermitKeepsStory(c, s, x, a, story);
    } else {
      BeforePermitKeepsStory(c, s, x, a, story);
    }
  }

  lemma AppendKeepsWriteOrder(story: seq<Fact>, fact: seq<Fact>, k: nat)
    requires WritesFollowCheck(story) && |fact| <= 1
    requires fact != [] && IsWrite(fact[0]) ==> k < |story| && IsCheck(story[k])
    ensures WritesFollowCheck(story + fact)
  {
    var story' := story + fact;
    forall i | 0 <= i < |story'| && IsWrite(story'[i]) ensures exists j :: 0 <= j < i && IsCheck(story'[j]) {
      if i < |story| {
        var j :| 0 <= j < i && IsCheck(story[j]);
        assert IsCheck(story'[j]);
      } else {
        assert IsCheck(story'[k]);
      }
    }
  }

  lemma StepKeepsWriteOrder(c: Config, s: State, x: Attempt, a: Action, story: seq<Fact>)
    requires AttemptOk(x, s.peak) && Enabled(s, x, a) && MidStory(c, x, story) && WritesFollowCheck(story)
    ensures WritesFollowCheck(story + FactOf(c, s, x, a))
  {
    AppendKeepsWriteOrder(story, FactOf(c, s, x, a), |Cleared(x.account)|);
  }

  lemma {:induction false} StoryFits(c: Config, tr: Trace, p: Pid)
    requires Execution(c, tr)
    ensures p in tr.s.attempts ==> MidStory(c, tr.s.attempts[p], Story(c, tr, p))
    ensures p !in tr.s.attempts ==> Story(c, tr, p) == []
    ensures WritesFollowCheck(Story(c, tr, p))
  {
    if tr.Then? {
      StoryFits(c, tr.prev, p);
      ReachableInv(c, tr.prev);
      if tr.e.Step? && tr.e.p == p {
        StepKeepsStory(c, tr.prev.s, tr.prev.s.attempts[p], tr.e.a, Story(c, tr.prev, p));
        StepKeepsWriteOrder(c, tr.prev.s, tr.prev.s.attempts[p], tr.e.a, Story(c, tr.prev, p));
      }
    }
  }

  // ------------------------------------------------------------ answers

  /** In every run, what an attempt answers says exactly what it did. */
  lemma AnswerMatchesStory(c: Config, tr: Trace, p: Pid)
    requires Execution(c, tr) && p in tr.s.attempts && tr.s.attempts[p].pc.Done?
    ensures Explains(c, tr.s.attempts[p], tr.s.attempts[p].pc.answer, Story(c, tr, p))
    ensures WritesFollowCheck(Story(c, tr, p))
  {
    StoryFits(c, tr, p);
  }

  /** Every action of attempt `p` in the run left both tables as it found them. */
  ghost predicate TouchedNothing(tr: Trace, p: Pid) {
    tr.Then? ==>
      && TouchedNothing(tr.prev, p)
      && (tr.e.Step? && tr.e.p == p ==> tr.s.rows == tr.prev.s.rows && tr.s.sessions == tr.prev.s.sessions)
  }

  /** A fact that is not a write left the tables alone, and a created session is
      exactly one new row, for that user. */
  lemma FactsCoverEffects(c: Config, s: State, p: Pid, a: Action)
    requires c.CurveIsValid() && p in s.attempts && Enabled(s, s.attempts[p], a)
    ensures var s' := After(c, s, p, a);
            var fact := FactOf(c, s, s.attempts[p], a);
            && (fact == [] || !IsWrite(fact[0]) ==> s'.rows == s.rows && s'.sessions == s.sessions)
            && (fact != [] && fact[0].Created? ==>
                  a.id !in s.sessions && s'.sessions == s.sessions[a.id := fact[0].owner])
  {
  }

  lemma {:induction false} NoWriteFactNoEffect(c: Config, tr: Trace, p: Pid)
    requires Execution(c, tr)
    requires forall i :: 0 <= i < |Story(c, tr, p)| ==> !IsWrite(Story(c, tr, p)[i])
    ensures TouchedNothing(tr, p)
  {
    if tr.Then? {
      var before, story := Story(c, tr.prev, p), Story(c, tr, p);
      assert before <= story;
      assert forall i :: 0 <= i < |before| ==> before[i] == story[i];
      NoWriteFactNoEffect(c, tr.prev, p);
      if tr.e.Step? && tr.e.p == p {
        FactsCoverEffects(c, tr.prev.s, p, tr.e.a);
        var fact := FactOf(c, tr.prev.s, tr.prev.s.attempts[p], tr.e.a);
        assert fact != [] ==> fact[0] == story[|before|];
      }
    }
  }

  /** A 429 touched neither table, and neither did a 500 given before any
      password was checked. */
  lemma RefusalTouchesNothing(c: Config, tr: Trace, p: Pid)
    requires Execution(c, tr) && p in tr.s.attempts && tr.s.attempts[p].pc.Done?
    requires var answer := tr.s.attempts[p].pc.answer;
             || answer.TooManyAttempts?
             || (answer.Internal? && forall i :: 0 <= i < |Story(c, tr, p)| ==> !IsCheck(Story(c, tr, p)[i]))
    ensures TouchedNothing(tr, p)
  {
    StoryFits(c, tr, p);
    NoWriteFactNoEffect(c, tr, p);
  }

  /** A recorded match or mismatch is what Argon2 says of the attempt's password. */
  predicate ChecksAreTrue(c: Config, x: Attempt, story: seq<Fact>) {
    forall i :: 0 <= i < |story| ==>
      && (story[i].Matched? ==> c.matches(x.password, story[i].hash))
      && (story[i].Mismatched? ==> !c.matches(x.password, story[i].hash))
  }

  lemma StepKeepsChecksTrue(c: Config, s: State, x: Attempt, a: Action, story: seq<Fact>)
    requires Enabled(s, x, a) && ChecksAreTrue(c, x, story)
    ensures ChecksAreTrue(c, Moved(c, s, x, a), story + FactOf(c, s, x, a))
  {
    var story' := story + FactOf(c, s, x, a);
    assert Moved(c, s, x, a).password == x.password;
    assert forall i :: 0 <= i < |story| ==> story'[i] == story[i];
  }

  lemma {:induction false} ChecksAlwaysTrue(c: Config, tr: Trace, p: Pid)
    requires Execution(c, tr) && p in tr.s.attempts
    ensures ChecksAreTrue(c, tr.s.attempts[p], Story(c, tr, p))
  {
    if tr.Then? {
      StoryFits(c, tr.prev, p);
      if p in tr.prev.s.attempts {
        ChecksAlwaysTrue(c, tr.prev, p);
        if tr.e.Step? && tr.e.p == p {
          StepKeepsChecksTrue(c, tr.prev.s, tr.prev.s.attempts[p], tr.e.a, Story(c, tr.prev, p));
        } else {
          OthersKept(c, tr.prev.s, tr.e, tr.s, p);
        }
      }
    }
  }

  /** In every run, a 500 has its reason: a statement of the attempt's own failed, it
      gave up in the queue, it panicked, or it matched and its session's insert failed
      or was reported as failed. And every recorded check is what Argon2 says. */
  lemma UncheckedOrExplained(c: Config, tr: Trace, p: Pid)
    requires Execution(c, tr) && p in tr.s.attempts
    ensures tr.s.attempts[p].pc == Done(Internal) ==> Fails(c, tr.s.attempts[p], Story(c, tr, p))
    ensures ChecksAreTrue(c, tr.s.attempts[p], Story(c, tr, p))
  {
    StoryFits(c, tr, p);
    ChecksAlwaysTrue(c, tr, p);
  }

  /** Nothing went wrong that is not the caller's doing. */
  predicate Untroubled(story: seq<Fact>) {
    forall i :: 0 <= i < |story| ==>
      && story[i] !in {ReadFailed, LookUpFailed, GaveUp, Panicked, NotCreated}
      && !(story[i].Created? && !story[i].reported)
  }

  /** In every run, an attempt that nothing went wrong with answers 429, 401 or 204: a
      429 exactly if it was throttled, a 401 exactly if its password was found wrong,
      and a 204 exactly if its account's password was found right. */
  lemma UntroubledAnswer(c: Config, tr: Trace, p: Pid)
    requires Execution(c, tr) && p in tr.s.attempts && tr.s.attempts[p].pc.Done?
    requires Untroubled(Story(c, tr, p))
    ensures var x, story := tr.s.attempts[p], Story(c, tr, p);
            && !x.pc.answer.Internal?
            && (x.pc.answer.TooManyAttempts? <==> Throttled in story)
            && (x.pc.answer.InvalidCredentials? <==> Mismatched(x.account.HashToCheck(c)) in story)
            && (x.pc.answer.NoContent? <==> x.account.Known? && Matched(x.account.hash) in story)
  {
    StoryFits(c, tr, p);
    UntroubledExplained(c, tr.s.attempts[p], tr.s.attempts[p].pc.answer, Story(c, tr, p));
  }

  lemma UntroubledExplained(c: Config, x: Attempt, answer: Answer, story: seq<Fact>)
    requires Explains(c, x, answer, story) && Untroubled(story)
    ensures !answer.Internal?
    ensures answer.TooManyAttempts? <==> Throttled in story
    ensures answer.InvalidCredentials? <==> Mismatched(x.account.HashToCheck(c)) in story
    ensures answer.NoContent? <==> x.account.Known? && Matched(x.account.hash) in story
  {
    var k := |Cleared(x.account)|;
    if answer.Internal? {
      TroubleShows(c, x, story);
    } else if answer.TooManyAttempts? {
      assert story[|story| - 1] == Throttled || story[|story| - 2] == Throttled;
    } else if answer.InvalidCredentials? {
      assert story[k] == Mismatched(x.account.HashToCheck(c));
    } else {
      assert story[k] == Matched(x.account.hash);
    }
  }

  lemma TroubleShows(c: Config, x: Attempt, story: seq<Fact>)
    requires Fails(c, x, story)
    ensures !Untroubled(story)
  {
    var n := |story|;
    assert || story[n - 1] in {ReadFailed, LookUpFailed, GaveUp, NotCreated}
           || (story[n - 1].Created? && !story[n - 1].reported)
           || story[n - 2] in {ReadFailed, Panicked};
  }

  /** With no account to sign in to, the only answers after a check are 401 and,
      exactly when the password is the dummy hash's own text, 500: in that case
      the check succeeds and there is no user to create a session for. */
  lemma AnswerWithoutAccount(c: Config, tr: Trace, p: Pid)
    requires Execution(c, tr) && c.DummyIsHashOfItsText()
    requires p in tr.s.attempts && tr.s.attempts[p].pc.Done? && !tr.s.attempts[p].account.Known?
    requires exists i :: 0 <= i < |Story(c, tr, p)| && IsCheck(Story(c, tr, p)[i])
    requires Panicked !in Story(c, tr, p)
    ensures tr.s.attempts[p].pc.answer == InvalidCredentials <==> tr.s.attempts[p].password != c.dummyText
    ensures tr.s.attempts[p].pc.answer in {InvalidCredentials, Internal}
  {
    UncheckedOrExplained(c, tr, p);
    StoryFits(c, tr, p);
    CheckedOutcome(c, tr.s.attempts[p], tr.s.attempts[p].pc.answer, Story(c, tr, p));
  }

  /** Of a finished attempt that was checked and did not panic, the fact after the two
      reads is the check, and it decides. */
  lemma CheckedOutcome(c: Config, x: Attempt, answer: Answer, story: seq<Fact>)
    requires Explains(c, x, answer, story) && Panicked !in story
    requires exists i :: 0 <= i < |story| && IsCheck(story[i])
    ensures var k := |Cleared(x.account)|;
            && k < |story|
            && (answer.InvalidCredentials? ==> story[k] == Mismatched(x.account.HashToCheck(c)))
            && (!answer.InvalidCredentials? ==>
                  && story[k] == Matched(x.account.HashToCheck(c))
                  && k + 2 < |story| && story[k + 2] == AttemptedClear)
            && (answer.InvalidCredentials? || answer.NoContent? || answer.Internal?)
            && (answer.NoContent? ==> x.account.Known?)
  {
    var k := |Cleared(x.account)|;
    match answer
    case NoContent =>
    case InvalidCredentials =>
    case TooManyAttempts(_) =>
    case Internal => FailedAfterCheck(c, x, story);
  }

  lemma FailedAfterCheck(c: Config, x: Attempt, story: seq<Fact>)
    requires Fails(c, x, story) && Panicked !in story
    requires exists i :: 0 <= i < |story| && IsCheck(story[i])
    ensures MatchesInVain(c, x, story)
    ensures var k := |Cleared(x.account)|;
            k + 2 < |story| && story[k] == Matched(x.account.HashToCheck(c)) && story[k + 2] == AttemptedClear
  {
    assert !(story != [] && Last(story) == Freed && Panics(c, x, Front(story))) by {
      if |story| >= 2 { assert Front(story)[|story| - 2] == story[|story| - 2]; }
    }
    var i :| 0 <= i < |story| && IsCheck(story[i]);
    assert MatchesInVain(c, x, story);
    assert Front(story)[|Cleared(x.account)|] == story[|Cleared(x.account)|];
    assert Front(story)[|Cleared(x.account)| + 2] == story[|Cleared(x.account)| + 2];
  }

  // ------------------------------------------------------------ who clears a key

  /** The password is the account's, or there is no account and it is the dummy
      hash's own text. */
  predicate Passes(c: Config, x: Attempt) {
    if x.account.Known? then c.matches(x.password, x.account.hash) else x.password == c.dummyText
  }

  lemma StepKeepsClearers(c: Config, s: State, x: Attempt, a: Action, story: seq<Fact>)
    requires c.DummyIsHashOfItsText() && Enabled(s, x, a) && MidStory(c, x, story) && ChecksAreTrue(c, x, story)
    requires AttemptedClear in story ==> Passes(c, x)
    requires AttemptedClear in story + FactOf(c, s, x, a)
    ensures Passes(c, Moved(c, s, x, a))
  {
    if x.pc.ClearRows? {
      var k := |Cleared(x.account)|;
      assert story[k] == Matched(x.account.HashToCheck(c));
    } else {
      assert AttemptedClear in story;
    }
  }

  /** In every run, whoever comes to clear its keys has passed: with its account's
      password or, without an account, with the dummy text. */
  lemma {:induction false} ClearersPassed(c: Config, tr: Trace, p: Pid)
    requires Execution(c, tr) && c.DummyIsHashOfItsText() && p in tr.s.attempts
    ensures AttemptedClear in Story(c, tr, p) ==> Passes(c, tr.s.attempts[p])
  {
    if tr.Then? {
      StoryFits(c, tr.prev, p);
      if p in tr.prev.s.attempts {
        ClearersPassed(c, tr.prev, p);
        ChecksAlwaysTrue(c, tr.prev, p);
        if tr.e.Step? && tr.e.p == p {
          if AttemptedClear in Story(c, tr, p) {
            StepKeepsClearers(c, tr.prev.s, tr.prev.s.attempts[p], tr.e.a, Story(c, tr.prev, p));
          }
        } else {
          OthersKept(c, tr.prev.s, tr.e, tr.s, p);
        }
      }
    }
  }

  /** So a key's row goes only with such an attempt, when its clear goes through. */
  lemma ClearedBy(c: Config, tr: Trace, key: string)
    requires Execution(c, tr) && c.DummyIsHashOfItsText() && tr.Then? && tr.e.Step?
    requires key in tr.prev.s.rows && key !in tr.s.rows
    ensures var x := tr.prev.s.attempts[tr.e.p];
            key in x.keys && x.pc.ClearRows? && tr.e.a == Write(true) && Passes(c, x)
  {
    ReachableInv(c, tr.prev);
    LoginThrottle.RowAfterEvent(c, tr.prev.s, tr.e, tr.s, key);
    ClearersPassed(c, tr, tr.e.p);
    var story := Story(c, tr.prev, tr.e.p);
    assert Story(c, tr, tr.e.p) == story + [AttemptedClear];
    assert Story(c, tr, tr.e.p)[|story|] == AttemptedClear;
  }

  /** Exactly who clears the rows of its keys, of the attempts that were checked and
      did not panic: those that passed. Without an account that is the dummy text's
      doing, and the caller's address row goes with it. */
  lemma ClearAttemptedExactly(c: Config, tr: Trace, p: Pid)
    requires Execution(c, tr) && c.DummyIsHashOfItsText()
    requires p in tr.s.attempts && tr.s.attempts[p].pc.Done?
    requires exists i :: 0 <= i < |Story(c, tr, p)| && IsCheck(Story(c, tr, p)[i])
    requires Panicked !in Story(c, tr, p)
    ensures AttemptedClear in Story(c, tr, p) <==> Passes(c, tr.s.attempts[p])
  {
    ClearersPassed(c, tr, p);
    UncheckedOrExplained(c, tr, p);
    StoryFits(c, tr, p);
    CheckedOutcome(c, tr.s.attempts[p], tr.s.attempts[p].pc.answer, Story(c, tr, p));
  }
}
