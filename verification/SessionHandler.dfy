/** IssueSession, SessionMiddleware with touchIfStale, and Logout, in the form the
    handlers have. Between statements other requests run (`Interfere`); each
    statement is proved to be one step of the session machine. What becomes of a
    request's own statements and what its clock reads are inputs. */
module SessionHandler {
  import opened SessionProtocol

  /** What becomes of a request's statements, and what its clock reads. */
  datatype Outcomes = Outcomes(
    lookUp: bool, findUser: bool, appUntil: int, appNow: int, applied: bool, reported: bool)

  /** The event, if it is request `r`'s, is the one its outcomes call for. */
  predicate AsDecided(o: Outcomes, s: State, r: Rid, e: Event) {
    match e
    case Query(r', ok) =>
      r' == r && r in s.requests ==> ok == if s.requests[r].pc.LookUp? then o.lookUp else o.findUser
    case Check(r', appUntil) => r' == r ==> appUntil == o.appUntil
    case Compute(r', appNow) => r' == r ==> appNow == o.appNow
    case Touch(r', applied, reported) => r' == r ==> applied == o.applied && reported == (o.applied && o.reported)
    case _ => true
  }

  /** `tr` continues `base`, and in it request `r` went as decided. */
  ghost predicate Obeys(tr: Trace, base: Trace, r: Rid, o: Outcomes) {
    tr == base || (tr.Then? && Obeys(tr.prev, base, r, o) && AsDecided(o, tr.prev.s, r, tr.e))
  }

  lemma {:induction false} AnsweredLookUpsDoNotFail(c: Config, tr: Trace, base: Trace, r: Rid, o: Outcomes)
    requires tr.Execution(c) && Obeys(tr, base, r, o) && o.lookUp && o.findUser && !HadFailure(base, r)
    ensures !HadFailure(tr, r)
  {
    if tr != base { AnsweredLookUpsDoNotFail(c, tr.prev, base, r, o); }
  }

  class SessionServer {
    const c: Config

    var rows: map<string, Row>
    var users: set<int>
    var clock: int

    /** The run that led to the present fields. */
    ghost var run: Trace

    ghost predicate Valid()
      reads this
    {
      run.Execution(c) && rows == run.s.rows && users == run.s.users && clock == run.s.clock
    }

    ghost predicate At(r: Rid, q: Request)
      reads this
    {
      r in run.s.requests && run.s.requests[r] == q
    }

    /** The run so far continues `base` as decided for request `r`. */
    ghost predicate Runs(r: Rid, base: Trace, o: Outcomes)
      reads this
    {
      Valid() && Obeys(run, base, r, o) && r in run.s.requests
    }

    /** Others run: any number of events, none of them request `r`'s. The body does
        nothing; callers may rely only on the contract. */
    method Interfere(ghost r: Rid, ghost base: Trace, ghost o: Outcomes)
      requires Runs(r, base, o)
      modifies this
      ensures Runs(r, base, o) && At(r, old(run.s.requests[r]))
    {
    }

    /** A process over whatever the table holds. */
    constructor (c: Config, s: State)
      requires c.Valid() && s.requests == map[] && Known(c, s)
      ensures Valid() && this.c == c && run == Start(s)
    {
      this.c := c;
      rows, users, clock := s.rows, s.users, s.clock;
      run := Start(s);
    }

    /** Others run while a minted token is still secret. */
    method InterfereUnseen(ghost token: string)
      requires Valid() && token !in run.s.seen
      modifies this
      ensures Valid() && Extends(run, old(run)) && token !in run.s.seen
    {
    }

    /** IssueSession, with a token not seen before and the clock at `appNow`: a row for
        its hash if the insert is applied, and a cookie exactly if that is reported. */
    method IssueSession(user: int, token: string, appNow: int, applied: bool, reported: bool) returns (cookie: Cookie)
      requires Valid() && token !in run.s.seen && (reported ==> applied)
      modifies this
      ensures Valid() && Extends(run, old(run)) && token in run.s.seen
      ensures applied ==> LifeOf(c, run, c.hash(token)) == Alive(user, clock, appNow + c.ttl, clock)
      ensures cookie == if reported then Refreshed(token, appNow + c.ttl) else Untouched
    {
      var expires := appNow + c.ttl;
      InterfereUnseen(token);
      if applied { rows := rows[c.hash(token) := Row(user, clock, expires, clock)]; }
      run := Then(run, Issue(token, user, appNow, applied), run.s.(seen := run.s.seen + {token}, rows := rows));
      cookie := if reported then Refreshed(token, expires) else Untouched;
    }

    /** Logout: without a token a success; with one, exactly if the delete is reported. */
    method Logout(token: string, applied: bool, reported: bool) returns (ok: bool)
      requires Valid() && (reported ==> applied)
      modifies this
      ensures Valid() && Extends(run, old(run))
      ensures ok <==> token == "" || reported
      ensures token != "" ==> run == Then(old(run), Event.Logout(token, applied), run.s)
      ensures rows == if token != "" && applied then DeleteRows(old(rows), {c.hash(token)}) else old(rows)
    {
      if token == "" { return true; }
      if applied { rows := DeleteRows(rows, {c.hash(token)}); }
      run := Then(run, Event.Logout(token, applied), run.s.(seen := run.s.seen + {token}, rows := rows));
      ok := reported;
    }

    /** SessionMiddleware: resolves the presented cookie, never rejects. It serves as a
        user only a token that looked up live for that user meanwhile, and a token whose
        lookups were answered is served as a user or has its cookie cleared. */
    method SessionMiddleware(ghost r: Rid, o: Outcomes, token: string) returns (identity: Identity, cookie: Cookie)
      requires Valid() && r !in run.s.requests
      modifies this
      ensures Valid() && Obeys(run, old(run), r, o)
      ensures At(r, Request(token, Served(identity, cookie)))
      ensures RequestOk(c, run, r)
      ensures token != "" && o.lookUp && o.findUser ==> identity.User? || cookie.ClearedCookie?
      ensures token == "" ==> identity == Anonymous && cookie == Untouched
    {
      identity, cookie := Serve(r, o, token);
      ServedAsLiveUser(c, run, r);
      CookieAlwaysOk(c, old(run), r);
      if o.lookUp && o.findUser { AnsweredLookUpsDoNotFail(c, run, old(run), r, o); }
    }

    /** Its body. */
    method Serve(ghost r: Rid, o: Outcomes, token: string) returns (identity: Identity, cookie: Cookie)
      requires Valid() && r !in run.s.requests
      modifies this
      ensures Valid() && Obeys(run, old(run), r, o)
      ensures At(r, Request(token, Served(identity, cookie)))
      ensures token == "" ==> identity == Anonymous && cookie == Untouched
    {
      ghost var base := run;
      ghost var q := Request(token, if token == "" then Served(Anonymous, Untouched) else Pc.LookUp);
      assert Obeys(base, base, r, o);
      run := Then(run, Begin(r, token), run.s.(seen := run.s.seen + {token}, requests := run.s.requests[r := q]));
      if token == "" { return Anonymous, Untouched; }

      Interfere(r, base, o);
      var id := c.hash(token);
      var found := id in rows && Live(c, rows[id], clock);
      var row := if found then rows[id] else Row(0, 0, 0, 0);
      LogQuery(r, base, o, o.lookUp);
      if !o.lookUp { return Anonymous, Untouched; }
      if !found { return Anonymous, ClearedCookie; }

      Interfere(r, base, o);
      found := row.user in users;
      LogQuery(r, base, o, o.findUser);
      if !o.findUser { return Anonymous, Untouched; }
      if !found { return Anonymous, ClearedCookie; }

      Interfere(r, base, o);
      cookie := TouchIfStale(r, base, o, token, row);
      identity := User(row.user);
    }

    ghost method LogQuery(r: Rid, base: Trace, o: Outcomes, ok: bool)
      requires Runs(r, base, o)
      requires (run.s.requests[r].pc.LookUp? && ok == o.lookUp) || (run.s.requests[r].pc.FindUser? && ok == o.findUser)
      modifies this`run
      ensures Runs(r, base, o) && run.Then? && run.prev == old(run)
      ensures At(r, Answered(c, old(run.s), old(run.s.requests[r]), ok))
    {
      var s := run.s;
      run := Then(run, Query(r, ok), s.(requests := s.requests[r := Answered(c, s, s.requests[r], ok)]));
    }

    /** touchIfStale: extends the window past half its life; a failed refresh is
        only logged. Others may run between its two clock readings and the write. */
    method TouchIfStale(ghost r: Rid, ghost base: Trace, o: Outcomes, token: string, row: Row) returns (cookie: Cookie)
      requires Runs(r, base, o) && At(r, Request(token, Pc.TouchIfStale(row)))
      modifies this
      ensures Runs(r, base, o)
      ensures At(r, Request(token, Served(User(row.user), cookie)))
      ensures cookie == if Stale(c, row, o.appUntil) && o.applied && o.reported then Refreshed(token, o.appNow + c.ttl)
                        else Untouched
    {
      var stale := row.expires - o.appUntil <= Half(c.ttl);
      LogMove(r, base, o, Check(r, o.appUntil), if stale then ReadClock(row) else Served(User(row.user), Untouched));
      if !stale { return Untouched; }

      Interfere(r, base, o);
      var newExpiry := o.appNow + c.ttl;
      LogMove(r, base, o, Compute(r, o.appNow), Write(row, o.appNow));

      Interfere(r, base, o);
      cookie := TouchSession(r, base, o, token, row, newExpiry);
    }

    /** The UPDATE, and the refreshed cookie if it is reported. */
    method TouchSession(ghost r: Rid, ghost base: Trace, o: Outcomes, token: string, row: Row, newExpiry: int)
      returns (cookie: Cookie)
      requires Runs(r, base, o) && At(r, Request(token, Write(row, o.appNow))) && newExpiry == o.appNow + c.ttl
      modifies this
      ensures Runs(r, base, o)
      ensures At(r, Request(token, Served(User(row.user), cookie)))
      ensures cookie == if o.applied && o.reported then Refreshed(token, newExpiry) else Untouched
      ensures rows == if o.applied then TouchRow(old(rows), c.hash(token), newExpiry, clock) else old(rows)
    {
      var reported := o.applied && o.reported;
      if o.applied { rows := TouchRow(rows, c.hash(token), newExpiry, clock); }
      cookie := if reported then Refreshed(token, newExpiry) else Untouched;
      ghost var s := run.s;
      run := Then(run, Touch(r, o.applied, reported),
                  s.(rows := rows, requests := s.requests[r := Request(token, Served(User(row.user), cookie))]));
    }

    /** Logs a clock reading, which moves its request to `pc`. */
    ghost method LogMove(r: Rid, base: Trace, o: Outcomes, e: Event, pc: Pc)
      requires Runs(r, base, o) && AsDecided(o, run.s, r, e)
      requires Next(c, run.s, e, run.s.(requests := run.s.requests[r := run.s.requests[r].(pc := pc)]))
      modifies this`run
      ensures Runs(r, base, o)
      ensures At(r, old(run.s.requests[r]).(pc := pc))
    {
      run := Then(run, e, run.s.(requests := run.s.requests[r := run.s.requests[r].(pc := pc)]));
    }
  }
}
