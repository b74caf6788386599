/** Sessions (backend/internal/auth/session.go, me.go) as a step machine: issue,
    lookup, touch and logout interleave one statement, or one reading of the
    application clock, at a time. The database clock only advances; every reading
    of the application clock is arbitrary, so each lookup and write may see any
    skew between the two. */
module SessionProtocol {
  import opened Options

  type Rid = nat

  /** The settings, and SHA-256 as the function it computes. */
  datatype Config = Config(ttl: int, maxLifetime: int, hash: string -> string)
  {
    ghost predicate Valid() {
      && ttl <= maxLifetime
      && forall a, b :: hash(a) == hash(b) ==> a == b
    }
  }

  /** One `sessions` row. */
  datatype Row = Row(user: int, created: int, expires: int, lastSeen: int)

  datatype Identity = Anonymous | User(user: int)

  /** What the response does to the client's cookie. */
  datatype Cookie = Untouched | ClearedCookie | Refreshed(token: string, expires: int)

  datatype Pc =
    | LookUp                         // GetLiveSession
    | FindUser(row: Row)             // GetUserByID
    | TouchIfStale(row: Row)         // time.Until(session.ExpiresAt)
    | ReadClock(row: Row)            // h.now(), for the new expiry
    | Write(row: Row, reading: int)  // TouchSession
    | Served(identity: Identity, cookie: Cookie)

  datatype Request = Request(token: string, pc: Pc)

  datatype State = State(
    rows: map<string, Row>,
    users: set<int>,                 // users not soft-deleted
    clock: int,
    seen: set<string>,               // every token issued or presented so far
    requests: map<Rid, Request>)

  datatype Event =
    | Tick(now: int)
    | Users(users: set<int>)
    | Issue(token: string, user: int, appNow: int, applied: bool)
    | Begin(r: Rid, token: string)
    | Query(r: Rid, ok: bool)        // GetLiveSession or GetUserByID
    | Check(r: Rid, appUntil: int)   // the first clock reading of touchIfStale
    | Compute(r: Rid, appNow: int)   // the second
    | Touch(r: Rid, applied: bool, reported: bool)
    | Logout(token: string, applied: bool)
    | Sweep(ids: set<string>)        // expired rows, or every row of one user

  /** getLiveSession: both lifetimes, on the database's clock. */
  predicate Live(c: Config, row: Row, now: int) {
    row.expires > now && row.created > now - c.maxLifetime
  }

  /** touchIfStale only writes past half the window. */
  predicate Stale(c: Config, row: Row, appUntil: int) {
    row.expires - appUntil <= Half(c.ttl)
  }

  /** Go's division: towards zero. */
  function Half(ttl: int): int { if ttl >= 0 then ttl / 2 else -((-ttl) / 2) }

  /** touchSession: an UPDATE, so a deleted row stays deleted. */
  function TouchRow(rows: map<string, Row>, id: string, expires: int, now: int): map<string, Row> {
    if id in rows then rows[id := rows[id].(expires := expires, lastSeen := now)] else rows
  }

  function DeleteRows(rows: map<string, Row>, ids: set<string>): map<string, Row> {
    map id | id in rows && id !in ids :: rows[id]
  }

  /** The request after its statement is answered. */
  function Answered(c: Config, s: State, q: Request, ok: bool): Request
    requires q.pc.LookUp? || q.pc.FindUser?
  {
    match q.pc
    case LookUp =>
      var id := c.hash(q.token);
      q.(pc := if !ok then Served(Anonymous, Untouched)
               else if id in s.rows && Live(c, s.rows[id], s.clock) then FindUser(s.rows[id])
               else Served(Anonymous, ClearedCookie))
    case FindUser(row) =>
      q.(pc := if !ok then Served(Anonymous, Untouched)
               else if row.user in s.users then TouchIfStale(row)
               else Served(Anonymous, ClearedCookie))
  }

  predicate Next(c: Config, s: State, e: Event, s': State) {
    match e
    case Tick(now) => s.clock <= now && s' == s.(clock := now)
    case Users(users) => s' == s.(users := users)
    case Issue(token, user, appNow, applied) =>
      && token !in s.seen
      && s' == s.(seen := s.seen + {token},
                  rows := if !applied then s.rows
                          else s.rows[c.hash(token) := Row(user, s.clock, appNow + c.ttl, s.clock)])
    case Begin(r, token) =>
      && r !in s.requests
      && s' == s.(seen := s.seen + {token},
                  requests := s.requests[r := Request(token,
                    if token == "" then Served(Anonymous, Untouched) else LookUp)])
    case Query(r, ok) =>
      && r in s.requests
      && (s.requests[r].pc.LookUp? || s.requests[r].pc.FindUser?)
      && s' == s.(requests := s.requests[r := Answered(c, s, s.requests[r], ok)])
    case Check(r, appUntil) =>
      && r in s.requests && s.requests[r].pc.TouchIfStale?
      && var q := s.requests[r];
         s' == s.(requests := s.requests[r := q.(pc :=
           if Stale(c, q.pc.row, appUntil) then ReadClock(q.pc.row) else Served(User(q.pc.row.user), Untouched))])
    case Compute(r, appNow) =>
      && r in s.requests && s.requests[r].pc.ReadClock?
      && var q := s.requests[r];
         s' == s.(requests := s.requests[r := q.(pc := Write(q.pc.row, appNow))])
    case Touch(r, applied, reported) =>
      && r in s.requests && s.requests[r].pc.Write?
      && (reported ==> applied)
      && var q := s.requests[r];
         var expires := q.pc.reading + c.ttl;
         s' == s.(rows := if applied then TouchRow(s.rows, c.hash(q.token), expires, s.clock) else s.rows,
                  requests := s.requests[r := q.(pc := Served(User(q.pc.row.user),
                    if reported then Refreshed(q.token, expires) else Untouched))])
    case Logout(token, applied) =>
      s' == s.(seen := s.seen + {token},
               rows := if applied then DeleteRows(s.rows, {c.hash(token)}) else s.rows)
    case Sweep(ids) => s' == s.(rows := DeleteRows(s.rows, ids))
  }

  datatype Trace = Start(s: State) | Then(prev: Trace, e: Event, s: State)
  {
    ghost predicate Execution(c: Config) {
      && c.Valid()
      && if Start? then s.requests == map[] && Known(c, s)
         else prev.Execution(c) && Next(c, prev.s, e, s)
    }
  }

  /** `tr` continues `base`. */
  ghost predicate Extends(tr: Trace, base: Trace) {
    tr == base || (tr.Then? && Extends(tr.prev, base))
  }

  /** Every stored id is the hash of a token already handed out, and no row is
      from the future. */
  ghost predicate Known(c: Config, s: State) {
    forall id :: id in s.rows ==>
      s.rows[id].created <= s.clock && exists token :: token in s.seen && c.hash(token) == id
  }

  // ------------------------------------------------------------ a session's life

  /** What the events of a run say of one session: who it was issued to and
      when, the expiry last written and when, until something deletes it. */
  datatype Life = Unborn | Alive(user: int, born: int, expires: int, touched: int) | Dead

  /** One event's effect on it. */
  function LifeAfter(c: Config, s: State, e: Event, life: Life, id: string): Life {
    match e
    case Issue(token, user, appNow, applied) =>
      if applied && c.hash(token) == id then Alive(user, s.clock, appNow + c.ttl, s.clock) else life
    case Touch(r, applied, _) =>
      if life.Alive? && applied && r in s.requests
         && c.hash(s.requests[r].token) == id && s.requests[r].pc.Write?
      then life.(expires := s.requests[r].pc.reading + c.ttl, touched := s.clock) else life
    case Logout(token, applied) => if life.Alive? && applied && c.hash(token) == id then Dead else life
    case Sweep(ids) => if life.Alive? && id in ids then Dead else life
    case _ => life
  }

  function AsLife(row: Row): Life { Alive(row.user, row.created, row.expires, row.lastSeen) }

  ghost function LifeOf(c: Config, tr: Trace, id: string): Life {
    if tr.Start? then
      if id in tr.s.rows then AsLife(tr.s.rows[id]) else Unborn
    else LifeAfter(c, tr.prev.s, tr.e, LifeOf(c, tr.prev, id), id)
  }

  /** The table holds `id` exactly if it is alive, as `life` says. */
  predicate Stored(s: State, id: string, life: Life) {
    && (id in s.rows <==> life.Alive?)
    && (id in s.rows ==> life == AsLife(s.rows[id]))
  }

  lemma StepKeepsStored(c: Config, s: State, e: Event, s': State, id: string, life: Life)
    requires Next(c, s, e, s') && Stored(s, id, life)
    ensures Stored(s', id, LifeAfter(c, s, e, life, id))
  {
  }

  lemma {:induction false} KnownAlways(c: Config, tr: Trace)
    requires tr.Execution(c)
    ensures Known(c, tr.s)
  {
    if tr.Then? {
      KnownAlways(c, tr.prev);
      forall id | id in tr.s.rows
        ensures tr.s.rows[id].created <= tr.s.clock && exists token :: token in tr.s.seen && c.hash(token) == id
      {
        if id in tr.prev.s.rows {
          var token :| token in tr.prev.s.seen && c.hash(token) == id;
          assert token in tr.s.seen;
        } else {
          assert tr.e.token in tr.s.seen;
        }
      }
    }
  }

  /** Along every run the table holds exactly the sessions that are alive, with
      the owner and birth they were issued with. */
  lemma {:induction false} RowIsLife(c: Config, tr: Trace, id: string)
    requires tr.Execution(c)
    ensures Stored(tr.s, id, LifeOf(c, tr, id))
  {
    if tr.Then? {
      RowIsLife(c, tr.prev, id);
      StepKeepsStored(c, tr.prev.s, tr.e, tr.s, id, LifeOf(c, tr.prev, id));
    }
  }

  /** A lookup of `token` at the end of the run would succeed, for `user`. */
  ghost predicate LooksUp(c: Config, s: State, token: string, user: int) {
    && c.hash(token) in s.rows
    && Live(c, s.rows[c.hash(token)], s.clock)
    && s.rows[c.hash(token)].user == user
  }

  /** Exactly when a lookup succeeds: the session was issued to that user and not
      ended since, the database clock is short of its last written expiry, and
      short of its birth plus the absolute cap, however often it was touched and
      whatever the application clocks said. */
  lemma LookUpSucceedsExactly(c: Config, tr: Trace, token: string, user: int)
    requires tr.Execution(c)
    ensures LooksUp(c, tr.s, token, user) <==>
              var life := LifeOf(c, tr, c.hash(token));
              && life.Alive? && life.user == user
              && tr.s.clock < life.expires
              && tr.s.clock < life.born + c.maxLifetime
  {
    RowIsLife(c, tr, c.hash(token));
  }

  // ------------------------------------------------------------ revocation

  lemma {:induction false} SeenOnlyGrows(c: Config, tr: Trace, base: Trace)
    requires tr.Execution(c) && Extends(tr, base)
    ensures base.Execution(c) && base.s.seen <= tr.s.seen && base.s.clock <= tr.s.clock
  {
    if tr != base { SeenOnlyGrows(c, tr.prev, base); }
  }

  /** A token once seen whose session is not alive never gets one. */
  lemma {:induction false} NotAliveStays(c: Config, tr: Trace, base: Trace, token: string)
    requires tr.Execution(c) && Extends(tr, base)
    requires token in base.s.seen && !LifeOf(c, base, c.hash(token)).Alive?
    ensures !LifeOf(c, tr, c.hash(token)).Alive?
  {
    if tr != base {
      NotAliveStays(c, tr.prev, base, token);
      SeenOnlyGrows(c, tr.prev, base);
    }
  }

  /** Revocation is final: after a logout of `token` no lookup of it ever succeeds
      again, in any continuation, even one in which a request that read the row
      before the logout runs its touch afterwards. */
  lemma RevokedForGood(c: Config, base: Trace, token: string, s: State, tr: Trace, user: int)
    requires base.Execution(c) && Next(c, base.s, Logout(token, true), s)
    requires tr.Execution(c) && Extends(tr, Then(base, Logout(token, true), s))
    ensures !LooksUp(c, tr.s, token, user)
  {
    var cut := Then(base, Logout(token, true), s);
    NotAliveStays(c, tr, cut, token);
    RowIsLife(c, tr, c.hash(token));
  }

  /** The same of a sweep, which also revokes every session of one user. */
  lemma SweptForGood(c: Config, base: Trace, ids: set<string>, s: State, tr: Trace, token: string, user: int)
    requires base.Execution(c) && Next(c, base.s, Sweep(ids), s)
    requires tr.Execution(c) && Extends(tr, Then(base, Sweep(ids), s))
    requires token in base.s.seen && c.hash(token) in ids
    ensures !LooksUp(c, tr.s, token, user)
  {
    var cut := Then(base, Sweep(ids), s);
    NotAliveStays(c, tr, cut, token);
    RowIsLife(c, tr, c.hash(token));
  }

  /** The absolute cap ends a session for good too: once the database clock has
      reached its birth plus the maximum lifetime, no continuation revives it. */
  lemma CappedForGood(c: Config, base: Trace, tr: Trace, token: string, user: int)
    requires tr.Execution(c) && Extends(tr, base)
    requires c.hash(token) in base.s.rows
    requires base.s.rows[c.hash(token)].created + c.maxLifetime <= base.s.clock
    ensures !LooksUp(c, tr.s, token, user)
  {
    SeenOnlyGrows(c, tr, base);
    KnownAlways(c, base);
    BirthIsFixed(c, tr, base, c.hash(token));
  }

  /** However often a session is touched, its birth and owner stay as issued. */
  lemma {:induction false} BirthIsFixed(c: Config, tr: Trace, base: Trace, id: string)
    requires tr.Execution(c) && Extends(tr, base) && id in base.s.rows && Known(c, base.s)
    ensures id in tr.s.rows ==>
              tr.s.rows[id].created == base.s.rows[id].created && tr.s.rows[id].user == base.s.rows[id].user
  {
    if tr != base {
      BirthIsFixed(c, tr.prev, base, id);
      SeenOnlyGrows(c, tr.prev, base);
      var token :| token in base.s.seen && c.hash(token) == id;
      if id in tr.s.rows { StepKeepsBirth(c, tr.prev.s, tr.e, tr.s, token); }
    }
  }

  /** No event gives a token already seen a row, or a row another birth or owner. */
  lemma StepKeepsBirth(c: Config, s: State, e: Event, s': State, token: string)
    requires c.Valid() && Next(c, s, e, s') && token in s.seen && c.hash(token) in s'.rows
    ensures c.hash(token) in s.rows
    ensures s'.rows[c.hash(token)].created == s.rows[c.hash(token)].created
    ensures s'.rows[c.hash(token)].user == s.rows[c.hash(token)].user
  {
  }

  // ------------------------------------------------------------ what a request gets

  /** At some moment since request `r` began, its token looked up live for `user`. */
  ghost predicate WasLive(c: Config, tr: Trace, r: Rid, user: int) {
    && r in tr.s.requests
    && (LooksUp(c, tr.s, tr.s.requests[r].token, user) || (tr.Then? && WasLive(c, tr.prev, r, user)))
  }

  /** At some moment since it began, its token looked up nothing, or only a user
      who is gone. */
  ghost predicate WasGone(c: Config, tr: Trace, r: Rid) {
    && r in tr.s.requests
    && (|| (forall user :: !LooksUp(c, tr.s, tr.s.requests[r].token, user))
        || (exists user :: user !in tr.s.users && WasLive(c, tr, r, user))
        || (tr.Then? && WasGone(c, tr.prev, r)))
  }

  /** At some moment since it began, `user` was there. */
  ghost predicate WasThere(tr: Trace, r: Rid, user: int) {
    r in tr.s.requests && (user in tr.s.users || (tr.Then? && WasThere(tr.prev, r, user)))
  }

  ghost predicate IdentityOk(c: Config, tr: Trace, r: Rid) {
    r in tr.s.requests &&
    match tr.s.requests[r].pc
    case LookUp => true
    case FindUser(row) => WasLive(c, tr, r, row.user)
    case TouchIfStale(row) => WasLive(c, tr, r, row.user) && WasThere(tr, r, row.user)
    case ReadClock(row) => WasLive(c, tr, r, row.user) && WasThere(tr, r, row.user)
    case Write(row, _) => WasLive(c, tr, r, row.user) && WasThere(tr, r, row.user)
    case Served(identity, cookie) =>
      && (identity.User? ==> WasLive(c, tr, r, identity.user) && WasThere(tr, r, identity.user))
      && (cookie.ClearedCookie? ==> identity.Anonymous? && WasGone(c, tr, r))
  }

  /** One of the request's own lookups failed. */
  ghost predicate HadFailure(tr: Trace, r: Rid) {
    tr.Then? && (tr.e == Query(r, false) || HadFailure(tr.prev, r))
  }

  /** The request's own touch was applied and reported so. */
  ghost predicate HadTouch(tr: Trace, r: Rid) {
    tr.Then? && (tr.e == Touch(r, true, true) || HadTouch(tr.prev, r))
  }

  /** It wrote this expiry: what its row, if still there, then held. */
  ghost predicate HadWritten(c: Config, tr: Trace, r: Rid, expires: int) {
    tr.Then? &&
    (|| HadWritten(c, tr.prev, r, expires)
     || (&& tr.e == Touch(r, true, true) && r in tr.prev.s.requests && tr.prev.s.requests[r].pc.Write?
         && tr.prev.s.requests[r].pc.reading + c.ttl == expires
         && var id := c.hash(tr.prev.s.requests[r].token);
            id in tr.s.rows ==> tr.s.rows[id].expires == expires))
  }

  /** What a request's failed lookups and reported touch say of its cookie: it is left
      alone for nobody only if there was no token or a lookup failed, and refreshed
      exactly if the touch was reported. */
  predicate CookieOk(q: Request, failed: bool, touched: bool) {
    && (q.pc.Served? && q.pc.identity.Anonymous? && q.pc.cookie.Untouched? ==> q.token == "" || failed)
    && (failed ==> q.pc == Served(Anonymous, Untouched))
    && (touched <==> q.pc.Served? && q.pc.cookie.Refreshed?)
    && (touched ==> q.pc.identity.User? && q.pc.cookie.token == q.token)
  }

  ghost predicate RequestOk(c: Config, tr: Trace, r: Rid) {
    && IdentityOk(c, tr, r)
    && var q := tr.s.requests[r];
       && CookieOk(q, HadFailure(tr, r), HadTouch(tr, r))
       && (q.pc.Served? && q.pc.cookie.Refreshed? ==> HadWritten(c, tr, r, q.pc.cookie.expires))
  }

  lemma {:induction false} IdentityAlwaysOk(c: Config, tr: Trace, r: Rid)
    requires tr.Execution(c) && r in tr.s.requests
    ensures IdentityOk(c, tr, r)
  {
    if tr.Then? && r in tr.prev.s.requests {
      var s, q, q' := tr.prev.s, tr.prev.s.requests[r], tr.s.requests[r];
      IdentityAlwaysOk(c, tr.prev, r);
      assert q'.token == q.token;
      if tr.e == Query(r, true) && q.pc.LookUp? {
        if q'.pc.FindUser? {
          assert LooksUp(c, tr.s, q.token, q'.pc.row.user);
        } else {
          assert forall user :: !LooksUp(c, tr.s, q.token, user);
        }
      } else if tr.e == Query(r, true) && q.pc.FindUser? {
        assert WasLive(c, tr, r, q.pc.row.user);
      }
    }
  }

  lemma StepKeepsCookie(c: Config, s: State, e: Event, s': State, r: Rid, failed: bool, touched: bool)
    requires Next(c, s, e, s') && r in s.requests && CookieOk(s.requests[r], failed, touched)
    ensures r in s'.requests
    ensures CookieOk(s'.requests[r], failed || e == Query(r, false), touched || e == Touch(r, true, true))
  {
  }

  lemma {:induction false} CookieAlwaysOk(c: Config, tr: Trace, r: Rid)
    requires tr.Execution(c)
    ensures r !in tr.s.requests ==> !HadFailure(tr, r) && !HadTouch(tr, r)
    ensures r in tr.s.requests ==> CookieOk(tr.s.requests[r], HadFailure(tr, r), HadTouch(tr, r))
  {
    if tr.Then? {
      CookieAlwaysOk(c, tr.prev, r);
      if r in tr.prev.s.requests {
        StepKeepsCookie(c, tr.prev.s, tr.e, tr.s, r, HadFailure(tr.prev, r), HadTouch(tr.prev, r));
      }
    }
  }

  lemma {:induction false} RefreshedAsWritten(c: Config, tr: Trace, r: Rid)
    requires tr.Execution(c) && r in tr.s.requests
    requires tr.s.requests[r].pc.Served? && tr.s.requests[r].pc.cookie.Refreshed?
    ensures HadWritten(c, tr, r, tr.s.requests[r].pc.cookie.expires)
  {
    if tr.Then? && r in tr.prev.s.requests && tr.prev.s.requests[r] == tr.s.requests[r] {
      RefreshedAsWritten(c, tr.prev, r);
    }
  }

  /** A request is served as a user only if, since it began, its own token looked up
      live for that user and the user was there; its cookie is cleared only if the token
      looked up nothing or a user who is gone, and left alone for nobody only if it
      presented none or a lookup failed; and it is refreshed, with the token presented
      and the expiry written, exactly if its touch was reported. */
  lemma ServedAsLiveUser(c: Config, tr: Trace, r: Rid)
    requires tr.Execution(c) && r in tr.s.requests
    ensures RequestOk(c, tr, r)
  {
    IdentityAlwaysOk(c, tr, r);
    CookieAlwaysOk(c, tr, r);
    if tr.s.requests[r].pc.Served? && tr.s.requests[r].pc.cookie.Refreshed? { RefreshedAsWritten(c, tr, r); }
  }

  // ------------------------------------------------------------ one application clock

  /** Every reading of the application clock in the run comes from one clock that
      never goes back, `latest` being no earlier than the last. A touch's readings
      are ordered where they are taken, not where the expiry is written; the
      reading an Issue carries was taken at any moment before its insert. */
  ghost predicate OneAppClock(tr: Trace, latest: int) {
    if tr.Start? then true
    else
      match tr.e
      case Issue(_, _, appNow, _) => appNow <= latest && OneAppClock(tr.prev, latest)
      case Check(_, appUntil) => appUntil <= latest && OneAppClock(tr.prev, appUntil)
      case Compute(_, appNow) => appNow <= latest && OneAppClock(tr.prev, appNow)
      case _ => OneAppClock(tr.prev, latest)
  }

  /** The latest reading the run before its last event may have taken. */
  function LatestBefore(e: Event, latest: int): int {
    match e
    case Check(_, appUntil) => appUntil
    case Compute(_, appNow) => appNow
    case _ => latest
  }

  /** No stored expiry, and none about to be written, is past `bound`. */
  ghost predicate ExpiriesWithin(c: Config, s: State, bound: int) {
    && (forall id :: id in s.rows ==> s.rows[id].expires <= bound)
    && (forall r :: r in s.requests && s.requests[r].pc.Write? ==> s.requests[r].pc.reading + c.ttl <= bound)
  }

  /** The run starts with no expiry later than a session issued at `start` would
      have, and no clock reading before `start`. */
  ghost predicate RunStartsWithin(c: Config, tr: Trace, start: int) {
    if tr.Start? then ExpiriesWithin(c, tr.s, start + c.ttl)
    else
      && RunStartsWithin(c, tr.prev, start)
      && (tr.e.Check? ==> start <= tr.e.appUntil)
      && (tr.e.Compute? ==> start <= tr.e.appNow)
  }

  lemma {:induction false} ExpiryFollowsClock(c: Config, tr: Trace, latest: int, start: int)
    requires tr.Execution(c) && OneAppClock(tr, latest) && start <= latest
    requires RunStartsWithin(c, tr, start)
    ensures ExpiriesWithin(c, tr.s, latest + c.ttl)
  {
    if tr.Then? {
      ExpiryFollowsClock(c, tr.prev, LatestBefore(tr.e, latest), start);
      StepKeepsWithin(c, tr.prev.s, tr.e, tr.s, latest + c.ttl);
    }
  }

  lemma StepKeepsWithin(c: Config, s: State, e: Event, s': State, bound: int)
    requires Next(c, s, e, s') && ExpiriesWithin(c, s, bound)
    requires (e.Issue? ==> e.appNow + c.ttl <= bound) && (e.Compute? ==> e.appNow + c.ttl <= bound)
    ensures ExpiriesWithin(c, s', bound)
  {
  }

  /** The last event wrote the expiry of `token`'s session, from this reading. */
  ghost function Touched(tr: Trace, token: string): Option<int> {
    if tr.Then? && tr.e.Touch? && tr.e.applied && tr.e.r in tr.prev.s.requests
       && tr.prev.s.requests[tr.e.r].token == token && tr.prev.s.requests[tr.e.r].pc.Write?
    then Some(tr.prev.s.requests[tr.e.r].pc.reading)
    else None
  }

  /** The reading behind the last touch of request `r`'s own session applied since
      `r` came to the part of the code it is in: `within` says which program points
      that part has. */
  ghost function LastTouch(tr: Trace, r: Rid, within: Pc -> bool): Option<int> {
    if tr.Start? || r !in tr.prev.s.requests || !within(tr.prev.s.requests[r].pc) then None
    else
      var now := Touched(tr, tr.prev.s.requests[r].token);
      if now.Some? then now else LastTouch(tr.prev, r, within)
  }

  /** Past its lookup and not yet served. */
  predicate Looked(pc: Pc) { pc.FindUser? || pc.TouchIfStale? || pc.ReadClock? || pc.Write? }

  /** Between the clock reading its new expiry comes from and the write. */
  predicate Computed(pc: Pc) { pc.Write? }

  /** How one event changes the stored expiry of a request's own session: a touch
      of it, or not at all. */
  lemma ExpiryAfterEvent(c: Config, tr: Trace, r: Rid)
    requires tr.Execution(c) && tr.Then? && r in tr.prev.s.requests && tr.prev.s.requests[r].token in tr.prev.s.seen
    ensures var token := tr.prev.s.requests[r].token;
            var id := c.hash(token);
            id in tr.s.rows ==>
              && id in tr.prev.s.rows
              && tr.s.rows[id].expires ==
                 (if Touched(tr, token).Some? then Touched(tr, token).value + c.ttl else tr.prev.s.rows[id].expires)
  {
  }

  lemma {:induction false} PresentedIsSeen(c: Config, tr: Trace, r: Rid)
    requires tr.Execution(c) && r in tr.s.requests
    ensures tr.s.requests[r].token in tr.s.seen
    ensures tr.Then? && r in tr.prev.s.requests ==> tr.s.requests[r].token == tr.prev.s.requests[r].token
  {
    if tr.Then? && r in tr.prev.s.requests { PresentedIsSeen(c, tr.prev, r); }
  }

  /** Since its lookup, the stored expiry is the one it read, or the last touch's. */
  lemma {:induction false} StoredSinceLookUp(c: Config, tr: Trace, r: Rid)
    requires tr.Execution(c) && r in tr.s.requests && Looked(tr.s.requests[r].pc)
    ensures var q := tr.s.requests[r];
            var id := c.hash(q.token);
            var last := LastTouch(tr, r, Looked);
            id in tr.s.rows ==>
              tr.s.rows[id].expires == if last.Some? then last.value + c.ttl else q.pc.row.expires
  {
    if tr.Then? && r in tr.prev.s.requests {
      PresentedIsSeen(c, tr, r);
      PresentedIsSeen(c, tr.prev, r);
      if Looked(tr.prev.s.requests[r].pc) {
        StoredSinceLookUp(c, tr.prev, r);
        ExpiryAfterEvent(c, tr, r);
      }
    }
  }

  /** Exactly when a touch brings the stored expiry nearer, under any clocks: the last
      touch of that session applied since this request's lookup came from a later
      reading or, if there was none, the row it read already lay further ahead than
      one window from its reading. */
  lemma TouchShortensExactly(c: Config, tr: Trace)
    requires tr.Execution(c) && tr.Then? && tr.e.Touch? && tr.e.applied
    requires tr.e.r in tr.prev.s.requests && tr.prev.s.requests[tr.e.r].pc.Write?
    requires c.hash(tr.prev.s.requests[tr.e.r].token) in tr.prev.s.rows
    ensures var q := tr.prev.s.requests[tr.e.r];
            var id := c.hash(q.token);
            var last := LastTouch(tr.prev, tr.e.r, Looked);
            && id in tr.s.rows
            && (tr.s.rows[id].expires < tr.prev.s.rows[id].expires <==>
                  if last.Some? then last.value > q.pc.reading else q.pc.row.expires > q.pc.reading + c.ttl)
  {
    StoredSinceLookUp(c, tr.prev, tr.e.r);
  }

  /** With one application clock, what a request has read lies behind it: a new
      expiry's reading, and the row once found stale. */
  lemma {:induction false} ReadingsBehind(c: Config, tr: Trace, latest: int, r: Rid)
    requires tr.Execution(c) && OneAppClock(tr, latest) && r in tr.s.requests
    ensures tr.s.requests[r].pc.Write? ==> tr.s.requests[r].pc.reading <= latest
    ensures tr.s.requests[r].pc.ReadClock? ==> tr.s.requests[r].pc.row.expires <= latest + Half(c.ttl)
  {
    if tr.Then? && r in tr.prev.s.requests { ReadingsBehind(c, tr.prev, LatestBefore(tr.e, latest), r); }
  }

  lemma {:induction false} LastTouchBehind(c: Config, tr: Trace, latest: int, r: Rid, within: Pc -> bool)
    requires tr.Execution(c) && OneAppClock(tr, latest)
    ensures LastTouch(tr, r, within).Some? ==> LastTouch(tr, r, within).value <= latest
  {
    if tr.Then? {
      LastTouchBehind(c, tr.prev, LatestBefore(tr.e, latest), r, within);
      if tr.e.Touch? && tr.e.r in tr.prev.s.requests { ReadingsBehind(c, tr.prev, latest, tr.e.r); }
    }
  }

  /** With one application clock, since a request's second reading the stored expiry
      is no later than the one it is about to write, or it is the last touch's. */
  lemma {:induction false} StoredSinceReading(c: Config, tr: Trace, latest: int, start: int, r: Rid)
    requires tr.Execution(c) && OneAppClock(tr, latest) && (c.ttl >= 0 || RunStartsWithin(c, tr, start))
    requires r in tr.s.requests && Computed(tr.s.requests[r].pc)
    ensures var q := tr.s.requests[r];
            var id := c.hash(q.token);
            var last := LastTouch(tr, r, Computed);
            id in tr.s.rows ==>
              if last.Some? then tr.s.rows[id].expires == last.value + c.ttl
              else tr.s.rows[id].expires <= q.pc.reading + c.ttl
  {
    if tr.Then? {
      assert r in tr.prev.s.requests;
      PresentedIsSeen(c, tr, r);
      PresentedIsSeen(c, tr.prev, r);
      if Computed(tr.prev.s.requests[r].pc) {
        StoredSinceReading(c, tr.prev, LatestBefore(tr.e, latest), start, r);
        ExpiryAfterEvent(c, tr, r);
      } else {
        assert tr.e.Compute? && tr.e.r == r;
        StoredAtReading(c, tr.prev, tr.e.appNow, start, r);
      }
    }
  }

  /** About to take that reading: nothing stored is more than a window ahead of it. */
  lemma StoredAtReading(c: Config, tr: Trace, now: int, start: int, r: Rid)
    requires tr.Execution(c) && OneAppClock(tr, now) && r in tr.s.requests && tr.s.requests[r].pc.ReadClock?
    requires c.ttl >= 0 || (RunStartsWithin(c, tr, start) && start <= now)
    ensures var id := c.hash(tr.s.requests[r].token); id in tr.s.rows ==> tr.s.rows[id].expires <= now + c.ttl
  {
    if c.ttl >= 0 {
      StoredSinceLookUp(c, tr, r);
      ReadingsBehind(c, tr, now, r);
      LastTouchBehind(c, tr, now, r, Looked);
    } else {
      ExpiryFollowsClock(c, tr, now, start);
    }
  }

  /** With one application clock, that is: the last touch of that session applied
      since this request's own reading came from a later one. In particular a touch
      that no other touch of its session overlaps never shortens it. A negative window
      needs a table without longer ones. */
  lemma OvertakenExactly(c: Config, tr: Trace, latest: int, start: int)
    requires tr.Execution(c) && tr.Then? && tr.e.Touch? && tr.e.applied
    requires OneAppClock(tr, latest) && (c.ttl >= 0 || RunStartsWithin(c, tr, start))
    requires tr.e.r in tr.prev.s.requests && tr.prev.s.requests[tr.e.r].pc.Write?
    requires c.hash(tr.prev.s.requests[tr.e.r].token) in tr.prev.s.rows
    ensures var q := tr.prev.s.requests[tr.e.r];
            var id := c.hash(q.token);
            var last := LastTouch(tr.prev, tr.e.r, Computed);
            && id in tr.s.rows
            && (tr.s.rows[id].expires < tr.prev.s.rows[id].expires <==> last.Some? && last.value > q.pc.reading)
  {
    StoredSinceReading(c, tr.prev, latest, start, tr.e.r);
  }

  /** The half-life rule, at both places touchIfStale can end and under any clocks. A
      request that does write leaves its session a whole window from its own reading,
      whatever others did. One that finds more than half a window left and writes
      nothing leaves its session at least half of one exactly unless the last touch
      applied since its lookup was computed from a clock reading more than half a
      window old. */
  lemma ActiveSessionKeepsHalf(c: Config, tr: Trace)
    requires tr.Execution(c) && tr.Then?
    ensures tr.e.Touch? && tr.e.applied && tr.e.r in tr.prev.s.requests && tr.prev.s.requests[tr.e.r].pc.Write? ==>
              var q := tr.prev.s.requests[tr.e.r];
              var id := c.hash(q.token);
              id in tr.s.rows ==> tr.s.rows[id].expires - q.pc.reading == c.ttl
    ensures tr.e.Check? && tr.e.r in tr.prev.s.requests && tr.prev.s.requests[tr.e.r].pc.TouchIfStale? ==>
              var q := tr.prev.s.requests[tr.e.r];
              var id := c.hash(q.token);
              var last := LastTouch(tr.prev, tr.e.r, Looked);
              && tr.s.rows == tr.prev.s.rows
              && (tr.s.requests[tr.e.r].pc.Served? ==> 2 * (q.pc.row.expires - tr.e.appUntil) > c.ttl)
              && (c.ttl >= 0 && 2 * (q.pc.row.expires - tr.e.appUntil) > c.ttl ==> tr.s.requests[tr.e.r].pc.Served?)
              && (tr.s.requests[tr.e.r].pc.Served? && id in tr.s.rows ==>
                    (2 * (tr.s.rows[id].expires - tr.e.appUntil) >= c.ttl
                     <==> last.None? || 2 * (tr.e.appUntil - last.value) <= c.ttl))
  {
    if tr.e.Check? { StoredSinceLookUp(c, tr.prev, tr.e.r); }
  }
}
