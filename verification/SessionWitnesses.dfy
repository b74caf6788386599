/** Runs with one application clock that show what overlapping touches can do: the
    later of two writes can carry the earlier expiry. */
module SessionWitnesses {
  import opened Options
  import opened SessionProtocol

  /** A run in which every clock reading lies in order between `start` and `latest`. */
  ghost predicate Timely(c: Config, tr: Trace, start: int, latest: int) {
    tr.Execution(c) && OneAppClock(tr, latest) && RunStartsWithin(c, tr, start) && start <= latest
  }

  /** The session of `token` as stored, live and owned by a user who is there. */
  ghost predicate Stored(c: Config, s: State, token: string, row: Row) {
    && token != "" && token in s.seen && c.hash(token) in s.rows && s.rows[c.hash(token)] == row
    && Live(c, row, s.clock) && row.user in s.users
  }

  /** `tr` with one more event that moves request `r` to `pc` and nothing else. */
  lemma Move(c: Config, tr: Trace, start: int, latest: int, e: Event, r: Rid, q: Request) returns (tr': Trace)
    requires Timely(c, tr, start, latest) && (e.Query? || e.Begin?)
    requires Next(c, tr.s, e, tr.s.(requests := tr.s.requests[r := q]))
    ensures Timely(c, tr', start, latest)
    ensures tr'.s == tr.s.(requests := tr.s.requests[r := q])
  {
    tr' := Then(tr, e, tr.s.(requests := tr.s.requests[r := q]));
  }

  /** A request looks its session up, and its user. */
  lemma Reads(c: Config, tr: Trace, start: int, latest: int, r: Rid, token: string, row: Row) returns (tr': Trace)
    requires Timely(c, tr, start, latest) && Stored(c, tr.s, token, row) && r !in tr.s.requests
    ensures Timely(c, tr', start, latest)
    ensures tr'.s == tr.s.(requests := tr.s.requests[r := Request(token, TouchIfStale(row))])
  {
    assert tr.s.seen + {token} == tr.s.seen;
    tr' := Move(c, tr, start, latest, Begin(r, token), r, Request(token, LookUp));
    tr' := Move(c, tr', start, latest, Query(r, true), r, Request(token, FindUser(row)));
    tr' := Move(c, tr', start, latest, Query(r, true), r, Request(token, TouchIfStale(row)));
  }

  /** It finds the session stale and computes a new expiry, both at `now`. */
  lemma Computes(c: Config, tr: Trace, start: int, latest: int, r: Rid, token: string, row: Row, now: int)
    returns (tr': Trace)
    requires Timely(c, tr, start, latest) && latest <= now && Stale(c, row, now)
    requires r in tr.s.requests && tr.s.requests[r] == Request(token, TouchIfStale(row))
    ensures Timely(c, tr', start, now)
    ensures tr'.s == tr.s.(requests := tr.s.requests[r := Request(token, Write(row, now))])
  {
    var s1 := tr.s.(requests := tr.s.requests[r := Request(token, ReadClock(row))]);
    var t1 := Then(tr, Check(r, now), s1);
    EarlierClock(tr, latest, now);
    tr' := Then(t1, Compute(r, now), s1.(requests := s1.requests[r := Request(token, Write(row, now))]));
  }

  lemma {:induction false} EarlierClock(tr: Trace, latest: int, later: int)
    requires OneAppClock(tr, latest) && latest <= later
    ensures OneAppClock(tr, later)
  {
    if tr.Then? && !tr.e.Check? && !tr.e.Compute? { EarlierClock(tr.prev, latest, later); }
  }

  /** Its write goes through. */
  lemma Writes(c: Config, tr: Trace, start: int, latest: int, r: Rid, token: string, row: Row, now: int)
    returns (tr': Trace)
    requires Timely(c, tr, start, latest) && c.hash(token) in tr.s.rows
    requires r in tr.s.requests && tr.s.requests[r] == Request(token, Write(row, now))
    ensures Timely(c, tr', start, latest) && tr'.Then? && tr'.prev == tr && tr'.e == Touch(r, true, true)
    ensures var id := c.hash(token);
            tr'.s == tr.s.(rows := tr.s.rows[id := tr.s.rows[id].(expires := now + c.ttl, lastSeen := tr.s.clock)],
                           requests := tr.s.requests[r :=
                             Request(token, Served(User(row.user), Refreshed(token, now + c.ttl)))])
  {
    var id := c.hash(token);
    tr' := Then(tr, Touch(r, true, true),
                tr.s.(rows := TouchRow(tr.s.rows, id, now + c.ttl, tr.s.clock),
                      requests := tr.s.requests[r :=
                        Request(token, Served(User(row.user), Refreshed(token, now + c.ttl)))]));
  }

  /** One session about to expire, nobody asking yet. */
  function Soon(c: Config): State {
    State(map[c.hash("token") := Row(7, 0, 1, 0)], {7}, 0, {"token"}, map[])
  }

  /** Requests 1 and 2 both read the row; 1 computes at time 1 and 2 at `now`; then
      2 writes. */
  lemma Overtakes(c: Config, now: int) returns (tr: Trace)
    requires c.Valid() && c.ttl >= 0 && c.maxLifetime > 0 && now >= 1
    ensures Timely(c, tr, 1, now) && tr.s.clock == 0 && tr.s.users == {7} && tr.s.seen == {"token"}
    ensures tr.s.rows == map[c.hash("token") := Row(7, 0, now + c.ttl, 0)]
    ensures tr.s.requests.Keys == {1, 2} && tr.s.requests[1] == Request("token", Write(Row(7, 0, 1, 0), 1))
  {
    var row := Row(7, 0, 1, 0);
    tr := Start(Soon(c));
    tr := Reads(c, tr, 1, 1, 1, "token", row);
    tr := Reads(c, tr, 1, 1, 2, "token", row);
    tr := Computes(c, tr, 1, 1, 1, "token", row, 1);
    tr := Computes(c, tr, 1, 1, 2, "token", row, now);
    tr := Writes(c, tr, 1, now, 2, "token", row, now);
  }

  /** A touch can bring an expiry nearer, with one application clock: the request
      that computed first writes last. */
  lemma OvertakenTouchShortens(c: Config) returns (tr: Trace)
    requires c.Valid() && c.ttl >= 0 && c.maxLifetime > 0
    ensures Timely(c, tr, 1, 2) && tr.Then? && tr.e == Touch(1, true, true)
    ensures var id := c.hash("token");
            id in tr.prev.s.rows && id in tr.s.rows && tr.s.rows[id].expires < tr.prev.s.rows[id].expires
  {
    tr := Overtakes(c, 2);
    tr := Writes(c, tr, 1, 2, 1, "token", Row(7, 0, 1, 0), 1);
  }

  /** And a request that looked the session up in between then finds a whole window,
      writes nothing, and leaves less than half of one: the overtaken write was
      computed from a reading more than half a window old. */
  lemma OverdueWriteLeavesLess(c: Config) returns (tr: Trace)
    requires c.Valid() && c.ttl > 0
    ensures var now := c.ttl + 2; Timely(c, tr, 1, now) && tr.Then? && tr.e == Check(3, now)
    ensures 3 in tr.s.requests && tr.s.requests[3] == Request("token", Served(User(7), Untouched))
    ensures var id := c.hash("token"); id in tr.s.rows && 2 * (tr.s.rows[id].expires - (c.ttl + 2)) < c.ttl
  {
    var now := c.ttl + 2;
    var row := Row(7, 0, now + c.ttl, 0);
    tr := Overtakes(c, now);
    tr := Reads(c, tr, 1, now, 3, "token", row);
    tr := Writes(c, tr, 1, now, 1, "token", Row(7, 0, 1, 0), 1);
    tr := Then(tr, Check(3, now),
               tr.s.(requests := tr.s.requests[3 := Request("token", Served(User(7), Untouched))]));
  }

  /** It is the last touch since the reading that counts: here a touch with a later
      reading was applied in between, then one with an earlier, and the write that
      follows both moves the expiry later. */
  lemma LaterTouchNeedNotShorten(c: Config) returns (between: Trace, tr: Trace)
    requires c.Valid() && c.ttl >= 0 && c.maxLifetime > 0
    ensures Timely(c, tr, 1, 3) && tr.Then? && tr.e == Touch(1, true, true)
    ensures 1 in between.s.requests && between.s.requests[1] == Request("token", Write(Row(7, 0, 1, 0), 2))
    ensures Touched(between, "token") == Some(3) && Extends(tr, between)
    ensures var id := c.hash("token");
            id in tr.prev.s.rows && id in tr.s.rows && tr.s.rows[id].expires > tr.prev.s.rows[id].expires
  {
    var row := Row(7, 0, 1, 0);
    tr := Start(Soon(c));
    tr := Reads(c, tr, 1, 1, 1, "token", row);
    tr := Reads(c, tr, 1, 1, 2, "token", row);
    tr := Reads(c, tr, 1, 1, 3, "token", row);
    tr := Computes(c, tr, 1, 1, 3, "token", row, 1);
    tr := Computes(c, tr, 1, 1, 1, "token", row, 2);
    tr := Computes(c, tr, 1, 2, 2, "token", row, 3);
    between := Writes(c, tr, 1, 3, 2, "token", row, 3);
    tr := Writes(c, between, 1, 3, 3, "token", row, 1);
    tr := Writes(c, tr, 1, 3, 1, "token", row, 2);
  }
}
