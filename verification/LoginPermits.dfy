/** What every run of the login machine keeps of the Argon2 permit: conservation,
    exactly one release per acquire, the recorded peak and the compare-and-swap
    loop that maintains it (backend/internal/auth/password.go). */
module LoginPermits {
  import opened LoginProtocol

  /** Permit conservation, in every reachable state: the tokens in argonSem are
      the attempts between acquire and release, argonInFlight never exceeds them,
      and they never exceed the cap. */
  lemma PermitConservation(c: Config, tr: Trace)
    requires Execution(c, tr)
    ensures tr.s.tokens == |Holders(tr.s)|
    ensures 0 <= tr.s.inFlight <= tr.s.tokens <= 4
    ensures Holders(tr.s) == {} ==> tr.s.tokens == 0 && tr.s.inFlight == 0
  {
    ReachableInv(c, tr);
    CountersBelowHolders(tr.s, 0);
  }

  // ------------------------------------------------- acquire and release pair up

  /** The last event of the run is an action of attempt `p`. */
  predicate ActedAt(tr: Trace, p: Pid) {
    tr.Then? && tr.e.Step? && tr.e.p == p && p in tr.prev.s.attempts
  }

  /** How often attempt `p` put a token in argonSem, and how often it took one out. */
  ghost function Acquires(tr: Trace, p: Pid): nat {
    if tr.Start? then 0
    else Acquires(tr.prev, p) + One(ActedAt(tr, p) && TokenDelta(tr.prev.s.attempts[p], tr.e.a) > 0)
  }

  ghost function Releases(tr: Trace, p: Pid): nat {
    if tr.Start? then 0
    else Releases(tr.prev, p) + One(ActedAt(tr, p) && TokenDelta(tr.prev.s.attempts[p], tr.e.a) < 0)
  }

  predicate BeforePermit(pc: Pc) {
    pc.FirstRead? || pc.FindUser? || pc.FindHash? || pc.Enter? || pc.Queue?
  }

  /** What the acquires and releases counted so far say of an attempt. */
  predicate Balanced(x: Attempt, acquires: nat, releases: nat) {
    && acquires - releases == One(Holding(x))
    && acquires <= 1
    && (BeforePermit(x.pc) ==> acquires == 0)
  }

  lemma StepKeepsBalance(c: Config, s: State, x: Attempt, a: Action, acquires: nat, releases: nat)
    requires AttemptOk(x, s.peak) && Enabled(s, x, a) && Balanced(x, acquires, releases)
    ensures Balanced(Moved(c, s, x, a), acquires + One(TokenDelta(x, a) > 0), releases + One(TokenDelta(x, a) < 0))
  {
    MovedDeltas(c, s, x, a);
  }

  lemma {:induction false} AcquireReleaseBalance(c: Config, tr: Trace, p: Pid)
    requires Execution(c, tr)
    ensures p !in tr.s.attempts ==> Acquires(tr, p) == Releases(tr, p) == 0
    ensures p in tr.s.attempts ==> Balanced(tr.s.attempts[p], Acquires(tr, p), Releases(tr, p))
  {
    if tr.Then? {
      AcquireReleaseBalance(c, tr.prev, p);
      ReachableInv(c, tr.prev);
      if ActedAt(tr, p) {
        assert AttemptOk(tr.prev.s.attempts[p], tr.prev.s.peak);
        StepKeepsBalance(c, tr.prev.s, tr.prev.s.attempts[p], tr.e.a, Acquires(tr.prev, p), Releases(tr.prev, p));
      } else {
        OthersKept(c, tr.prev.s, tr.e, tr.s, p);
      }
    }
  }

  /** Whatever path an attempt leaves by (a refusal, a wrong password, a session,
      a panic), it has freed its permit exactly as often as it took one: once, or
      never if it left before the queue let it in. */
  lemma PermitFreedExactlyOnce(c: Config, tr: Trace, p: Pid)
    requires Execution(c, tr) && p in tr.s.attempts && tr.s.attempts[p].pc.Done?
    ensures Acquires(tr, p) == Releases(tr, p) <= 1
  {
    AcquireReleaseBalance(c, tr, p);
  }

  // ------------------------------------------------------------ the peak

  /** The counts argonInFlight.Add(1) returned so far. */
  ghost function CountsSeen(tr: Trace): set<int> {
    if tr.Start? then {}
    else if tr.e.Step? && tr.e.p in tr.prev.s.attempts then SeenAfter(tr.prev.s, tr.e.p, CountsSeen(tr.prev))
    else CountsSeen(tr.prev)
  }

  /** Attempt `p` is in the compare-and-swap loop with count `n`. */
  predicate Publishing(s: State, p: Pid, n: int) {
    && p in s.attempts
    && (s.attempts[p].pc.LoadPeak? || s.attempts[p].pc.SwapPeak?)
    && s.attempts[p].pc.n == n
  }

  /** The peak `s` holds, against the one the process started with and the counts
      seen since: it is one of them, and any count above it is still being
      published. */
  ghost predicate PeakExplained(s: State, first: int, seen: set<int>) {
    && first <= s.peak
    && (s.peak == first || s.peak in seen)
    && (forall n :: n in seen ==> n <= s.peak || exists p :: Publishing(s, p, n))
    && (forall p, n :: Publishing(s, p, n) ==> n in seen)
  }

  function SeenAfter(s: State, p: Pid, seen: set<int>): set<int>
    requires p in s.attempts
  {
    if s.attempts[p].pc.CountIn? then seen + {s.inFlight + 1} else seen
  }

  lemma StepPublishes(c: Config, s: State, p: Pid, a: Action, n: int)
    requires c.CurveIsValid() && Inv(c, s) && p in s.attempts && Enabled(s, s.attempts[p], a)
    requires exists q :: Publishing(s, q, n)
    ensures var s' := After(c, s, p, a); n <= s'.peak || exists q :: Publishing(s', q, n)
  {
    var s' := After(c, s, p, a);
    var q :| Publishing(s, q, n);
    assert AttemptOk(s.attempts[q], s.peak);
    if q != p {
      assert Publishing(s', q, n);
    } else if n > s'.peak {
      assert Publishing(s', p, n);
    }
  }

  /** Whoever publishes after a step was publishing before it, or just counted in. */
  lemma PublisherWasSeen(c: Config, s: State, p: Pid, a: Action, q: Pid, n: int)
    requires c.CurveIsValid() && p in s.attempts && Enabled(s, s.attempts[p], a)
    requires Publishing(After(c, s, p, a), q, n)
    ensures Publishing(s, q, n) || (q == p && s.attempts[p].pc.CountIn? && n == s.inFlight + 1)
  {
  }

  lemma StepKeepsPeak(c: Config, s: State, p: Pid, a: Action, first: int, seen: set<int>)
    requires c.CurveIsValid() && Inv(c, s) && p in s.attempts && Enabled(s, s.attempts[p], a)
    requires PeakExplained(s, first, seen)
    ensures PeakExplained(After(c, s, p, a), first, SeenAfter(s, p, seen))
  {
    var s' := After(c, s, p, a);
    StepKeepsAttempts(c, s, p, a);
    assert s.attempts[p].pc.SwapPeak? ==> Publishing(s, p, s.attempts[p].pc.n);
    forall n | n in SeenAfter(s, p, seen) ensures n <= s'.peak || exists q :: Publishing(s', q, n) {
      if n !in seen {
        assert Publishing(s', p, n);
      } else if n > s.peak {
        StepPublishes(c, s, p, a, n);
      }
    }
    forall q, n | Publishing(s', q, n) ensures n in SeenAfter(s, p, seen) {
      PublisherWasSeen(c, s, p, a, q, n);
    }
  }

  lemma OtherKeepsPeak(c: Config, s: State, e: Event, s': State, first: int, seen: set<int>)
    requires c.CurveIsValid() && Next(c, s, e, s') && !e.Step? && PeakExplained(s, first, seen)
    ensures PeakExplained(s', first, seen)
  {
    forall q, n ensures Publishing(s', q, n) <==> Publishing(s, q, n) {
    }
  }

  lemma {:induction false} PeakInvariant(c: Config, tr: Trace)
    requires Execution(c, tr)
    ensures PeakExplained(tr.s, tr.First().peak, CountsSeen(tr))
  {
    if tr.Then? {
      PeakInvariant(c, tr.prev);
      ReachableInv(c, tr.prev);
      if tr.e.Step? {
        StepKeepsPeak(c, tr.prev.s, tr.e.p, tr.e.a, tr.First().peak, CountsSeen(tr.prev));
      } else {
        OtherKeepsPeak(c, tr.prev.s, tr.e, tr.s, tr.First().peak, CountsSeen(tr.prev));
      }
    }
  }

  /** Once no attempt is still publishing its count, the peak is the largest
      count any acquirer saw (or the one the process started with). */
  lemma PeakIsMaximum(c: Config, tr: Trace)
    requires Execution(c, tr)
    requires forall p :: p in tr.s.attempts ==> !tr.s.attempts[p].pc.LoadPeak? && !tr.s.attempts[p].pc.SwapPeak?
    ensures tr.s.peak in CountsSeen(tr) + {tr.First().peak}
    ensures forall n :: n in CountsSeen(tr) + {tr.First().peak} ==> n <= tr.s.peak
  {
    PeakInvariant(c, tr);
    forall n | n in CountsSeen(tr) ensures n <= tr.s.peak {
      assert !exists p :: Publishing(tr.s, p, n);
    }
  }

  predicate SwapFails(s: State, x: Attempt) { x.pc.SwapPeak? && s.peak != x.pc.seen }

  /** How many of attempt `p`'s swaps failed and sent it round the loop again. */
  ghost function FailedSwaps(tr: Trace, p: Pid): nat {
    if tr.Start? then 0
    else FailedSwaps(tr.prev, p) + One(ActedAt(tr, p) && SwapFails(tr.prev.s, tr.prev.s.attempts[p]))
  }

  /** An attempt's failed swaps are bounded by the peak it last loaded. */
  predicate SwapsBounded(x: Attempt, peak: int, failed: nat) {
    && failed <= peak
    && (BeforePermit(x.pc) || x.pc.CountIn? ==> failed == 0)
    && (x.pc.SwapPeak? ==> failed <= x.pc.seen)
  }

  lemma StepKeepsSwapsBounded(c: Config, s: State, x: Attempt, a: Action, peak': int, failed: nat)
    requires AttemptOk(x, s.peak) && Enabled(s, x, a) && SwapsBounded(x, s.peak, failed) && s.peak <= peak'
    ensures SwapsBounded(Moved(c, s, x, a), peak', failed + One(SwapFails(s, x)))
  {
  }

  lemma {:induction false} SwapsBoundedAlongRun(c: Config, tr: Trace, p: Pid)
    requires Execution(c, tr)
    ensures p !in tr.s.attempts ==> FailedSwaps(tr, p) == 0
    ensures p in tr.s.attempts ==> SwapsBounded(tr.s.attempts[p], tr.s.peak, FailedSwaps(tr, p))
  {
    ReachableInv(c, tr);
    if tr.Then? {
      SwapsBoundedAlongRun(c, tr.prev, p);
      ReachableInv(c, tr.prev);
      PeakOnlyRises(c, tr.prev.s, tr.e, tr.s);
      if ActedAt(tr, p) {
        StepKeepsSwapsBounded(c, tr.prev.s, tr.prev.s.attempts[p], tr.e.a, tr.s.peak, FailedSwaps(tr.prev, p));
      }
    }
  }

  /** Every failed swap means the bounded peak rose meanwhile, so in no
      interleaving does an attempt fail more than CAP swaps. */
  lemma SwapLoopTerminates(c: Config, tr: Trace, p: Pid)
    requires Execution(c, tr)
    ensures FailedSwaps(tr, p) <= 4
  {
    SwapsBoundedAlongRun(c, tr, p);
    ReachableInv(c, tr);
  }

  lemma PeakOnlyRises(c: Config, s: State, e: Event, s': State)
    requires c.CurveIsValid() && Inv(c, s) && Next(c, s, e, s')
    ensures s.peak <= s'.peak
  {
    if e.Step? { StepKeepsAttempts(c, s, e.p, e.a); }
  }
}
