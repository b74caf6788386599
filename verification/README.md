# Afloat: the login, session, duration, trajectory and text cores

A Dafny model of the parts of Afloat whose correctness spans several functions or
every interleaving, with their properties proved. `dafny verify dfyconfig.toml`
checks the whole project.

- **Login** (`Backoff`, `LoginProtocol`, `LoginPermits`, `LoginThrottle`, `LoginRate`,
  `LoginAnswers`, `LoginWitnesses`, `LoginHandler`). Any number of logins interleave
  one atomic action at a time: a SQL statement (which may fail, or take effect and
  still report an error where the code only logs), a send or receive on `argonSem`,
  an atomic counter operation, the password check. A handler may panic while it holds a
  permit, the client may leave while queued, and the other backend may record and clear
  failures in the same table. `LoginProtocol` is the step machine
  and its invariant. The theorems quantify over every run of it. `LoginHandler` is the
  imperative code: every atomic action of `LocalLogin` and its callees is proved to be
  one step of the machine, with `Interfere` standing for whatever other logins do in
  between (its contract allows any events that are not this login's own). What becomes of
  the login's own statements, its context and its panics is an input, so the code cannot
  choose to fail.
- **Sessions** (`SessionProtocol`, `SessionWitnesses`, `SessionHandler`). Issue, lookup, touch and logout
  interleave over one database clock, statement by statement and clock reading by clock
  reading; every application clock reading is arbitrary unless a result says otherwise.
  `SessionWitnesses` holds the runs that show what overlapping touches can do.
- **Duration parser** (`Decimal`, `WordSums`, `Duration`, `DurationTheorems`). The
  Kotlin port of `time.ParseDuration` in 64-bit unsigned arithmetic. `Duration` holds
  the loops as methods, each proved against a grammar-level function, and
  `DurationTheorems` proves what that function promises.
- **Trajectory** (`Rounding`, `Trajectory`, `TargetLine`). Exact rationals, rounded
  once; money is a whole number of 0.0001 units.
- **Text forms** (`Base64`, `Phc`, `AddressText`). The stored password form and the
  IPv6 backoff key.
- **Validation** (`ValidationChoice`). Which one failure of an error tree is reported.

## Where the code and what is promised part

Each is kept as the code has it, shown by a concrete case, and given its exact
condition.

- The dummy hash is described as matching nothing (`backend/internal/auth/login.go:22-31`),
  but it is the hash of one fixed text. For an address with no account that text passes
  the check and the answer is 500, not 401 (`LoginWitnesses.UnknownAddressCanAnswer500`).
  Without an account the answer is 401 if and only if the password is any other text
  (`LoginAnswers.AnswerWithoutAccount`). The same login clears its keys, so it also wipes
  the failures counted for the caller's address (`LoginWitnesses.DummyTextWipesAddressRow`,
  `LoginAnswers.ClearAttemptedExactly`).
- The duration parser promises a refusal past 2^63 ns
  (`backend-kotlin/src/main/kotlin/dev/kerti/afloat/config/DurationParser.kt:10-14`), but
  a running total of exactly 2^63 plus a component of exactly 2^63 wraps to 0
  (`DurationTheorems.TwiceTheLimitParsesAsZero`). `DurationTheorems.PromiseKeptExactly`
  says for which inputs the promise holds, and no other addition can wrap
  (`WordSums.OnlyWrap`).
- touchIfStale is described as extending the window
  (`backend/internal/auth/session.go:182-187`), but it reads the clock before it writes, so
  of two overlapping touches the later write can carry the earlier expiry
  (`SessionWitnesses.OvertakenTouchShortens`). `SessionProtocol.TouchShortensExactly` says
  when under any clocks, `SessionProtocol.OvertakenExactly` when with one application
  clock, and `SessionProtocol.ActiveSessionKeepsHalf` when a request that writes nothing
  leaves less than half a window (`SessionWitnesses.OverdueWriteLeavesLess`).
- With a negative pool the reported target line can fall (`TargetLine.NegativePoolFalls`)
  and an unchanged Budget can leave its baseline (`TargetLine.NegativePoolLeavesBaseline`).
  `TargetLine.NeverFallsExactly` and `TargetLine.UnchangedPoolKeepsBaseline` give the exact
  conditions in whole units.
- State is documented as a table on Buffer Days, and negative Buffer Days as a pace that
  overspends the pool (`docs/CONTEXT.md:205-215`). With a negative pool the code's
  comparisons turn round (`Trajectory.NegativePoolTurnsRound`): five Buffer Days read as
  taking on water, with a pace that overspends (`Trajectory.NegativePoolIsMisread`).
  `Trajectory.DocumentedExactly` and `Trajectory.NegativeBufferMeansOverspend` give the
  exact conditions.
- Two accepted durations can have a refused concatenation although their results fit together
  (`DurationTheorems.ConcatenationCanBeRefused`); `DurationTheorems.ParseConcatenation` says
  exactly which.
- A stored hash accepted by both backends need not be the string `buildPHC` would print:
  leading zeros and stray base64 bits are accepted. `Phc.BuildParse` has the exact condition,
  `Phc.LeadingZeroIsAccepted` and `Phc.StrayBitsAreAccepted` such strings.

## Model

| member | source | states |
|---|---|---|
| Backoff.DoublingsIsCeilLog2 | backend/internal/db/auth.sql.go:243-244 | the exponent bound is the least number of doublings that takes the first window to the cap |
| Backoff.ClampIsCappedDoubling | backend/internal/db/auth.sql.go:240-247 | for every failure count the clamped window equals plain doubling capped at the maximum, even if the computed logarithm is one too low |
| Backoff.ClampBoundsProduct | backend-kotlin/src/main/kotlin/dev/kerti/afloat/auth/data/LoginAttemptRepository.kt:39-52 | the product inside the cap stays below four times the cap for every failure count |
| Backoff.WindowGrowsWithinBounds | backend/internal/db/auth.sql.go:235-247 | windows never shrink and lie within the first window and the cap |
| Backoff.RecordKeepsCurve | backend/internal/db/auth.sql.go:230-249 | recording a failure counts exactly one more, touches no other key, keeps every row on the curve and never brings a deadline nearer |
| Backoff.NeverLockedOut | backend/internal/db/auth.sql.go:235-239 | a row's deadline lies between first and max after its last write: never a hard lockout |
| Backoff.Remaining | backend/internal/db/auth.sql.go:158-162 | the wait covers every given key's deadline and, when positive, is exactly one of them |
| Backoff.RetryAfterLandsJustPast | backend/internal/auth/login.go:126-131 | waiting the announced Retry-After passes every deadline, by at most one second, and the same rows then let the caller through |
| LoginProtocol.BackoffKeys | backend/internal/auth/login.go:260-266 | one key without an address, two different ones with it |
| LoginProtocol.SharedKeyExactly | backend/internal/auth/login.go:257-266 | two logins share a key if and only if their emails are equal, or their addresses are equal and not empty |
| LoginProtocol.MovedDeltas | backend/internal/auth/password.go:68-85 | every action changes the tokens and the in-flight count exactly as it moves its attempt into or out of the permit |
| LoginProtocol.NextKeepsInv | backend/internal/auth/login.go:39-115 | every event keeps permit conservation, the attempts' local facts and every row on the backoff curve |
| LoginProtocol.ReachableInv | backend/internal/auth/login.go:39-115 | the invariant holds in every state of every run |
| LoginPermits.PermitConservation | backend/internal/auth/password.go:39-85 | in every reachable state tokens are the attempts between acquire and release, and in-flight <= tokens <= 4 |
| LoginPermits.AcquireReleaseBalance | backend/internal/auth/login.go:60-89 | in every run an attempt's acquires less its releases is one exactly while it holds a permit |
| LoginPermits.PermitFreedExactlyOnce | backend/internal/auth/login.go:73-89 | on every exit path, panics included, an attempt has released exactly as often as it acquired, at most once |
| LoginPermits.PeakInvariant | backend/internal/auth/password.go:69-75 | the peak is a count some acquirer saw, and a count above it is still in its swap loop |
| LoginPermits.PeakIsMaximum | backend/internal/auth/password.go:46-54 | once no swap is pending the peak is the largest count any acquirer saw |
| LoginPermits.SwapLoopTerminates | backend/internal/auth/password.go:70-75 | in no interleaving does an attempt fail more than four swaps: each failure means the bounded peak rose |
| LoginThrottle.RowCountsFailuresSinceClear | backend/internal/db/auth.sql.go:230-249 | in every run a key has a row exactly when failures were recorded since its last clear, here or in the other backend; failure_count is their number and updated_at the moment of the last |
| LoginThrottle.DeadlineFollowsCurve | backend/internal/db/auth.sql.go:230-249 | in every run a key's deadline is the moment its last failure was recorded in the run plus the capped doubling for the failures since its last clear |
| LoginThrottle.DeadlineHoldsUntilCleared | backend/internal/db/auth.sql.go:14-16 | along every continuation a deadline never moves nearer until its key is cleared |
| LoginThrottle.RowAfterEvent | backend/internal/db/auth.sql.go:14-16 | how each event changes one key's row: cleared, counted once more, or untouched |
| LoginThrottle.ThrottledAttemptStaysOut | backend/internal/auth/login.go:119-138 | while a deadline is ahead no attempt sharing its key newly passes the second read |
| LoginThrottle.RetryAfterIsAnnounced | backend/internal/auth/login.go:119-138 | in every run the Retry-After of a 429 is strictly past the deadline of every key at the read that refused it, and at most one second past one of them |
| LoginThrottle.OnlyThoseInsideAreChecked | backend/internal/auth/login.go:180-197 | while a deadline is ahead and uncleared, whoever is checked was already past its read under the permit, and is checked once |
| LoginThrottle.BurstBound | backend/internal/auth/login.go:180-197 | in every interleaving, after a recorded failure and before its deadline or a clear, at most 3 further attempts sharing the key are checked: those past their second read and holding permits |
| LoginThrottle.BurstBoundElsewhere | backend/internal/auth/login.go:180-197 | after a failure the other backend records, at most 4 attempts here are checked before its deadline or a clear: those past their second read |
| LoginRate.RecordsPerWindow | backend/internal/auth/login.go:180-197 | after a failure recorded here, at most 3 more are recorded here for its key before its deadline or a clear |
| LoginRate.FailureRate | backend/internal/db/auth.sql.go:230-249 | over any stretch of any run without a clear, m failures recorded for a key take at least one window for each 4, the window of the count reached 4 before |
| LoginRate.GuessesAreRecorded | backend/internal/auth/login.go:188-196 | while no write is lost, wrong guesses at a key are the failures recorded plus those still owed |
| LoginRate.GuessRate | backend/internal/auth/login.go:180-197 | over any stretch of any run without a clear and without a lost write, n wrong guesses at a key take at least the time n - 4 recorded failures do |
| LoginWitnesses.BurstBoundIsReached | backend/internal/auth/login.go:180-197 | some run reaches the bound of 3 |
| LoginWitnesses.RightPasswordSignsIn | backend/internal/auth/login.go:39-115 | a run in which an account's own password is answered 204, with one session for that user |
| LoginWitnesses.UnknownAddressCanAnswer500 | backend/internal/auth/login.go:22-31 | a run in which an address with no account passes the check with the dummy text and answers 500 |
| LoginWitnesses.DummyTextWipesAddressRow | backend/internal/auth/login.go:97-101 | for any count, a run in which a login with no account and the dummy text deletes the caller's address row |
| LoginAnswers.StoryFits | backend/internal/auth/login.go:39-197 | in every run, what an attempt has seen and done so far is fixed by where it is, and nothing is written before a check |
| LoginAnswers.AnswerMatchesStory | backend/internal/auth/login.go:39-115 | 204: unthrottled twice, matched under the permit, freed, cleared, one reported session for that user. 401: mismatched, every key's write attempted, then freed. 429: throttled at one of the two reads. 500: a failed statement, a wait given up, a panic, or a match in vain |
| LoginAnswers.FactsCoverEffects | backend/internal/auth/login.go:97-107 | only the write facts change a table, and a created session is one new row for that user |
| LoginAnswers.NoWriteFactNoEffect | backend/internal/auth/login.go:97-107 | an attempt with no write fact left both tables alone throughout the run |
| LoginAnswers.RefusalTouchesNothing | backend/internal/auth/login.go:48-72 | a 429, or a 500 before any check, changed neither table |
| LoginAnswers.UncheckedOrExplained | backend/internal/auth/login.go:39-115 | in every run a 500 ends in a failed read or lookup or a wait given up, holds a panic, or is a match after which the insert failed or was reported as failed; and each recorded check is what Argon2 says |
| LoginAnswers.UntroubledAnswer | backend/internal/auth/login.go:39-115 | an attempt with no failed statement, no wait given up and no panic answers 429 exactly if throttled, 401 exactly if its password was found wrong, and 204 exactly if its account's hash matched |
| LoginAnswers.AnswerWithoutAccount | backend/internal/auth/login.go:154-178 | with no account, a completed check answers 401 if and only if the password is not the dummy hash's text, and otherwise 500 |
| LoginAnswers.ClearersPassed | backend/internal/auth/login.go:93-101 | in every run, whoever comes to clear its keys has its account's password or, with no account, the dummy text |
| LoginAnswers.ClearedBy | backend/internal/auth/login.go:97-101 | a step that removes a key's row is the applied clear of an attempt that passed |
| LoginAnswers.ClearAttemptedExactly | backend/internal/auth/login.go:93-101 | of the attempts checked without a panic, those that clear their keys are exactly those that passed |
| LoginHandler.Server.Throttled | backend/internal/auth/login.go:119-138 | 500 exactly if the read failed; otherwise 429, with a wait just past the deadlines, or proceed, as the machine's read step |
| LoginHandler.Server.Resolve | backend/internal/auth/login.go:160-178 | two lookups, with interference between them, as the machine's steps; with both answered it is never an outage |
| LoginHandler.Server.FindCredential | backend/internal/auth/login.go:169-177 | the stored hash of that user, or a dormant account, or an outage exactly if the statement failed |
| LoginHandler.Server.AcquireArgonPermit | backend/internal/auth/password.go:59-80 | ends holding a counted permit past the swap loop, or with nothing; a live context and a free token give a permit |
| LoginHandler.Server.Wait | backend/internal/auth/password.go:60-79 | nothing for an ended context, a token at once when one is free, and otherwise whichever of token and end comes first |
| LoginHandler.Server.Select | backend/internal/auth/password.go:67-79 | a token exactly when one is free and the context has not ended, or it has and the select picks the token |
| LoginHandler.Server.TryPublish | backend/internal/auth/password.go:70-75 | one pass publishes, or the bounded peak has risen |
| LoginHandler.PeakRisesAlong | backend/internal/auth/password.go:70-75 | no continuation lowers the peak |
| LoginHandler.Server.constructor | backend/internal/auth/password.go:44-54 | a fresh process, nothing acquired, is a run of the machine |
| LoginHandler.Server.PublishCount | backend/internal/auth/password.go:69-76 | the swap loop terminates under any interference and leaves the attempt at its second read |
| LoginHandler.Server.ReleaseArgonPermit | backend/internal/auth/password.go:82-85 | both halves of the release, with interference between them, as machine steps |
| LoginHandler.Server.ReceiveToken | backend/internal/auth/password.go:84 | one token fewer, and on to what comes next |
| LoginHandler.Server.RecordFailures | backend/internal/auth/login.go:245-255 | one write per key, in order, whether or not another fails, and a panic exactly where one is |
| LoginHandler.Server.RecordLoginFailure | backend/internal/auth/login.go:247-253 | one key's write, applied or only logged, as one machine step |
| LoginHandler.Server.ClearLoginAttempts | backend/internal/auth/login.go:97-101 | one delete of the attempt's keys, applied or only logged, as one machine step |
| LoginHandler.Server.IssueSession | backend/internal/auth/login.go:103-107 | issued exactly if there is an account and the insert is applied and reported; at most one new row, for that user |
| LoginHandler.Server.CheckPassword | backend/internal/auth/login.go:188-197 | second read, check and failure writes all happen before the permit is given back |
| LoginHandler.Server.VerifyAndRecord | backend/internal/auth/login.go:192-196 | passes exactly if the password matches the hash, and records every key's failure otherwise |
| LoginHandler.Server.LocalLogin | backend/internal/auth/login.go:39-115 | under any interference the call is a run of the machine in which every action of its own is as decided for it; its answer explains exactly what it did; a 429 touched no table and announced a wait just past the deadlines; with every statement answered and no giving up, an account gets no 500, and 204 exactly if its hash matched |
| LoginHandler.HealthyIsUntroubled | backend/internal/auth/login.go:39-115 | statements that all succeed leave no failure in the story of a login to an account |
| LoginHandler.Server.DeferredRelease | backend/internal/auth/login.go:76-77 | the deferred release frees the permit if and only if the early one did not |
| LoginHandler.Server.UnderPermit | backend/internal/auth/login.go:76-115 | from the acquired permit to the answer the permit is released once on every path |
| LoginHandler.Server.AfterCheck | backend/internal/auth/login.go:89-114 | early release, then the answer the check calls for |
| SessionProtocol.KnownAlways | backend/internal/auth/session.go:46-69 | every stored id is the hash of a token already seen |
| SessionProtocol.RowIsLife | backend/internal/db/auth.sql.go:23-66 | in every run the table holds exactly the sessions issued and not ended since, with owner, birth, last written expiry and when it was written |
| SessionProtocol.LookUpSucceedsExactly | backend/internal/db/auth.sql.go:126-131 | under any clock skew a lookup succeeds if and only if the session is alive, before its last written expiry and before birth plus the maximum lifetime |
| SessionProtocol.RevokedForGood | backend/internal/auth/me.go:46-55 | after a logout no lookup of that token succeeds in any continuation, even past a touch by a request that read the row earlier |
| SessionProtocol.SweptForGood | backend/internal/db/auth.sql.go:55-75 | the same after an expiry sweep or the deletion of a user's sessions |
| SessionProtocol.CappedForGood | backend/internal/auth/session.go:142-148 | once the absolute cap has passed no continuation revives the session |
| SessionProtocol.BirthIsFixed | backend/internal/db/auth.sql.go:262-265 | no touch changes a session's owner or birth |
| SessionProtocol.ServedAsLiveUser | backend/internal/auth/session.go:131-207 | a request is served as a user only if its token looked up live for that user, who was there, since it began; its cookie is cleared only if the token or user was gone, left alone for nobody only without a token or after a failed lookup, and refreshed, with its token and the expiry written, exactly if its touch was reported |
| SessionProtocol.TouchShortensExactly | backend/internal/auth/session.go:188-207 | under any clocks, a touch brings the stored expiry nearer if and only if the last touch of that session since its lookup came from a later reading or, without one, the row it read lay more than a window past its reading |
| SessionProtocol.OvertakenExactly | backend/internal/auth/session.go:188-207 | with one application clock and a nonnegative window, if and only if the last touch of that session since its own reading came from a later reading; a negative window needs a table without longer ones |
| SessionWitnesses.OvertakenTouchShortens | backend/internal/auth/session.go:189-198 | a run with one application clock in which a touch shortens |
| SessionWitnesses.LaterTouchNeedNotShorten | backend/internal/auth/session.go:189-198 | a run in which a touch with a later reading is applied in between and the write still lengthens: only the last touch counts |
| SessionProtocol.StoredSinceReading | backend/internal/auth/session.go:189-198 | with one application clock, between a touch's clock reading and its write the stored expiry is no later than its own, or is the last touch's |
| SessionProtocol.ActiveSessionKeepsHalf | backend/internal/auth/session.go:182-194 | under any clocks: nothing is written if and only if more than half of a nonnegative window was read; a write leaves a whole window from its reading; without one, at least half a window is left if and only if the last touch since the lookup is not from a reading more than half a window old |
| SessionWitnesses.OverdueWriteLeavesLess | backend/internal/auth/session.go:189-194 | a run in which less than half is left |
| SessionProtocol.ExpiryFollowsClock | backend/internal/auth/session.go:57 | with one application clock, its readings ordered where they are taken, no expiry stored or about to be written is more than one window ahead of the latest reading |
| SessionProtocol.NotAliveStays | backend/internal/db/auth.sql.go:262-265 | a token once seen whose session is not alive never gets one, touches included |
| SessionHandler.SessionServer.IssueSession | backend/internal/auth/session.go:52-69 | an applied insert makes the session alive for that user, one window from the clock reading; the cookie is returned exactly if it is reported |
| SessionHandler.SessionServer.Logout | backend/internal/auth/me.go:46-63 | a success exactly without a token or with a reported delete; exactly that token's row goes |
| SessionHandler.SessionServer.SessionMiddleware | backend/internal/auth/session.go:131-180 | the middleware is a run of the machine as decided for the request; it serves a user only for a token live meanwhile, and a token whose lookups were answered is served or cleared |
| SessionHandler.SessionServer.TouchIfStale | backend/internal/auth/session.go:188-207 | two clock readings and the write, with interference between them, as machine steps; the cookie is refreshed exactly if the row was stale and the write reported |
| SessionHandler.SessionServer.TouchSession | backend/internal/auth/session.go:195-206 | exactly the UPDATE, if applied; the refreshed cookie carries the expiry written |
| SessionHandler.SessionServer.constructor | backend/internal/auth/handlers.go:48-63 | a fresh server over any table whose ids are hashes of seen tokens is a run of the machine |
| Decimal.SpellRoundTrip | backend/internal/auth/password.go:212-218 | a number's decimal spelling is digits, and reads back as the number |
| WordSums.WrapIsMod | backend-kotlin/src/main/kotlin/dev/kerti/afloat/config/DurationParser.kt:10-14 | 64-bit reduction is the remainder by 2^64 |
| WordSums.TotalsExactly | backend-kotlin/src/main/kotlin/dev/kerti/afloat/config/DurationParser.kt:42-83 | the running total is accepted exactly when every reduced running sum stays within 2^63, and is the exact sum reduced to 64 bits |
| WordSums.OnlyWrap | backend-kotlin/src/main/kotlin/dev/kerti/afloat/config/DurationParser.kt:81-82 | the addition wraps if and only if both operands are 2^63 |
| WordSums.TotalsBelowWord | backend-kotlin/src/main/kotlin/dev/kerti/afloat/config/DurationParser.kt:81-82 | below 2^64 the total is exact, and accepted if and only if within 2^63 |
| WordSums.WrapStartsAgain | backend-kotlin/src/main/kotlin/dev/kerti/afloat/config/DurationParser.kt:81-82 | past the wrap the total goes on as if from 0 |
| WordSums.WronglyAcceptedExactly | backend-kotlin/src/main/kotlin/dev/kerti/afloat/config/DurationParser.kt:81-87 | a sum past the bound is accepted if and only if the total wraps somewhere and what follows is accepted on its own |
| WordSums.ShiftedTotal | backend-kotlin/src/main/kotlin/dev/kerti/afloat/config/DurationParser.kt:81-82 | starting an accepted total higher adds up if and only if the sum fits and either nothing is added or it never wraps, and is refused otherwise |
| Duration.KeptIsPrefixValue | backend-kotlin/src/main/kotlin/dev/kerti/afloat/config/DurationParser.kt:105-129 | the kept fraction is the value of a prefix of the digits, the longest that fits in 2^63 |
| Duration.LeadingInt | backend-kotlin/src/main/kotlin/dev/kerti/afloat/config/DurationParser.kt:91-101 | null exactly when the leading digits spell more than 2^63, else their value and the rest; no wraparound |
| Duration.LeadingFraction | backend-kotlin/src/main/kotlin/dev/kerti/afloat/config/DurationParser.kt:107-129 | consumes every digit and keeps the value of the longest prefix that fits, never an error |
| Duration.ParseNumber | backend-kotlin/src/main/kotlin/dev/kerti/afloat/config/DurationParser.kt:44-65 | reads exactly the grammar's number at the front, refusing an oversized or missing one |
| Duration.ParseUnit | backend-kotlin/src/main/kotlin/dev/kerti/afloat/config/DurationParser.kt:67-72 | reads exactly the unit run, refusing a missing or unknown one |
| Duration.Scale | backend-kotlin/src/main/kotlin/dev/kerti/afloat/config/DurationParser.kt:74-80 | whole and fraction in nanoseconds if within 2^63, else a refusal, with no wraparound |
| Duration.ParseComponent | backend-kotlin/src/main/kotlin/dev/kerti/afloat/config/DurationParser.kt:44-80 | one pass reads exactly one grammar component and its exact value, or refuses |
| Duration.ParseDuration | backend-kotlin/src/main/kotlin/dev/kerti/afloat/config/DurationParser.kt:30-88 | the loop computes the grammar-level parse of every string |
| DurationTheorems.ComponentsUnique | backend-kotlin/src/main/kotlin/dev/kerti/afloat/config/DurationParser.kt:43-72 | a text has at most one reading as components |
| DurationTheorems.AcceptsOnlyGrammar | backend-kotlin/src/main/kotlin/dev/kerti/afloat/config/DurationParser.kt:30-72 | whatever is accepted is a bare 0 or a nonempty sequence of components, after at most one sign |
| DurationTheorems.ParseOfComponents | backend-kotlin/src/main/kotlin/dev/kerti/afloat/config/DurationParser.kt:42-87 | on every grammatical input, fractions and wraparound included, exactly what is returned |
| DurationTheorems.ExactBelowWord | backend-kotlin/src/main/kotlin/dev/kerti/afloat/config/DurationParser.kt:42-87 | an exact sum below 2^64 is accepted if and only if it fits (2^63 only when negative), and is then returned |
| DurationTheorems.PromiseKeptExactly | backend-kotlin/src/main/kotlin/dev/kerti/afloat/config/DurationParser.kt:10-14 | the promised answer is given if and only if no running total of 2^63 is followed by a component of 2^63 and a rest that fits |
| DurationTheorems.TwiceTheLimitParsesAsZero | backend-kotlin/src/main/kotlin/dev/kerti/afloat/config/DurationParser.kt:81-82 | 2^63 ns written twice is accepted, as zero |
| DurationTheorems.ParseConcatenation | backend-kotlin/src/main/kotlin/dev/kerti/afloat/config/DurationParser.kt:42-87 | for accepted unsigned texts, neither the bare 0: the results add up if and only if their sum fits and either the first is zero or the second never wraps, and the whole is refused otherwise; fractions included |
| DurationTheorems.ConcatenationCanBeRefused | backend-kotlin/src/main/kotlin/dev/kerti/afloat/config/DurationParser.kt:81-82 | 1 ns, then 2^63 ns twice: accepted apart, refused together |
| DurationTheorems.BareZeroAfter | backend-kotlin/src/main/kotlin/dev/kerti/afloat/config/DurationParser.kt:37-44 | no text ending in a bare 0 is accepted after another |
| DurationTheorems.BareZeroBefore | backend-kotlin/src/main/kotlin/dev/kerti/afloat/config/DurationParser.kt:37-47 | a 0 before a text of components changes nothing |
| DurationTheorems.ParsesUnit | backend-kotlin/src/main/kotlin/dev/kerti/afloat/config/DurationParser.kt:17-28 | every whole number with each of the eight units is read as that many times the unit's nanoseconds, up to 2^63 - 1, and refused past it |
| DurationTheorems.ParsesFraction | backend-kotlin/src/main/kotlin/dev/kerti/afloat/config/DurationParser.kt:52-80 | and a fraction adds what the fraction rule makes of its digits, their number and the unit |
| DurationTheorems.ParsesShortForms | backend-kotlin/src/main/kotlin/dev/kerti/afloat/config/DurationParser.kt:55-65 | a fraction alone stands for one with a 0 before the dot, and a dot alone adds nothing |
| DurationTheorems.RefusesOtherUnits | backend-kotlin/src/main/kotlin/dev/kerti/afloat/config/DurationParser.kt:64-72 | a number with any other unit, or with none unless it is 0, is refused, and so is a dot without digits |
| DurationTheorems.ParsesSign | backend-kotlin/src/main/kotlin/dev/kerti/afloat/config/DurationParser.kt:31-36 | a plus sign changes nothing, a minus sign negates and lets exactly 2^63 through besides, and a second sign is refused |
| DurationTheorems.ParsesBareZero | backend-kotlin/src/main/kotlin/dev/kerti/afloat/config/DurationParser.kt:37-40 | 0 with or without a sign is zero; nothing, or a sign alone, is refused |
| Rounding.QuoRemSplits | backend/internal/trajectory/trajectory.go:190-194 | quotient and remainder put the numerator back together, the remainder signed like it |
| Rounding.FloorAt4dp | backend/internal/trajectory/trajectory.go:190-199 | the truncated quotient with its correction is the true floor at 4dp |
| Rounding.HalfUpAt4dp | backend/internal/trajectory/trajectory.go:204-218 | the truncated quotient with its correction is half away from zero at 4dp |
| Rounding.HalfUpNearest | backend/internal/trajectory/trajectory.go:201-218 | within half a unit, a tie away from zero |
| Rounding.HalfUpMonotone | backend/internal/trajectory/trajectory.go:204-218 | half-up never reverses an order |
| Rounding.HalfUpOfMoney | backend/internal/trajectory/trajectory.go:204-218 | half-up is the identity on 4dp values |
| Rounding.HalfUpOdd | backend/internal/trajectory/trajectory.go:201-218 | half-up of a negated value is the negated half-up |
| Rounding.FloorBounds | backend/internal/trajectory/trajectory.go:186-199 | the floor is at most its argument and less than one unit below it, for either sign |
| Rounding.FloorMonotone | backend/internal/trajectory/trajectory.go:190-199 | the floor never reverses an order |
| Rounding.FloorOfMoney | backend/internal/trajectory/trajectory.go:190-199 | the floor is the identity on 4dp values |
| Rounding.FloorOfShare | backend/internal/trajectory/trajectory.go:186-199 | money over a whole number of days floors to the integer quotient, for either sign |
| Rounding.HalfUpOfShare | backend/internal/trajectory/trajectory.go:201-218 | a number of days' share of money, rounded half-up, in whole numbers only |
| Trajectory.PoolFigures | backend/internal/trajectory/trajectory.go:106-162 | a read is accepted exactly for a positive period with days left, a known mode and a nonzero pool; available plus future spend is the pool, and the baseline its floored share, in both modes |
| Trajectory.AdaptiveFigures | backend/internal/trajectory/trajectory.go:132-148 | allowance and forward rate are floored integer shares of what is left; undefined exactly on the last day |
| Trajectory.FixedFigures | backend/internal/trajectory/trajectory.go:132-148 | in fixed mode the allowance is the baseline, and the forward rate still shares out what is left |
| Trajectory.ReportedNearest | backend/internal/trajectory/trajectory.go:150-162 | Variance and Buffer Days are the nearest 0.0001 to P*e - S*D over D and over P, ties away from zero, for either sign of pool |
| Trajectory.TomorrowsAllowance | backend/internal/trajectory/trajectory.go:130-148 | tomorrow's allowance is today's forward rate; it does not fall if Left >= 0 and does not rise if Left < 0 |
| Trajectory.StayingWithinAllowance | backend/internal/trajectory/trajectory.go:130-148 | Left >= 0 on every remaining day keeps the total within what was left |
| Trajectory.AllowanceCanBeSpent | backend/internal/trajectory/trajectory.go:132-140 | from every accepted adaptive read, some day-by-day spending is exactly the allowance every remaining day |
| Trajectory.FairSplit | backend/internal/trajectory/trajectory.go:106-140 | spending the allowance every day gives q on the first r-m days, q+0.0001 on the last m, and exhausts the pool exactly |
| Trajectory.AvailableIsSpent | backend/internal/trajectory/trajectory.go:106-155 | spending the allowance to the end spends the reported Available Pool less settled spend exactly, and staying within it no more |
| Trajectory.MoreSpendNeverImproves | backend/internal/trajectory/trajectory.go:150-181 | more settled spend never improves State, for any pool sign and threshold order |
| Trajectory.BufferDaysMatchState | backend/internal/trajectory/trajectory.go:165-181 | past warm-up, with a 4dp threshold, reported Buffer Days and State agree up to the rounding at the threshold, for either sign of pool |
| Trajectory.BufferDaysMatchWater | backend/internal/trajectory/trajectory.go:165-181 | the same of the lower threshold, between Drifting and TakingOnWater |
| Trajectory.StateInUnits | backend/internal/trajectory/trajectory.go:165-181 | past warm-up, with 4dp thresholds, the exact State in whole numbers, for either sign of pool |
| Trajectory.DocumentedExactly | docs/CONTEXT.md:205-219 | State is the documented table on exact Buffer Days if and only if it is warm-up, the pool is positive, or Buffer Days are exactly at the upper threshold |
| Trajectory.NegativePoolTurnsRound | backend/internal/trajectory/trajectory.go:165-181 | with a negative pool, Afloat at or below the upper threshold, and Drifting only between thresholds in the wrong order |
| Trajectory.NegativePoolIsMisread | backend/internal/trajectory/trajectory.go:165-181 | a negative pool read as taking on water with five Buffer Days, its pace overspending |
| Trajectory.OverspendIsBehind | backend/internal/trajectory/trajectory.go:150 | the average pace overspends the pool if and only if the exact Variance is negative, for either sign of pool |
| Trajectory.NegativeBufferMeansOverspend | docs/CONTEXT.md:213-215 | after day one, exact Buffer Days below zero and an overspending pace say the same if and only if the pool is positive or settled spend is dead on pace |
| Trajectory.ReportedNegativeExactly | backend/internal/trajectory/trajectory.go:150-162 | for either sign of pool, exactly when the reported Buffer Days are negative, in whole numbers |
| TargetLine.ContinuousAtKink | backend/internal/trajectory/target_line.go:79-93 | both branches agree at day j-1, and the line never falls below it afterwards |
| TargetLine.NeverFalls | backend/internal/trajectory/target_line.go:79-93 | the rounded line is nondecreasing for a nonnegative old pool, and from the change on for any |
| TargetLine.LineStarts | backend/internal/trajectory/target_line.go:41-47 | there is a line exactly for a change on a day of the period, and it starts from nothing |
| TargetLine.ExactMonotone | backend/internal/trajectory/target_line.go:79-93 | the same of the unrounded line |
| TargetLine.NeverFallsExactly | backend/internal/trajectory/target_line.go:41-93 | from any first day to D the reported line never falls if and only if the old pool is nonnegative, the change is in force by then, or the old line rounds the same on the first day and at the change |
| TargetLine.NeverFallsFromZero | backend/internal/trajectory/target_line.go:41-93 | over days 0 to D: if and only if the old pool is nonnegative or twice what it owes by the change is less than D units |
| TargetLine.NegativePoolFalls | backend/internal/trajectory/target_line.go:79-85 | a negative pool whose reported line falls |
| TargetLine.EndsAtNewPool | backend/internal/trajectory/target_line.go:79-93 | on day D the line is the new pool, or the rounded kink if the new pool is below it; it reports the new pool if and only if the kink rounds to no more |
| TargetLine.CutBudgetEndsAtKink | backend/internal/trajectory/target_line.go:87-92 | a cut Budget that ends at its kink, and one whose kink does not show |
| TargetLine.SlopeUnchanged | backend/internal/trajectory/target_line.go:53-57 | an unchanged pool gives the new slope equal to the old |
| TargetLine.UnchangedPoolLine | backend/internal/trajectory/target_line.go:41-93 | an unchanged pool's unrounded line is the baseline, or flat at the kink after the change for a negative pool |
| TargetLine.UnchangedPoolKeepsBaseline | backend/internal/trajectory/target_line.go:41-93 | the reported line of an unchanged pool is the rounded baseline on a day if and only if the pool is nonnegative, the day is before the change, or the baseline rounds the same then and at the change |
| TargetLine.NegativePoolLeavesBaseline | backend/internal/trajectory/target_line.go:87-92 | a negative pool whose unchanged line leaves its baseline |
| Base64.DecodeEncode | backend/internal/auth/password.go:201-216 | every byte string decodes from its encoding |
| Base64.EncodeDecode | backend/internal/auth/password.go:201-216 | decodable text encodes back to itself if and only if its unused bits are zero |
| Base64.StrayBitsIgnored | backend/internal/auth/password.go:201-208 | every byte has a second text, which decodes to it and is not its encoding |
| Base64.TestVectors | backend/internal/auth/password.go:214-216 | the test vectors of section 10 of RFC 4648, padding left out |
| Base64.LastTwoCharacters | backend/internal/auth/password.go:214-216 | the two characters of the alphabet that are neither letters nor digits |
| Phc.ShapeFinds | backend/internal/auth/password.go:179-182 | every shaped text is matched, with the fields it was written from |
| Phc.ShapeSplits | backend/internal/auth/password.go:179-182 | whatever is matched is the text of its shaped captures |
| Phc.ParseBuild | backend/internal/auth/password.go:181-218 | the parser returns what the printer printed if and only if 1 to 10 iterations, 1 to 255 lanes, 8 KiB a lane to 64 MiB, a nonempty salt and a hash of at least 4 bytes; otherwise it refuses |
| Phc.BuildParse | backend/internal/auth/password.go:181-218 | an accepted string is the printed one if and only if it has no leading zeros and no stray bits |
| Phc.LeadingZeroIsAccepted | backend/internal/auth/password.go:181-218 | for every value in range, a leading zero is accepted for that value and never printed |
| Phc.StrayBitsAreAccepted | backend/internal/auth/password.go:181-218 | a one-byte salt with stray bits is accepted for its value and never printed |
| Phc.BackendsAgree | backend-kotlin/src/main/kotlin/dev/kerti/afloat/auth/PasswordService.kt:104-123 | Go's parsePHC and Kotlin's hasPhcShape accept exactly the same strings |
| Phc.StoredString | backend/internal/auth/password.go:179-218 | one stored string, character for character, is printed for its values and parsed to them |
| AddressText.BestRunUnique | backend-kotlin/src/main/kotlin/dev/kerti/afloat/auth/RequestContext.kt:141-152 | the longest leftmost zero run is unique |
| AddressText.LongestZeroRun | backend-kotlin/src/main/kotlin/dev/kerti/afloat/auth/RequestContext.kt:143-152 | the scan finds the longest, leftmost zero run |
| AddressText.NormalizeGroups | backend-kotlin/src/main/kotlin/dev/kerti/afloat/auth/RequestContext.kt:139-157 | the printed key leaves out exactly that run, if it has at least two groups |
| AddressText.ExpandPrint | backend-kotlin/src/main/kotlin/dev/kerti/afloat/auth/RequestContext.kt:153-156 | the printed text expands back to the same eight groups |
| AddressText.CompressedExactly | backend-kotlin/src/main/kotlin/dev/kerti/afloat/auth/RequestContext.kt:141-156 | the printed address has two colons in a row if and only if its best zero run has at least two groups |
| AddressText.PrintUnpadded | backend-kotlin/src/main/kotlin/dev/kerti/afloat/auth/RequestContext.kt:153-156 | no printed group but 0 itself starts with a zero |
| AddressText.Loopback | backend-kotlin/src/main/kotlin/dev/kerti/afloat/auth/RequestContext.kt:119-121 | the loopback address is printed as ::1 |
| AddressText.Documentation | backend-kotlin/src/main/kotlin/dev/kerti/afloat/auth/RequestContext.kt:139-156 | the groups of 2001:db8::1 are printed so |
| AddressText.KeysAreFaithful | backend-kotlin/src/main/kotlin/dev/kerti/afloat/auth/RequestContext.kt:119-157 | two keys are equal if and only if groups and zone are |
| ValidationChoice.Collector.CollectBody | backend/internal/httpserver/openapi_validate.go:311-332 | appends exactly the leaves below a body |
| ValidationChoice.Collector.CollectParameter | backend/internal/httpserver/openapi_validate.go:337-345 | appends exactly the leaves below a parameter |
| ValidationChoice.Collector.Collect | backend/internal/httpserver/openapi_validate.go:284-309 | reports a fault if and only if the tree has one, else collects exactly its leaves |
| ValidationChoice.MinFunc | backend/internal/httpserver/openapi_validate.go:265-267 | an element no other is less than |
| ValidationChoice.Choose | backend/internal/httpserver/openapi_validate.go:244-272 | fault or nothing over undecodable over the least (field, rule), as a relation on the set of leaves |
| ValidationChoice.AnswerUnique | backend/internal/httpserver/openapi_validate.go:257-271 | the set of leaves fixes the reply |
| ValidationChoice.StringLessIsPrecedes | backend/internal/httpserver/openapi_validate.go:265-267 | the string order is by the first difference, a prefix first |
| ValidationChoice.ReplyIsFirst | backend/internal/httpserver/openapi_validate.go:265-271 | a field reply is a leaf with no leaf before it, by field and then by rule |
| ValidationChoice.BrokenKeywordReply | backend/internal/httpserver/openapi_validate.go:317-325 | a broken keyword on a body's field is answered with its dotted path and the keyword's rule, or as a body that does not decode |
| ValidationChoice.BrokenParameterReply | backend/internal/httpserver/openapi_validate.go:349-360 | and on a parameter with the keyword's rule, or "invalid" |
| ValidationChoice.OtherReplies | backend/internal/httpserver/openapi_validate.go:302-332 | a missing or unparsable parameter or body, a body broken as a whole, and an unlisted media type |
| ValidationChoice.SameLeavesSameReply | backend/internal/httpserver/openapi_validate.go:244-345 | two trees with the same leaves get the same reply |
| ValidationChoice.ReorderingKeepsLeaves | backend/internal/httpserver/openapi_validate.go:286-292 | reordering or repeating the members of a MultiError keeps its leaves |
| ValidationChoice.RenestingKeepsLeaves | backend/internal/httpserver/openapi_validate.go:286-292 | nesting members in a MultiError of their own keeps the leaves |
| ValidationChoice.SplittingBodyKeepsLeaves | backend/internal/httpserver/openapi_validate.go:311-316 | splitting a body's causes over several body errors keeps the leaves |
| ValidationChoice.SplittingParameterKeepsLeaves | backend/internal/httpserver/openapi_validate.go:337-345 | splitting a parameter's causes over several errors of it keeps the leaves |
| ValidationChoice.ReorderingCausesKeepsLeaves | backend/internal/httpserver/openapi_validate.go:311-345 | reordering or repeating causes below a body or a parameter keeps the leaves |
| ValidationChoice.RenestingCausesKeepsLeaves | backend/internal/httpserver/openapi_validate.go:311-345 | nesting causes below a body or a parameter in a MultiError of their own keeps the leaves |
| ValidationChoice.ErrorsCongruent | backend/internal/httpserver/openapi_validate.go:286-292 | errors with the same leaves one by one have the same leaves together |
| ValidationChoice.CausesCongruent | backend/internal/httpserver/openapi_validate.go:311-345 | and so have causes below a body or a parameter |
| ValidationChoice.CauseMovesKeepLeaves | backend/internal/httpserver/openapi_validate.go:311-345 | any rearrangement of causes, at any depth, keeps the leaves |
| ValidationChoice.MovesKeepLeaves | backend/internal/httpserver/openapi_validate.go:284-345 | any sequence of reorderings, nestings, unnestings and splits, at any depth of the tree, keeps the leaves |
| ValidationChoice.RearrangedSameReply | backend/internal/httpserver/openapi_validate.go:244-345 | a tree and any such rearrangement of it get the same reply |

## Left out

- Argon2, SHA-256 and token generation: a match relation between passwords and stored strings, an injective hash, and tokens not seen before, which no other request guesses.
- The arithmetic of Postgres: intervals are exact whole microseconds, `now()` is read when its statement takes effect, failure_count does not overflow its column, and the logarithm is exact or one too low.
- Rows written under other settings: runs start from rows the present curve could have written, and the other backend records failures on the same curve.
- The other backend's permits: it may record and clear failures at any moment, but its own attempts, up to as many again, are not counted by LoginThrottle.BurstBound or LoginRate.GuessRate.
- Floating point in the duration fraction: the value of a fraction is an arbitrary function of its kept digits, their number and the unit, at most the unit.
- Error texts of the duration parser, of Calculate and of NewTargetLine: a refusal carries no input-dependent message.
- The argonWaiting counter and HashPassword's permit at package init: the first is read only by a test, the second shows only as the starting peak.
- Handler deadlines and afterPermit's fresh budget: the context may end at any moment while queued, and any later statement may fail.
- A panic outside the stretch from the second read to the failure writes: the permit is not held there, or no code of this repository runs there.
- Kotlin's login flow and withPermit: the same permit discipline through a library semaphore; its "no user" check makes the dummy text answer 401.
- Email normalisation, request parsing, cookie attributes and Max-Age, logging.
- How often overlapping requests touch one session: two may read a stale row and both touch it.
- Money inputs at more than four decimals: amounts are whole units of 0.0001, as stored; TargetLine's BaselineAfter is one more floored quotient.
- normalizeIp before the groups: trimming, the literal test, InetAddress and IPv4.
- MediaTypeError text: the failure it appends is undecodable for any text that is not empty.
- ValidationChoice.Choose: the security branch, which nothing reaches, is absent.
- Routing, middleware order, configuration loading, JSON, regular expression and URL libraries, the expense and budget tables, migrations.
