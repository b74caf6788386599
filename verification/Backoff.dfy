/** The login backoff curve and the `login_attempts` table it is stored in
    (backend/internal/db/auth.sql.go). Instants and intervals are whole
    microseconds of the database clock. */
module Backoff {

  const MICROS_PER_SECOND := 1_000_000

  function Min(a: int, b: int): int { if a <= b then a else b }

  function Max(a: int, b: int): int { if a >= b then a else b }

  // ---------------------------------------------------------------- the curve

  /** `first` doubled `n` times: first * 2^n. */
  function Doubled(first: int, n: nat): int { if n == 0 then first else 2 * Doubled(first, n - 1) }

  /** ceil(log2(max / first)): how many doublings take `first` to `max` or past it. */
  function Doublings(first: int, max: int): (c: nat)
    requires 0 < first
    decreases max - first
  {
    if max <= first then 0 else 1 + Doublings(2 * first, max)
  }

  /** The window the upsert writes over a row that already counts `n` failures,
      its exponent clamped one past `c`. */
  function ClampedWindow(first: int, max: int, n: nat, c: nat): int {
    Min(Doubled(first, Min(n, c + 1)), max)
  }

  /** The curve the design promises: doubling from `first`, never past `max`. */
  function CappedDoubling(first: int, max: int, n: nat): int { Min(Doubled(first, n), max) }

  lemma {:induction false} DoubledGrows(first: int, a: nat, b: nat)
    requires 0 < first && a <= b
    ensures first <= Doubled(first, a) <= Doubled(first, b)
    decreases b
  {
    if a < b {
      DoubledGrows(first, a, b - 1);
    } else if a > 0 {
      DoubledGrows(first, a - 1, a - 1);
    }
  }

  lemma {:induction false} DoubleFirst(first: int, n: nat)
    ensures Doubled(2 * first, n) == Doubled(first, n + 1)
  {
    if n > 0 { DoubleFirst(first, n - 1); }
  }

  /** `Doublings` is the ceiling logarithm: the least exponent that reaches the cap. */
  lemma {:induction false} DoublingsIsCeilLog2(first: int, max: int)
    requires 0 < first
    ensures var c := Doublings(first, max);
            && Doubled(first, c) >= max
            && (c > 0 ==> Doubled(first, c - 1) < max)
    decreases max - first
  {
    if max > first {
      DoublingsIsCeilLog2(2 * first, max);
      var c := Doublings(first, max);
      DoubleFirst(first, c - 1);
      if c > 1 { DoubleFirst(first, c - 2); }
    }
  }

  /** The clamp changes nothing, even when the computed logarithm `c` came out
      one too low. */
  lemma ClampIsCappedDoubling(first: int, max: int, n: nat, c: nat)
    requires 0 < first <= max
    requires c + 1 >= Doublings(first, max)
    ensures ClampedWindow(first, max, n, c) == CappedDoubling(first, max, n)
  {
    DoublingsIsCeilLog2(first, max);
    if n > c + 1 {
      DoubledGrows(first, Doublings(first, max), c + 1);
      DoubledGrows(first, c + 1, n);
    }
  }

  /** The clamped product never reaches four times the cap, whatever the failure
      count, so the interval arithmetic cannot overflow once the cap fits. */
  lemma ClampBoundsProduct(first: int, max: int, n: nat)
    requires 0 < first <= max
    ensures Doubled(first, Min(n, Doublings(first, max) + 1)) < 4 * max
  {
    var c := Doublings(first, max);
    DoublingsIsCeilLog2(first, max);
    DoubledGrows(first, Min(n, c + 1), c + 1);
  }

  /** Every window lies within [first, max] and none is shorter than the one before. */
  lemma WindowGrowsWithinBounds(first: int, max: int, m: nat, n: nat)
    requires 0 < first <= max && m <= n
    ensures first <= CappedDoubling(first, max, m) <= CappedDoubling(first, max, n) <= max
  {
    DoubledGrows(first, m, n);
  }

  // ---------------------------------------------------------------- the table

  /** One `login_attempts` row. */
  datatype Row = Row(failures: nat, until: int, updated: int)

  type Rows = map<string, Row>

  /** RecordLoginFailure: insert the first failure, or count one more and move the deadline. */
  function RecordFailure(rows: Rows, key: string, now: int, first: int, max: int): Rows
    requires 0 < first
  {
    if key in rows then
      var n := rows[key].failures;
      rows[key := Row(n + 1, now + ClampedWindow(first, max, n, Doublings(first, max)), now)]
    else
      rows[key := Row(1, now + first, now)]
  }

  /** The microseconds one key's backoff has left, 0 when it is not active. */
  function RemainingOf(rows: Rows, key: string, now: int): int {
    if key in rows && rows[key].until > now then rows[key].until - now else 0
  }

  /** GetLoginBackoff: what the longest active backoff among `keys` has left. */
  function Remaining(rows: Rows, keys: seq<string>, now: int): (wait: int)
    ensures wait >= 0
    ensures forall k :: k in keys && k in rows ==> rows[k].until <= now + wait
    ensures wait > 0 ==> exists k :: k in keys && k in rows && rows[k].until == now + wait
  {
    if keys == [] then 0
    else Max(RemainingOf(rows, keys[0], now), Remaining(rows, keys[1..], now))
  }

  /** throttled's Retry-After, in seconds. */
  function RetryAfter(wait: int): int { wait / MICROS_PER_SECOND + 1 }

  /** The window the curve gives a row that now counts `failures` failures. */
  function WindowFor(first: int, max: int, failures: nat): int
    requires failures >= 1
  {
    CappedDoubling(first, max, failures - 1)
  }

  /** A row as this system writes it: its deadline is its last write plus the
      curve's window for its count, and the last write is not in the future. */
  predicate RowOnCurve(row: Row, now: int, first: int, max: int) {
    && row.failures >= 1
    && row.updated <= now
    && row.until == row.updated + WindowFor(first, max, row.failures)
  }

  predicate RowsOnCurve(rows: Rows, now: int, first: int, max: int) {
    forall k :: k in rows ==> RowOnCurve(rows[k], now, first, max)
  }

  /** A recorded failure keeps every row on the curve, touches no other key,
      counts exactly one more, and never brings a deadline nearer. */
  lemma RecordKeepsCurve(rows: Rows, key: string, now: int, first: int, max: int)
    requires 0 < first <= max && RowsOnCurve(rows, now, first, max)
    ensures var rows' := RecordFailure(rows, key, now, first, max);
            && RowsOnCurve(rows', now, first, max)
            && rows'.Keys == rows.Keys + {key}
            && (forall k :: k in rows && k != key ==> rows'[k] == rows[k])
            && rows'[key].failures == (if key in rows then rows[key].failures else 0) + 1
            && rows'[key].updated == now
            && (key in rows ==> rows[key].until <= rows'[key].until)
  {
    var rows' := RecordFailure(rows, key, now, first, max);
    if key in rows {
      var n := rows[key].failures;
      ClampIsCappedDoubling(first, max, n, Doublings(first, max));
      WindowGrowsWithinBounds(first, max, n - 1, n);
    }
  }

  /** Never a hard lockout: a key is free again no later than `max` after its
      last recorded failure. */
  lemma NeverLockedOut(row: Row, now: int, first: int, max: int)
    requires 0 < first <= max && RowOnCurve(row, now, first, max)
    ensures row.updated + first <= row.until <= row.updated + max
  {
    WindowGrowsWithinBounds(first, max, row.failures - 1, row.failures - 1);
    WindowGrowsWithinBounds(first, max, 0, row.failures - 1);
  }

  /** Waiting the announced Retry-After, in seconds, lands past every deadline the
      caller was refused for, by at most one second, and the same rows then let it
      through. */
  lemma RetryAfterLandsJustPast(rows: Rows, keys: seq<string>, now: int)
    requires Remaining(rows, keys, now) > 0
    ensures var retry := now + RetryAfter(Remaining(rows, keys, now)) * 1_000_000;
            && (forall k :: k in keys && k in rows ==> rows[k].until < retry)
            && (exists k :: k in keys && k in rows && now < rows[k].until && retry <= rows[k].until + 1_000_000)
            && Remaining(rows, keys, retry) == 0
  {
    var wait := Remaining(rows, keys, now);
    var k :| k in keys && k in rows && rows[k].until == now + wait;
  }
}
