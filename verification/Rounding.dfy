/** The two roundings of backend/internal/trajectory/trajectory.go. Money is a
    whole number of 0.0001 units, the storage scale. */
module Rounding {

  const SCALE := 10000

  /** A money amount as the rational it is. */
  function Rat(units: int): real { units as real / 10000.0 }

  /** The largest money amount not above `r`, in units. */
  function Floor4(r: real): int { (r * 10000.0).Floor }

  /** The money amount nearest `r`, a tie going away from zero. */
  function HalfUp4(r: real): int {
    if r >= 0.0 then (r * 10000.0 + 0.5).Floor else -((-r * 10000.0 + 0.5).Floor)
  }

  // ------------------------------------------------------------ the code

  /** big.Int's QuoRem: truncated towards zero, the remainder signed like `num`. */
  function QuoRem(num: int, den: int): (int, int)
    requires den > 0
  {
    if num >= 0 then (num / den, num % den) else (-((-num) / den), -((-num) % den))
  }

  lemma DivMod(a: int, den: int)
    requires den > 0
    ensures a == (a / den) * den + a % den && 0 <= a % den < den
  {
  }

  lemma NegateProduct(a: int, b: int)
    ensures (-a) * b == -(a * b)
  {
  }

  lemma QuoRemSplits(num: int, den: int)
    requires den > 0
    ensures var (q, m) := QuoRem(num, den);
            num == q * den + m && if num >= 0 then 0 <= m < den else -den < m <= 0
  {
    DivMod(num, den);
    DivMod(-num, den);
    NegateProduct((-num) / den, den);
  }

  /** Dividing by a positive number and multiplying back, and comparing through it. */
  lemma Undo(x: real, d: real)
    requires d > 0.0
    ensures (x / d) * d == x
  {
  }

  lemma Cancel(a: real, b: real, d: real)
    requires d > 0.0
    ensures a * d <= b * d <==> a <= b
    ensures a * d == b * d <==> a == b
  {
    if a < b { assert (b - a) * d > 0.0; }
    if a > b { assert (a - b) * d > 0.0; }
  }

  lemma Distribute(a: real, b: real, d: real)
    ensures (a + b) * d == a * d + b * d
  {
  }

  /** num * 10000 / den = q + m / den, and where that remainder lies. */
  lemma SplitQuotient(num: int, den: int, q: int, m: int)
    requires den > 0 && num * 10000 == q * den + m
    ensures (num as real / den as real) * 10000.0 == q as real + m as real / den as real
  {
    var d, x, y := den as real, num as real / den as real, m as real / den as real;
    Undo(num as real, d);
    Undo(m as real, d);
    assert (q * den) as real == q as real * d;
    assert (num * 10000) as real == (q * den) as real + m as real;
    Distribute(q as real, y, d);
    assert (x * 10000.0) * d == (x * d) * 10000.0;
    Cancel(x * 10000.0, q as real + y, d);
  }

  lemma CompareTo(m: int, den: int, c: real)
    requires den > 0
    ensures c <= m as real / den as real <==> c * den as real <= m as real
    ensures m as real / den as real <= c <==> m as real <= c * den as real
  {
    var d, y := den as real, m as real / den as real;
    Undo(m as real, d);
    Cancel(c, y, d);
    Cancel(y, c, d);
  }

  /** A fraction compares with 0, 1 and a half as its numerator compares with 0,
      its denominator, and half of it. */
  lemma CompareFraction(m: int, den: int)
    requires den > 0
    ensures m >= 0 <==> m as real / den as real >= 0.0
    ensures m <= 0 <==> m as real / den as real <= 0.0
    ensures m < den <==> m as real / den as real < 1.0
    ensures -den < m <==> -1.0 < m as real / den as real
    ensures 2 * m >= den <==> m as real / den as real >= 0.5
    ensures -2 * m >= den <==> m as real / den as real <= -0.5
  {
    CompareTo(m, den, 0.0);
    CompareTo(m, den, 1.0);
    CompareTo(m, den, -1.0);
    CompareTo(m, den, 0.5);
    CompareTo(m, den, -0.5);
  }

  /** floorAt4dp, on a numerator and a positive denominator. */
  method FloorAt4dp(num: int, den: int) returns (q: int)
    requires den > 0
    ensures q == Floor4(num as real / den as real)
  {
    var (q0, m) := QuoRem(num * SCALE, den);
    QuoRemSplits(num * SCALE, den);
    SplitQuotient(num, den, q0, m);
    CompareFraction(m, den);
    q := q0;
    if m != 0 && num < 0 { q := q - 1; }
  }

  /** halfUpAt4dp, on a numerator and a positive denominator. */
  method HalfUpAt4dp(num: int, den: int) returns (q: int)
    requires den > 0
    ensures q == HalfUp4(num as real / den as real)
  {
    var (q0, m) := QuoRem(num * SCALE, den);
    QuoRemSplits(num * SCALE, den);
    SplitQuotient(num, den, q0, m);
    CompareFraction(m, den);
    CompareFraction(num, den);
    q := q0;
    var twice := 2 * (if m < 0 then -m else m);
    if twice >= den {
      if num >= 0 { q := q + 1; } else { q := q - 1; }
    }
  }

  // ------------------------------------------------------------ what rounding means

  /** Floor4 never exceeds its argument and is less than one unit below it. */
  lemma FloorBounds(r: real)
    ensures Floor4(r) as real <= r * 10000.0 < Floor4(r) as real + 1.0
  {
  }

  lemma FloorMonotone(a: real, b: real)
    requires a <= b
    ensures Floor4(a) <= Floor4(b)
  {
  }

  lemma FloorOfMoney(units: int)
    ensures Floor4(Rat(units)) == units
  {
  }

  /** HalfUp4 is within half a unit, and a tie lands on the side away from zero. */
  lemma HalfUpNearest(r: real)
    ensures -0.5 <= HalfUp4(r) as real - r * 10000.0 <= 0.5
    ensures r >= 0.0 ==> HalfUp4(r) as real - r * 10000.0 > -0.5
    ensures r <= 0.0 ==> HalfUp4(r) as real - r * 10000.0 < 0.5
  {
  }

  lemma HalfUpMonotone(a: real, b: real)
    requires a <= b
    ensures HalfUp4(a) <= HalfUp4(b)
  {
  }

  lemma HalfUpOfMoney(units: int)
    ensures HalfUp4(Rat(units)) == units
  {
  }

  lemma HalfUpOdd(r: real)
    ensures HalfUp4(-r) == -HalfUp4(r)
  {
  }

  lemma QuotientBetween(q: real, y: real, d: real, m: real)
    requires d > 0.0 && y * d == q * d + m && 0.0 <= m < d
    ensures q <= y < q + 1.0
  {
    var z := y - q;
    Distribute(z, q, d);
    Cancel(0.0, z, d);
    Cancel(1.0, z, d);
  }

  /** A quotient of money by a whole number, floored, is the floored integer quotient. */
  lemma FloorOfShare(units: int, days: int)
    requires days > 0
    ensures Floor4(Rat(units) / days as real) == units / days
  {
    var d, q, y := days as real, units / days, (Rat(units) / days as real) * 10000.0;
    DivMod(units, days);
    Undo(Rat(units), d);
    assert y * d == ((Rat(units) / d) * d) * 10000.0;
    assert (q * days) as real == q as real * d;
    QuotientBetween(q as real, y, d, (units % days) as real);
  }

  // ------------------------------------------------------------ in whole numbers

  /** `units` is the whole number nearest n / d, a tie going away from zero. */
  predicate Nearest(units: int, n: int, d: int)
    requires d > 0
  {
    && -d <= 2 * (units * d - n) <= d
    && (n >= 0 ==> 2 * (units * d - n) > -d)
    && (n <= 0 ==> 2 * (units * d - n) < d)
  }

  lemma NearestOf(r: real, n: int, d: int)
    requires d > 0 && r * 10000.0 * d as real == n as real
    ensures Nearest(HalfUp4(r), n, d)
  {
    var h, y := HalfUp4(r), r * 10000.0;
    HalfUpNearest(r);
    Cancel(0.0, y, d as real);
    Cancel(y, 0.0, d as real);
    DistanceTimes(h, y, n, d);
    HalfOf(h * d - n, d, h as real - y);
  }

  lemma DistanceTimes(h: int, y: real, n: int, d: int)
    requires y * d as real == n as real
    ensures (h * d - n) as real == (h as real - y) * d as real
  {
    Distribute(h as real - y, y, d as real);
    assert (h * d) as real == h as real * d as real;
  }

  lemma HalfOf(t: int, d: int, z: real)
    requires d > 0 && t as real == z * d as real
    ensures -0.5 <= z ==> -d <= 2 * t
    ensures -0.5 < z ==> -d < 2 * t
    ensures z <= 0.5 ==> 2 * t <= d
    ensures z < 0.5 ==> 2 * t < d
  {
    Undo((2 * t) as real, d as real);
    Cancel(2.0 * z, (2 * t) as real / d as real, d as real);
    CompareTo(2 * t, d, 1.0);
    CompareTo(2 * t, d, -1.0);
  }

  /** n / d to the nearest whole number, a tie going away from zero. */
  function HalfUpQuotient(n: int, d: int): int
    requires d > 0
    decreases n < 0, if n < 0 then -n else n
  {
    if n < 0 then -HalfUpQuotient(-n, d) else if 2 * n < d then 0 else if n < d then 1 else 1 + HalfUpQuotient(n - d, d)
  }

  lemma {:induction false} QuotientNearest(n: int, d: int)
    requires d > 0
    ensures Nearest(HalfUpQuotient(n, d), n, d)
    decreases n < 0, if n < 0 then -n else n
  {
    if n < 0 {
      QuotientNearest(-n, d);
      NegateProduct(HalfUpQuotient(-n, d), d);
    } else if n >= d {
      QuotientNearest(n - d, d);
      NextProduct(HalfUpQuotient(n - d, d), d);
    }
  }

  lemma NextProduct(a: int, d: int)
    ensures (1 + a) * d == d + a * d
  {
  }

  lemma NearestUnique(a: int, b: int, n: int, d: int)
    requires d > 0 && Nearest(a, n, d) && Nearest(b, n, d)
    ensures a == b
  {
    ScaledOrder(a, b, d);
    ScaledOrder(b, a, d);
  }

  lemma ScaledOrder(a: int, b: int, d: int)
    requires d > 0
    ensures a < b ==> a * d + d <= b * d
  {
    var k := b - a - 1;
    assert b * d == (a + 1 + k) * d == a * d + d + k * d;
    NotNegative(k, d);
  }

  lemma NotNegative(k: int, d: int)
    requires d > 0
    ensures k >= 0 ==> k * d >= 0
  {
  }

  function Share(units: int, days: int): real
    requires days > 0
  {
    Rat(units) / days as real
  }

  function Times(b: real, k: int): real { b * k as real }

  /** `k` days' share of money over a whole number of days, rounded half-up, in
      whole numbers only. */
  lemma HalfUpOfShare(units: int, days: int, k: int)
    requires days > 0
    ensures HalfUp4(Times(Share(units, days), k)) == HalfUpQuotient(units * k, days)
  {
    Undo(Rat(units), days as real);
    ShareTimes(Share(units, days), days as real, units, k);
    RoundedIs(Times(Share(units, days), k), units * k, days);
  }

  lemma RoundedIs(r: real, n: int, d: int)
    requires d > 0 && r * 10000.0 * d as real == n as real
    ensures HalfUp4(r) == HalfUpQuotient(n, d)
  {
    NearestOf(r, n, d);
    QuotientNearest(n, d);
    NearestUnique(HalfUp4(r), HalfUpQuotient(n, d), n, d);
  }

  lemma ShareTimes(b: real, d: real, units: int, k: int)
    requires b * d == Rat(units)
    ensures Times(b, k) * 10000.0 * d == (units * k) as real
  {
    assert b * k as real * 10000.0 * d == (b * d) * 10000.0 * k as real;
    assert (units * k) as real == units as real * k as real;
  }

  /** It is zero exactly when twice the share is less than one unit. */
  lemma RoundsToZero(n: int, d: int)
    requires d > 0
    ensures HalfUpQuotient(n, d) == 0 <==> -d < 2 * n < d
  {
    QuotientNearest(n, d);
    if -d < 2 * n < d { NearestUnique(HalfUpQuotient(n, d), 0, n, d); }
  }
}
