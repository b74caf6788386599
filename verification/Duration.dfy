/** DurationParser.kt: Go's time.ParseDuration over wrapping unsigned 64-bit
    arithmetic. Every string is covered, fractions included; the floating-point
    value of a fraction is a parameter, bounded by its unit. */
module Duration {
  import opened Options
  import opened Decimal
  import opened WordSums

  function Mul64(a: nat, b: nat): nat { Wrap(a * b) }

  /** A ULong's bits read as a Long, and a Long's negation. */
  function ToLong(x: nat): int
    requires x < WORD
  {
    if x < LIMIT then x else x - WORD
  }

  function NegateLong(x: int): int { if x == -LIMIT then -LIMIT else -x }

  /** The nanoseconds of an accepted input, or a refusal. */
  datatype Parsed = Refused | Nanos(nanos: int)

  /** float64(f) * (unit / 10^k), truncated, for the fraction value `f` read from
      `k` digits: at most one whole unit. */
  type Fraction = (nat, nat, nat) -> nat

  ghost predicate Bounded(g: Fraction) { forall f, k, unit :: g(f, k, unit) <= unit }

  // ------------------------------------------------------------ the grammar

  predicate UnitChar(ch: char) { !Digit(ch) && ch != '.' }

  /** The units: h, m and s, or one of n, u, the two micro signs and m before an s. */
  function UnitNanos(u: string): (n: Option<nat>)
    ensures n.Some? ==> 1 <= n.value <= 3_600_000_000_000 && u != ""
  {
    if |u| == 1 then
      if u[0] == 's' then Some(1_000_000_000)
      else if u[0] == 'm' then Some(60_000_000_000)
      else if u[0] == 'h' then Some(3_600_000_000_000)
      else None
    else if |u| == 2 && u[1] == 's' then
      if u[0] == 'n' then Some(1)
      else if u[0] == 'u' || u[0] == '\U{00B5}' || u[0] == '\U{03BC}' then Some(1_000)
      else if u[0] == 'm' then Some(1_000_000)
      else None
    else None
  }

  lemma UnitsAreUnitChars(u: string)
    requires UnitNanos(u).Some?
    ensures forall i :: 0 <= i < |u| ==> UnitChar(u[i])
  {
  }

  predicate Number(whole: string, dot: bool, fraction: string) {
    && Digits(whole) && Digits(fraction)
    && (whole != "" || fraction != "")
    && (!dot ==> fraction == "")
  }

  function NumberText(whole: string, dot: bool, fraction: string): string {
    whole + (if dot then "." + fraction else fraction)
  }

  /** A number with its unit, such as `1.5h`, `.5s` or `1.h`. */
  datatype Component = Component(whole: string, dot: bool, fraction: string, unit: string)
  {
    predicate WellFormed() { Number(whole, dot, fraction) && UnitNanos(unit).Some? }

    function Text(): string { NumberText(whole, dot, fraction) + unit }
  }

  function Texts(cs: seq<Component>): string {
    if cs == [] then "" else cs[0].Text() + Texts(cs[1..])
  }

  ghost predicate AllWellFormed(cs: seq<Component>) { forall i :: 0 <= i < |cs| ==> cs[i].WellFormed() }

  // ------------------------------------------------------------ what it means

  /** leadingFraction's fold: the value kept, the digits it came from, and
      whether later digits are being ignored. */
  datatype Kept = Kept(f: nat, k: nat, overflow: bool)

  function KeptAfter(kept: Kept, ch: char): Kept
    requires Digit(ch)
  {
    if kept.overflow || kept.f > (LIMIT - 1) / 10 then kept.(overflow := true)
    else
      var y := kept.f * 10 + (ch - '0') as nat;
      if y > LIMIT then kept.(overflow := true) else Kept(y, kept.k + 1, false)
  }

  function KeptOf(s: string): Kept
    requires Digits(s)
  {
    if s == "" then Kept(0, 0, false) else KeptAfter(KeptOf(s[..|s| - 1]), s[|s| - 1])
  }

  /** The fraction read is the number its first `k` digits spell, and they are as many
      as fit: one more digit would spell more than 2^63. */
  lemma {:induction false} KeptIsPrefixValue(s: string)
    requires Digits(s)
    ensures var kept := KeptOf(s);
            && kept.k <= |s| && kept.f == DigitsValue(s[..kept.k]) <= LIMIT
            && (kept.overflow <==> kept.k < |s|)
            && (kept.k < |s| ==> DigitsValue(s[..kept.k + 1]) > LIMIT)
  {
    if s != "" {
      var t := s[..|s| - 1];
      KeptIsPrefixValue(t);
      var k := KeptOf(t).k;
      if k == |t| {
        assert t[..k] == t && s[..k] == t && s[..k + 1] == s;
        KeptStep(KeptOf(t), s[|s| - 1]);
      } else {
        assert t[..k] == s[..k] && t[..k + 1] == s[..k + 1];
      }
    }
  }

  lemma KeptStep(kept: Kept, ch: char)
    requires Digit(ch) && !kept.overflow && kept.f <= LIMIT
    ensures var y := 10 * kept.f + (ch - '0') as nat;
            KeptAfter(kept, ch) == if y > LIMIT then kept.(overflow := true) else Kept(y, kept.k + 1, false)
  {
  }

  /** The exact nanoseconds of one component. */
  function Value(g: Fraction, c: Component): nat
    requires c.WellFormed()
  {
    Scaled(g, DigitsValue(c.whole), KeptOf(c.fraction).f, KeptOf(c.fraction).k, UnitNanos(c.unit).value)
  }

  /** whole * unit, by repeated addition. */
  function Product(whole: nat, unit: nat): nat { if unit == 0 then 0 else whole + Product(whole, unit - 1) }

  lemma {:induction false} ProductIs(whole: nat, unit: nat)
    ensures Product(whole, unit) == whole * unit
  {
    if unit > 0 { ProductIs(whole, unit - 1); }
  }

  function Scaled(g: Fraction, whole: nat, f: nat, k: nat, unit: nat): nat {
    Product(whole, unit) + (if f > 0 then g(f, k, unit) else 0)
  }

  function Values(g: Fraction, cs: seq<Component>): (vs: seq<nat>)
    requires AllWellFormed(cs)
    ensures |vs| == |cs|
  {
    seq(|cs|, i requires 0 <= i < |cs| => Value(g, cs[i]))
  }

  // ------------------------------------------------------------ the scanner

  function UnitRun(s: string): (n: nat)
    ensures n <= |s|
  {
    if s == "" || !UnitChar(s[0]) then 0 else 1 + UnitRun(s[1..])
  }

  /** A number off the front of `s`: its digits, and the text after it. */
  datatype Scanned = Scanned(whole: string, dot: bool, fraction: string, rest: string)

  function ScanNumber(s: string): (n: Scanned)
    ensures Digits(n.whole) && Digits(n.fraction) && (!n.dot ==> n.fraction == "") && |n.rest| <= |s|
  {
    var i := DigitRun(s);
    if i < |s| && s[i] == '.' then
      var after := s[i + 1..];
      var j := DigitRun(after);
      Scanned(s[..i], true, after[..j], after[j..])
    else Scanned(s[..i], false, "", s[i..])
  }

  /** The unit off the front of `s`, if its text is one. */
  function ScanUnit(s: string): (r: Option<string>)
    ensures r.Some? ==> r.value <= s && UnitNanos(r.value).Some?
  {
    var u := s[..UnitRun(s)];
    if UnitNanos(u).None? then None else Some(u)
  }

  /** One component off the front of `s`, and what follows it. */
  function Scan(s: string): (r: Option<(Component, string)>)
    ensures r.Some? ==> r.value.0.WellFormed() && |r.value.1| < |s|
  {
    var n := ScanNumber(s);
    if n.whole == "" && n.fraction == "" then None
    else match ScanUnit(n.rest)
      case None => None
      case Some(u) => Some((Component(n.whole, n.dot, n.fraction, u), n.rest[|u|..]))
  }

  /** What is scanned is the text itself. */
  lemma ScanNumberSplits(s: string)
    ensures var n := ScanNumber(s); s == NumberText(n.whole, n.dot, n.fraction) + n.rest
  {
  }

  lemma ScanSplits(s: string)
    requires Scan(s).Some?
    ensures s == Scan(s).value.0.Text() + Scan(s).value.1
  {
    var n := ScanNumber(s);
    ScanNumberSplits(s);
    Rejoin(s, NumberText(n.whole, n.dot, n.fraction), ScanUnit(n.rest).value, n.rest);
  }

  lemma Rejoin(s: string, a: string, b: string, rest: string)
    requires s == a + rest && b <= rest
    ensures s == (a + b) + rest[|b|..]
  {
    assert rest == b + rest[|b|..];
  }

  lemma {:induction false} UnitRunIs(u: string, rest: string)
    requires (forall i :: 0 <= i < |u| ==> UnitChar(u[i])) && (rest != "" ==> !UnitChar(rest[0]))
    ensures UnitRun(u + rest) == |u|
  {
    if u == "" {
      assert u + rest == rest;
    } else {
      assert (u + rest)[1..] == u[1..] + rest;
      UnitRunIs(u[1..], rest);
    }
  }

  lemma ScanNumberFinds(whole: string, dot: bool, fraction: string, rest: string)
    requires Number(whole, dot, fraction) && rest != "" && UnitChar(rest[0])
    ensures ScanNumber(NumberText(whole, dot, fraction) + rest) == Scanned(whole, dot, fraction, rest)
  {
    var s := NumberText(whole, dot, fraction) + rest;
    if dot {
      assert s == whole + ("." + fraction + rest);
      DigitRunIs(whole, "." + fraction + rest);
      assert s[|whole| + 1..] == fraction + rest;
      DigitRunIs(fraction, rest);
    } else {
      assert s == whole + rest;
      DigitRunIs(whole, rest);
    }
  }

  lemma ScanFinds(c: Component, rest: string)
    requires c.WellFormed() && (rest != "" ==> !UnitChar(rest[0]))
    ensures Scan(c.Text() + rest) == Some((c, rest))
  {
    UnitsAreUnitChars(c.unit);
    assert c.Text() + rest == NumberText(c.whole, c.dot, c.fraction) + (c.unit + rest);
    ScanNumberFinds(c.whole, c.dot, c.fraction, c.unit + rest);
    UnitRunIs(c.unit, rest);
  }

  // ------------------------------------------------------------ the loop's meaning

  /** The value of the component at the front of `s`, unless it passes 2^63, and
      the text after it. */
  function Front(g: Fraction, s: string): (r: Option<(nat, string)>)
    ensures r.Some? ==> |r.value.1| < |s| && r.value.0 <= LIMIT
  {
    match Scan(s)
    case None => None
    case Some((c, rest)) => if Value(g, c) > LIMIT then None else Some((Value(g, c), rest))
  }

  /** The rest of parse's loop from remaining text `s` and running total `d`. */
  function Loop(g: Fraction, s: string, d: nat): Option<nat>
    decreases |s|
  {
    if s == "" then Some(d)
    else match Front(g, s)
      case None => None
      case Some((v, rest)) => if Add64(d, v) > LIMIT then None else Loop(g, rest, Add64(d, v))
  }

  predicate Signed(s: string) { s != "" && (s[0] == '-' || s[0] == '+') }

  function Unsigned(s: string): string { if Signed(s) then s[1..] else s }

  predicate Negative(s: string) { s != "" && s[0] == '-' }

  /** parse as a function of its input. */
  function Parse(g: Fraction, input: string): Parsed {
    var s := Unsigned(input);
    if s == "0" then Nanos(0)
    else if s == "" then Refused
    else Signing(Negative(input), Loop(g, s, 0))
  }

  /** The signed result: 2^63 only fits when negative. */
  function Signing(neg: bool, total: Option<nat>): Parsed {
    match total
    case None => Refused
    case Some(d) => if neg then Nanos(0 - d) else if d > LIMIT - 1 then Refused else Nanos(d)
  }

  // ------------------------------------------------------------ the code

  /** leadingInt: null exactly when the digits spell more than 2^63. */
  method LeadingInt(s: string) returns (r: Option<(nat, string)>)
    ensures r.Some? <==> DigitsValue(s[..DigitRun(s)]) <= LIMIT
    ensures r.Some? ==> r.value == (DigitsValue(s[..DigitRun(s)]), s[DigitRun(s)..])
  {
    var x, i := 0, 0;
    while i < |s| && Digit(s[i])
      invariant 0 <= i <= |s| && Digits(s[..i])
      invariant x == DigitsValue(s[..i]) <= LIMIT
    {
      RunReaches(s, i);
      assert s[..i + 1][..i] == s[..i];
      if x > LIMIT / 10 {
        PrefixValue(s, i + 1);
        return None;
      }
      x := Add64(Mul64(x, 10), (s[i] - '0') as nat);
      if x > LIMIT {
        PrefixValue(s, i + 1);
        return None;
      }
      i := i + 1;
    }
    RunEnds(s, i);
    return Some((x, s[i..]));
  }

  lemma {:induction false} RunReaches(s: string, i: nat)
    requires i < |s| && Digits(s[..i]) && Digit(s[i])
    ensures i < DigitRun(s)
  {
    if i > 0 {
      assert s[0] == s[..i][0];
      assert Digits(s[1..][..i - 1]) by { assert s[1..][..i - 1] == s[..i][1..]; }
      RunReaches(s[1..], i - 1);
    }
  }

  lemma RunEnds(s: string, i: nat)
    requires i <= |s| && Digits(s[..i]) && (i < |s| ==> !Digit(s[i]))
    ensures DigitRun(s) == i
  {
    assert s == s[..i] + s[i..];
    DigitRunIs(s[..i], s[i..]);
  }

  /** More digits never make the number smaller. */
  lemma {:induction false} PrefixValue(s: string, i: nat)
    requires i <= DigitRun(s)
    ensures Digits(s[..i]) && DigitsValue(s[..i]) <= DigitsValue(s[..DigitRun(s)])
    decreases DigitRun(s) - i
  {
    assert Digits(s[..i]) by {
      forall k | 0 <= k < i ensures Digit(s[..i][k]) { assert s[..i][k] == s[..DigitRun(s)][k]; }
    }
    if i < DigitRun(s) {
      PrefixValue(s, i + 1);
      assert s[..i + 1][..i] == s[..i];
    }
  }

  /** leadingFraction: the value its digits keep, and the text after all of them. */
  method LeadingFraction(s: string) returns (f: nat, k: nat, rest: string)
    ensures var n := DigitRun(s);
            rest == s[n..] && f == KeptOf(s[..n]).f && k == KeptOf(s[..n]).k
    ensures var n := DigitRun(s);
            && k <= n && f == DigitsValue(s[..n][..k]) <= LIMIT
            && (k < n ==> DigitsValue(s[..n][..k + 1]) > LIMIT)
  {
    var i, overflow := 0, false;
    f, k := 0, 0;
    while i < |s| && Digit(s[i])
      invariant 0 <= i <= |s| && Digits(s[..i])
      invariant Kept(f, k, overflow) == KeptOf(s[..i])
      invariant f <= LIMIT
    {
      assert s[..i + 1][..i] == s[..i];
      if !overflow {
        if f > (LIMIT - 1) / 10 {
          overflow := true;
        } else {
          var y := Add64(Mul64(f, 10), (s[i] - '0') as nat);
          if y > LIMIT {
            overflow := true;
          } else {
            f, k := y, k + 1;
          }
        }
      }
      i := i + 1;
    }
    RunEnds(s, i);
    KeptIsPrefixValue(s[..i]);
    rest := s[i..];
  }

  lemma MultiplyGuard(v: nat, unit: nat)
    requires unit >= 1
    ensures v > LIMIT / unit <==> v * unit > LIMIT
  {
    var q := LIMIT / unit;
    assert q * unit <= LIMIT < (q + 1) * unit;
    if v <= q { assert v * unit <= q * unit; } else { assert v * unit >= (q + 1) * unit; }
  }

  /** The number at the front of a component: its whole part, its fraction, and
      the text after it; a refusal if the whole part overflows or both are missing. */
  method ParseNumber(input: string) returns (r: Option<(nat, nat, nat, string)>)
    ensures var n := ScanNumber(input);
            r.Some? <==> (n.whole != "" || n.fraction != "") && DigitsValue(n.whole) <= LIMIT
    ensures r.Some? ==>
              var n := ScanNumber(input);
              r.value == (DigitsValue(n.whole), KeptOf(n.fraction).f, KeptOf(n.fraction).k, n.rest)
  {
    var lead := LeadingInt(input);
    if lead.None? { return None; }
    var v, s := lead.value.0, lead.value.1;
    var pre := |input| != |s|;
    var f: nat, k: nat, post := 0, 0, false;
    if s != "" && s[0] == '.' {
      assert s[1..] == input[DigitRun(input) + 1..];
      s := s[1..];
      var before := |s|;
      f, k, s := LeadingFraction(s);
      post := before != |s|;
    }
    if !pre && !post { return None; }
    return Some((v, f, k, s));
  }

  /** The unit at the front of `s`: every character up to the next number. */
  method ParseUnit(s: string) returns (r: Option<(nat, string)>)
    ensures r.Some? <==> ScanUnit(s).Some?
    ensures r.Some? ==> var u := ScanUnit(s).value; r.value == (UnitNanos(u).value, s[|u|..])
  {
    var i := 0;
    while i < |s| && UnitChar(s[i])
      invariant 0 <= i <= |s|
      invariant forall n :: 0 <= n < i ==> UnitChar(s[n])
    {
      i := i + 1;
    }
    assert s == s[..i] + s[i..];
    UnitRunIs(s[..i], s[i..]);
    if i == 0 { return None; }
    var unit := UnitNanos(s[..i]);
    if unit.None? { return None; }
    return Some((unit.value, s[i..]));
  }

  function Within(value: nat): Option<nat> { if value <= LIMIT then Some(value) else None }

  /** Number times unit plus fraction, or a refusal once it passes 2^63. */
  method Scale(g: Fraction, whole: nat, f: nat, k: nat, unit: nat) returns (r: Option<nat>)
    requires Bounded(g) && 1 <= unit <= 3_600_000_000_000
    ensures r == Within(Scaled(g, whole, f, k, unit))
  {
    MultiplyGuard(whole, unit);
    ProductIs(whole, unit);
    if whole > LIMIT / unit { return None; }
    var v := Mul64(whole, unit);
    if f > 0 {
      v := Add64(v, g(f, k, unit));
      if v > LIMIT { return None; }
    }
    return Some(v);
  }

  lemma NoNumberNoFront(g: Fraction, s: string)
    requires s != "" && s[0] != '.' && !Digit(s[0])
    ensures Front(g, s).None?
  {
    assert DigitRun(s) == 0;
  }

  lemma OverflowNoFront(g: Fraction, s: string)
    requires var n := ScanNumber(s); (n.whole == "" && n.fraction == "") || DigitsValue(n.whole) > LIMIT
    ensures Front(g, s).None?
  {
    if Scan(s).Some? { WholeWithinValue(g, Scan(s).value.0); }
  }

  lemma NoUnitNoFront(g: Fraction, s: string)
    requires ScanUnit(ScanNumber(s).rest).None?
    ensures Front(g, s).None?
  {
  }

  lemma FrontIs(g: Fraction, s: string, n: Scanned, u: string)
    requires n == ScanNumber(s) && (n.whole != "" || n.fraction != "") && ScanUnit(n.rest) == Some(u)
    ensures var kept := KeptOf(n.fraction);
            var v := Within(Scaled(g, DigitsValue(n.whole), kept.f, kept.k, UnitNanos(u).value));
            Front(g, s) == if v.Some? then Some((v.value, n.rest[|u|..])) else None
  {
  }

  /** One pass of parse's loop. */
  method ParseComponent(g: Fraction, s: string) returns (r: Option<(nat, string)>)
    requires s != "" && Bounded(g)
    ensures r == Front(g, s)
  {
    if !(s[0] == '.' || Digit(s[0])) {
      NoNumberNoFront(g, s);
      return None;
    }
    var number := ParseNumber(s);
    if number.None? {
      OverflowNoFront(g, s);
      return None;
    }
    r := ParseRest(g, s, number.value.0, number.value.1, number.value.2, number.value.3);
  }

  /** The unit after a number, and the component's value. */
  method ParseRest(g: Fraction, ghost s: string, whole: nat, f: nat, k: nat, rest: string)
    returns (r: Option<(nat, string)>)
    requires Bounded(g)
    requires var n := ScanNumber(s);
             && (n.whole != "" || n.fraction != "")
             && whole == DigitsValue(n.whole) && rest == n.rest
             && f == KeptOf(n.fraction).f && k == KeptOf(n.fraction).k
    ensures r == Front(g, s)
  {
    var unit := ParseUnit(rest);
    if unit.None? {
      NoUnitNoFront(g, s);
      return None;
    }
    FrontIs(g, s, ScanNumber(s), ScanUnit(rest).value);
    var v := Scale(g, whole, f, k, unit.value.0);
    if v.None? { return None; }
    return Some((v.value, unit.value.1));
  }

  lemma WholeWithinValue(g: Fraction, c: Component)
    requires c.WellFormed()
    ensures DigitsValue(c.whole) <= Value(g, c)
  {
    assert Product(DigitsValue(c.whole), UnitNanos(c.unit).value) >= DigitsValue(c.whole);
  }

  /** parse. */
  method ParseDuration(g: Fraction, input: string) returns (r: Parsed)
    requires Bounded(g)
    ensures r == Parse(g, input)
  {
    var s, neg := input, false;
    if s != "" && (s[0] == '-' || s[0] == '+') {
      neg := s[0] == '-';
      s := s[1..];
    }
    if s == "0" { return Nanos(0); }
    if s == "" { return Refused; }
    var d: nat := 0;
    ghost var whole := s;
    while s != ""
      invariant d <= LIMIT
      invariant Loop(g, whole, 0) == Loop(g, s, d)
      decreases |s|
    {
      var component := ParseComponent(g, s);
      if component.None? { return Refused; }
      s := component.value.1;
      d := Add64(d, component.value.0);
      if d > LIMIT { return Refused; }
    }
    if neg { return Nanos(NegateLong(ToLong(d))); }
    if d > LIMIT - 1 { return Refused; }
    return Nanos(ToLong(d));
  }
}
