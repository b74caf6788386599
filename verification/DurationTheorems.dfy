/** What the duration parser accepts and returns, for every input. */
module DurationTheorems {
  import opened Options
  import opened Decimal
  import opened Duration
  import opened WordSums

  // ------------------------------------------------------------ the grammar, exactly

  lemma {:induction false} TextsStart(cs: seq<Component>)
    requires AllWellFormed(cs) && cs != []
    ensures var s := Texts(cs); s != "" && !UnitChar(s[0]) && s[0] != '-' && s[0] != '+'
  {
    var c := cs[0];
    assert c.Text()[0] == if c.whole != "" then c.whole[0] else '.';
  }

  lemma FrontOfTexts(cs: seq<Component>)
    requires AllWellFormed(cs) && cs != []
    ensures Scan(Texts(cs)) == Some((cs[0], Texts(cs[1..])))
  {
    if cs[1..] != [] { TextsStart(cs[1..]); }
    ScanFinds(cs[0], Texts(cs[1..]));
  }

  /** A text spells at most one sequence of components. */
  lemma {:induction false} ComponentsUnique(a: seq<Component>, b: seq<Component>)
    requires AllWellFormed(a) && AllWellFormed(b) && Texts(a) == Texts(b)
    ensures a == b
  {
    if a != [] { TextsStart(a); }
    if b != [] { TextsStart(b); }
    if a != [] && b != [] {
      FirstsAgree(a, b);
      ComponentsUnique(a[1..], b[1..]);
      assert a == [a[0]] + a[1..] && b == [b[0]] + b[1..];
    }
  }

  lemma FirstsAgree(a: seq<Component>, b: seq<Component>)
    requires AllWellFormed(a) && AllWellFormed(b) && a != [] && b != [] && Texts(a) == Texts(b)
    ensures a[0] == b[0] && Texts(a[1..]) == Texts(b[1..])
  {
    FrontOfTexts(a);
    FrontOfTexts(b);
  }

  lemma ValuesOf(g: Fraction, cs: seq<Component>)
    requires AllWellFormed(cs) && cs != []
    ensures Values(g, cs)[0] == Value(g, cs[0]) && Values(g, cs)[1..] == Values(g, cs[1..])
  {
  }

  lemma LoopTakesFront(g: Fraction, cs: seq<Component>, d: nat)
    requires AllWellFormed(cs) && cs != []
    ensures var v := Value(g, cs[0]);
            Loop(g, Texts(cs), d) == if v > LIMIT || Add64(d, v) > LIMIT then None
                                     else Loop(g, Texts(cs[1..]), Add64(d, v))
  {
    TextsStart(cs);
    FrontOfTexts(cs);
  }

  lemma {:induction false} LoopIsTotals(g: Fraction, cs: seq<Component>, d: nat)
    requires AllWellFormed(cs)
    ensures Loop(g, Texts(cs), d) == Totals(d, Values(g, cs))
    decreases |cs|
  {
    if cs != [] {
      LoopTakesFront(g, cs, d);
      LoopIsTotals(g, cs[1..], Add64(d, Value(g, cs[0])));
      ValuesOf(g, cs);
    }
  }

  lemma {:induction false} LoopReadsComponents(g: Fraction, s: string, d: nat) returns (cs: seq<Component>)
    requires Loop(g, s, d).Some?
    ensures AllWellFormed(cs) && Texts(cs) == s
    decreases |s|
  {
    if s == "" {
      cs := [];
    } else {
      var (c, rest) := Scan(s).value;
      ScanSplits(s);
      var tail := LoopReadsComponents(g, rest, Add64(d, Value(g, c)));
      cs := [c] + tail;
      assert cs[1..] == tail;
    }
  }

  /** Whatever is accepted is a bare 0 or a nonempty sequence of well-formed
      components, after at most one sign. */
  lemma AcceptsOnlyGrammar(g: Fraction, input: string)
    requires Parse(g, input).Nanos?
    ensures Unsigned(input) == "0" ||
            exists cs :: Spells(input, cs)
  {
    if Unsigned(input) != "0" {
      var cs := LoopReadsComponents(g, Unsigned(input), 0);
      assert Spells(input, cs);
    }
  }

  // ------------------------------------------------------------ what is returned

  /** What an accepted magnitude may be: 2^63 only when negative. */
  function Most(neg: bool): nat { if neg then LIMIT else LIMIT - 1 }

  function SignedNanos(neg: bool, d: nat): Parsed { if neg then Nanos(0 - d) else Nanos(d) }

  /** The promise: the exact signed sum if it fits, a refusal if it does not. */
  function Promised(neg: bool, sum: nat): Parsed { if sum <= Most(neg) then SignedNanos(neg, sum) else Refused }

  /** What the code answers for component values `vs`. */
  function Answer(neg: bool, vs: seq<nat>): Parsed {
    match Totals(0, vs)
    case None => Refused
    case Some(d) => if d <= Most(neg) then SignedNanos(neg, d) else Refused
  }

  /** A text of components after at most one sign. */
  ghost predicate Spells(input: string, cs: seq<Component>) {
    cs != [] && AllWellFormed(cs) && Texts(cs) == Unsigned(input)
  }

  lemma BareZeroIsNoComponent()
    ensures Scan("0").None?
  {
    assert DigitRun("0"[1..]) == 0;
    assert ScanNumber("0").rest == "";
  }

  lemma ParseIsAnswer(g: Fraction, input: string, cs: seq<Component>)
    requires Spells(input, cs)
    ensures Parse(g, input) == Answer(Negative(input), Values(g, cs))
  {
    TextsStart(cs);
    FrontOfTexts(cs);
    BareZeroIsNoComponent();
    LoopIsTotals(g, cs, 0);
    TotalsWithinLimit(0, Values(g, cs));
  }

  /** Reduced to 64 bits, no running sum passes 2^63 and the whole sum fits. */
  ghost predicate Fits(neg: bool, vs: seq<nat>) { StaysLow(0, vs) && Wrap(Sum(vs)) <= Most(neg) }

  lemma AnswerExactly(neg: bool, vs: seq<nat>)
    ensures Answer(neg, vs) == if Fits(neg, vs) then SignedNanos(neg, Wrap(Sum(vs))) else Refused
  {
    TotalsExactly(0, vs);
  }

  /** parse on every grammatical input, wraparound included: the exact sum reduced
      to 64 bits, accepted if no reduced running sum passes 2^63. */
  lemma ParseOfComponents(g: Fraction, input: string, cs: seq<Component>)
    requires Spells(input, cs)
    ensures var vs, neg := Values(g, cs), Negative(input);
            Parse(g, input) == if Fits(neg, vs) then SignedNanos(neg, Wrap(Sum(vs))) else Refused
  {
    ParseIsAnswer(g, input, cs);
    AnswerExactly(Negative(input), Values(g, cs));
  }

  /** Any grammatical input whose exact sum is below 2^64 gets exactly what is
      promised: accepted if and only if the sum fits, with that sum. */
  lemma ExactBelowWord(g: Fraction, input: string, cs: seq<Component>)
    requires Spells(input, cs) && Sum(Values(g, cs)) < WORD
    ensures Parse(g, input) == Promised(Negative(input), Sum(Values(g, cs)))
  {
    ParseIsAnswer(g, input, cs);
    TotalsBelowWord(0, Values(g, cs));
  }

  /** Exactly when component values get what is promised: unless the total reaches
      2^63, the next value is 2^63, and what follows fits. */
  lemma AnswerIsPromisedExactly(neg: bool, vs: seq<nat>)
    ensures Answer(neg, vs) == Promised(neg, Sum(vs)) <==>
            !exists i :: 0 <= i < |vs| && WrapsAt(0, vs, i) && Fits(neg, vs[i + 1..])
  {
    forall i | 0 <= i < |vs| && WrapsAt(0, vs, i) ensures Fits(neg, vs[i + 1..]) <==> Answer(neg, vs[i + 1..]).Nanos? {
      AnswerExactly(neg, vs[i + 1..]);
    }
    WronglyAcceptedExactly(vs, Most(neg));
    TotalsExactly(0, vs);
    if Sum(vs) < WORD { TotalsBelowWord(0, vs); }
  }

  /** The same of a grammatical input. */
  lemma PromiseKeptExactly(g: Fraction, input: string, cs: seq<Component>)
    requires Spells(input, cs)
    ensures var vs, neg := Values(g, cs), Negative(input);
            Parse(g, input) == Promised(neg, Sum(vs)) <==>
            !exists i :: 0 <= i < |vs| && WrapsAt(0, vs, i) && Fits(neg, vs[i + 1..])
  {
    ParseIsAnswer(g, input, cs);
    AnswerIsPromisedExactly(Negative(input), Values(g, cs));
  }

  /** The corner exists: 2^63 ns twice is accepted, as zero. */
  lemma TwiceTheLimitParsesAsZero(g: Fraction)
    ensures Parse(g, Texts([WholeNanos(LIMIT), WholeNanos(LIMIT)])) == Nanos(0)
  {
    WholeNanosValue(g, LIMIT);
    TwiceParsesAsZero(g, WholeNanos(LIMIT));
  }

  lemma TwiceParsesAsZero(g: Fraction, c: Component)
    requires c.WellFormed() && Value(g, c) == LIMIT
    ensures Parse(g, Texts([c, c])) == Nanos(0)
  {
    TextsStart([c, c]);
    ParseIsAnswer(g, Texts([c, c]), [c, c]);
    assert Values(g, [c, c]) == [LIMIT, LIMIT];
    LimitTwice();
  }

  function WholeNanos(n: nat): (c: Component)
    ensures c.WellFormed()
  {
    Component(Spell(n), false, "", "ns")
  }

  lemma WholeNanosValue(g: Fraction, n: nat)
    ensures Value(g, WholeNanos(n)) == n
  {
    SpellRoundTrip(n);
    ProductIs(n, 1);
  }

  lemma LimitTwice()
    ensures Answer(false, [LIMIT, LIMIT]) == Nanos(0)
  {
    var vs: seq<nat> := [LIMIT, LIMIT];
    assert vs[1..] == [LIMIT] && vs[1..][1..] == [];
    assert Totals(0, vs) == Totals(LIMIT, [LIMIT]) == Totals(0, []);
  }

  // ------------------------------------------------------------ concatenation

  lemma {:induction false} TextsAppend(a: seq<Component>, b: seq<Component>)
    ensures Texts(a + b) == Texts(a) + Texts(b)
  {
    if a == [] {
      assert a + b == b;
    } else {
      var rest := a[1..];
      TextsAppend(rest, b);
      assert a == [a[0]] + rest && a + b == [a[0]] + (rest + b);
      TextsCons(a[0], rest);
      TextsCons(a[0], rest + b);
      Associate(a[0].Text(), Texts(rest), Texts(b));
    }
  }

  lemma {:induction false} TextsCons(c: Component, cs: seq<Component>)
    ensures Texts([c] + cs) == c.Text() + Texts(cs)
  {
    assert ([c] + cs)[1..] == cs;
  }

  lemma Associate(x: string, y: string, z: string)
    ensures (x + y) + z == x + (y + z)
  {
  }

  lemma ValuesAppend(g: Fraction, a: seq<Component>, b: seq<Component>)
    requires AllWellFormed(a) && AllWellFormed(b)
    ensures AllWellFormed(a + b) && Values(g, a + b) == Values(g, a) + Values(g, b)
  {
  }

  /** Whatever is accepted, without a sign and not the bare 0, is a text of components
      whose total is the answer. */
  lemma ReadAccepted(g: Fraction, s: string, n: int) returns (cs: seq<Component>)
    requires Parse(g, s) == Nanos(n) && !Signed(s) && s != "0"
    ensures Spells(s, cs) && 0 <= n <= LIMIT - 1 && Totals(0, Values(g, cs)) == Some(n)
  {
    AcceptsOnlyGrammar(g, s);
    cs :| Spells(s, cs);
    TotalOfAnswer(g, s, n, cs);
  }

  lemma TotalOfAnswer(g: Fraction, s: string, n: int, cs: seq<Component>)
    requires Parse(g, s) == Nanos(n) && !Negative(s) && Spells(s, cs)
    ensures 0 <= n <= LIMIT - 1 && Totals(0, Values(g, cs)) == Some(n)
  {
    ParseIsAnswer(g, s, cs);
    AcceptedTotal(Values(g, cs), n);
  }

  lemma AcceptedTotal(vs: seq<nat>, n: int)
    requires Answer(false, vs) == Nanos(n)
    ensures 0 <= n <= LIMIT - 1 && Totals(0, vs) == Some(n)
  {
  }

  /** Concatenating two accepted texts without signs, neither the bare 0: the results
      add up exactly when their sum fits and either the first is zero or the second's
      running total never wraps; otherwise the whole is refused. */
  lemma ParseConcatenation(g: Fraction, s1: string, s2: string, x: int, y: int, cs: seq<Component>)
    requires Parse(g, s1) == Nanos(x) && !Signed(s1) && s1 != "0"
    requires Parse(g, s2) == Nanos(y) && !Signed(s2) && s2 != "0" && Spells(s2, cs)
    ensures var vs := Values(g, cs);
            Parse(g, s1 + s2) ==
              if x + y <= LIMIT - 1 && (x == 0 || !exists i :: 0 <= i < |vs| && WrapsAt(0, vs, i))
              then Nanos(x + y) else Refused
  {
    var a := ReadAccepted(g, s1, x);
    var b := ReadAccepted(g, s2, y);
    ComponentsUnique(b, cs);
    TextsAppend(a, b);
    ValuesAppend(g, a, b);
    TextsStart(a);
    TextsStart(a + b);
    ParseIsAnswer(g, s1 + s2, a + b);
    TotalsAppend(0, Values(g, a), Values(g, b));
    ShiftedTotal(x, Values(g, b), y);
  }

  /** The corner exists: 1 ns and 2^63 ns twice are both accepted, as 1 and 0, and
      their concatenation is refused. */
  lemma ConcatenationCanBeRefused(g: Fraction)
    ensures var one, twice := Texts([WholeNanos(1)]), Texts([WholeNanos(LIMIT), WholeNanos(LIMIT)]);
            Parse(g, one) == Nanos(1) && Parse(g, twice) == Nanos(0) && Parse(g, one + twice) == Refused
  {
    WholeNanosValue(g, 1);
    WholeNanosValue(g, LIMIT);
    RefusedAfterOne(g, WholeNanos(1), WholeNanos(LIMIT));
  }

  lemma RefusedAfterOne(g: Fraction, a: Component, b: Component)
    requires a.WellFormed() && b.WellFormed() && Value(g, a) == 1 && Value(g, b) == LIMIT
    ensures Parse(g, Texts([a])) == Nanos(1) && Parse(g, Texts([b, b])) == Nanos(0)
    ensures Parse(g, Texts([a]) + Texts([b, b])) == Refused
  {
    TextsStart([a]);
    TextsStart([b, b]);
    BareZeroIsNoText([a]);
    BareZeroIsNoText([b, b]);
    assert Values(g, [a]) == [1] && Values(g, [b, b]) == [LIMIT, LIMIT];
    TwiceParsesAsZero(g, b);
    RefusedAfter(g, Texts([a]), Texts([b, b]), [a], [b, b]);
  }

  lemma RefusedAfter(g: Fraction, s1: string, s2: string, a: seq<Component>, b: seq<Component>)
    requires Spells(s1, a) && !Signed(s1) && s1 != "0" && Values(g, a) == [1]
    requires Spells(s2, b) && !Signed(s2) && s2 != "0" && Values(g, b) == [LIMIT, LIMIT] && Parse(g, s2) == Nanos(0)
    ensures Parse(g, s1) == Nanos(1) && Parse(g, s1 + s2) == Refused
  {
    ExactBelowWord(g, s1, a);
    ParseConcatenation(g, s1, s2, 1, 0, b);
    LimitThenWraps();
  }

  lemma LimitThenWraps()
    ensures WrapsAt(0, [LIMIT, LIMIT], 1)
  {
    assert [LIMIT, LIMIT][..1] == [LIMIT] && [LIMIT][1..] == [];
  }

  lemma BareZeroIsNoText(cs: seq<Component>)
    requires cs != [] && AllWellFormed(cs)
    ensures Texts(cs) != "0"
  {
    FrontOfTexts(cs);
    BareZeroIsNoComponent();
  }

  /** Nothing accepted ends in a digit, so the bare 0 after a text is refused. */
  lemma BareZeroAfter(g: Fraction, s: string)
    requires s != "" && !Signed(s)
    ensures Parse(g, s + "0") == Refused
  {
    var t := s + "0";
    assert t[|s|] == '0' && t[0] == s[0] && |t| > 1;
    if Parse(g, t).Nanos? {
      AcceptsOnlyGrammar(g, t);
      var cs :| Spells(t, cs);
      TextsEnd(cs);
      assert false;
    }
  }

  lemma {:induction false} TextsEnd(cs: seq<Component>)
    requires cs != [] && AllWellFormed(cs)
    ensures var s := Texts(cs); s != "" && UnitChar(s[|s| - 1])
  {
    var c, rest := cs[0], Texts(cs[1..]);
    UnitsAreUnitChars(c.unit);
    if cs[1..] == [] {
      assert c.Text() + rest == c.Text();
      LastOf(NumberText(c.whole, c.dot, c.fraction), c.unit);
    } else {
      TextsEnd(cs[1..]);
      LastOf(c.Text(), rest);
    }
  }

  lemma LastOf(a: string, b: string)
    requires b != ""
    ensures (a + b)[|a + b| - 1] == b[|b| - 1]
  {
  }

  /** Before a text it is one more leading zero, which changes nothing. */
  lemma BareZeroBefore(g: Fraction, cs: seq<Component>)
    requires cs != [] && AllWellFormed(cs)
    ensures Parse(g, "0" + Texts(cs)) == Parse(g, Texts(cs))
  {
    var c := cs[0];
    var z := c.(whole := "0" + c.whole);
    var zs := [z] + cs[1..];
    ZeroAhead(c.whole);
    assert zs[1..] == cs[1..];
    PrefixText("0", c.whole, if c.dot then "." + c.fraction else c.fraction, c.unit, Texts(cs[1..]));
    assert Texts(zs) == "0" + Texts(cs);
    assert Values(g, zs) == Values(g, cs) by {
      ValuesOf(g, cs);
      ValuesOf(g, zs);
      SameHead(Values(g, zs), Values(g, cs));
    }
    TextsStart(cs);
    TextsStart(zs);
    ParseIsAnswer(g, Texts(cs), cs);
    ParseIsAnswer(g, Texts(zs), zs);
  }

  lemma SameHead(a: seq<nat>, b: seq<nat>)
    requires a != [] && b != [] && a[0] == b[0] && a[1..] == b[1..]
    ensures a == b
  {
    assert a == [a[0]] + a[1..] && b == [b[0]] + b[1..];
  }

  lemma PrefixText(z: string, whole: string, fraction: string, unit: string, rest: string)
    ensures (((z + whole) + fraction) + unit) + rest == z + (((whole + fraction) + unit) + rest)
  {
  }

  // ------------------------------------------------------------ what is written, what is read

  /** The units, and the nanoseconds of each. */
  predicate IsUnit(u: string, k: nat) {
    || (u == "h" && k == 3_600_000_000_000) || (u == "m" && k == 60_000_000_000) || (u == "s" && k == 1_000_000_000)
    || (u == "ms" && k == 1_000_000) || (u == "us" && k == 1_000) || (u == "\U{00B5}s" && k == 1_000)
    || (u == "\U{03BC}s" && k == 1_000) || (u == "ns" && k == 1)
  }

  /** A component on its own: its value, if that is at most 2^63 - 1. */
  lemma {:induction false} OneComponent(g: Fraction, c: Component)
    requires c.WellFormed()
    ensures Parse(g, c.Text()) ==
            if Value(g, c) <= 0x7fff_ffff_ffff_ffff then Nanos(Value(g, c)) else Refused
  {
    assert [c][1..] == [];
    assert c.Text() + "" == c.Text();
    TextsStart([c]);
    assert Spells(c.Text(), [c]);
    ParseIsAnswer(g, c.Text(), [c]);
    OneValue(Values(g, [c]));
  }

  lemma OneValue(vs: seq<nat>)
    requires |vs| == 1
    ensures Answer(false, vs) == if vs[0] <= 0x7fff_ffff_ffff_ffff then Nanos(vs[0]) else Refused
  {
    if vs[0] <= LIMIT {
      assert Add64(0, vs[0]) == vs[0] && vs[1..] == [];
      assert Totals(vs[0], vs[1..]) == Some(vs[0]);
    }
  }

  lemma UnitTable(u: string, k: nat)
    requires IsUnit(u, k)
    ensures UnitNanos(u) == Some(k)
  {
  }

  /** A whole number and a unit are read as that many of the unit, if they fit. */
  lemma {:induction false} ParsesUnit(g: Fraction, n: nat, u: string, k: nat)
    requires IsUnit(u, k)
    ensures Parse(g, Spell(n) + u) == if n * k <= 0x7fff_ffff_ffff_ffff then Nanos(n * k) else Refused
  {
    UnitTable(u, k);
    var c := Component(Spell(n), false, "", u);
    WholeText(Spell(n), u);
    SpellRoundTrip(n);
    ProductIs(n, k);
    OneComponent(g, c);
  }

  lemma WholeText(whole: string, unit: string)
    ensures NumberText(whole, false, "") + unit == whole + unit
  {
  }

  lemma FractionText(whole: string, d: string, unit: string)
    ensures NumberText(whole, true, d) + unit == whole + "." + d + unit
  {
  }

  /** Digits that fit are all kept. */
  lemma KeptWhole(d: string)
    requires Digits(d) && DigitsValue(d) <= LIMIT
    ensures KeptOf(d).f == DigitsValue(d) && KeptOf(d).k == |d|
  {
    KeptIsPrefixValue(d);
    var k := KeptOf(d).k;
    if k < |d| { PrefixFits(d, k + 1); }
    assert d[..|d|] == d;
  }

  lemma {:induction false} PrefixFits(d: string, i: nat)
    requires Digits(d) && i <= |d|
    ensures Digits(d[..i]) && DigitsValue(d[..i]) <= DigitsValue(d)
  {
    if i == |d| {
      assert d[..i] == d;
    } else {
      var init := d[..|d| - 1];
      PrefixFits(init, i);
      assert init[..i] == d[..i];
    }
  }

  /** And a fraction adds what the fraction rule makes of its digits, their number and
      the unit. */
  lemma {:induction false} ParsesFraction(g: Fraction, n: nat, d: string, u: string, k: nat)
    requires IsUnit(u, k) && Digits(d) && d != "" && DigitsValue(d) <= 0x8000_0000_0000_0000
    ensures var v := n * k + (if DigitsValue(d) == 0 then 0 else g(DigitsValue(d), |d|, k));
            Parse(g, Spell(n) + "." + d + u) == if v <= 0x7fff_ffff_ffff_ffff then Nanos(v) else Refused
  {
    FractionText(Spell(n), d, u);
    FractionValue(g, n, d, u, k);
    OneComponent(g, Component(Spell(n), true, d, u));
  }

  lemma {:induction false} FractionValue(g: Fraction, n: nat, d: string, u: string, k: nat)
    requires IsUnit(u, k) && Digits(d) && d != "" && DigitsValue(d) <= 0x8000_0000_0000_0000
    ensures var c := Component(Spell(n), true, d, u);
            c.WellFormed() && Value(g, c) == n * k + (if DigitsValue(d) == 0 then 0 else g(DigitsValue(d), |d|, k))
  {
    UnitTable(u, k);
    SpellRoundTrip(n);
    ProductIs(n, k);
    KeptWhole(d);
  }

  /** A plus sign changes nothing; a minus sign negates, and lets exactly 2^63 through
      besides; and there is at most one sign. */
  lemma {:induction false} ParsesSign(g: Fraction, s: string)
    ensures !Signed(s) ==> Parse(g, "+" + s) == Parse(g, s)
    ensures !Signed(s) && Parse(g, s).Nanos? ==> Parse(g, "-" + s) == Nanos(0 - Parse(g, s).nanos)
    ensures !Signed(s) && Parse(g, s).Refused? ==> Parse(g, "-" + s) in {Refused, Nanos(-0x8000_0000_0000_0000)}
    ensures Signed(s) ==> Parse(g, "+" + s) == Parse(g, "-" + s) == Refused
  {
    var plus, minus := "+" + s, "-" + s;
    assert plus[1..] == s && minus[1..] == s && plus[0] == '+' && minus[0] == '-';
    if Signed(s) {
      NoSecondSign(g, plus);
      NoSecondSign(g, minus);
    } else {
      SameUnsigned(g, plus, s);
      Negated(g, minus, s);
    }
  }

  lemma {:induction false} SameUnsigned(g: Fraction, t: string, s: string)
    requires Unsigned(t) == Unsigned(s) && !Negative(t) && !Negative(s)
    ensures Parse(g, t) == Parse(g, s)
  {
  }

  lemma {:induction false} Negated(g: Fraction, t: string, s: string)
    requires Unsigned(t) == Unsigned(s) && Negative(t) && !Negative(s)
    ensures Parse(g, s).Nanos? ==> Parse(g, t) == Nanos(0 - Parse(g, s).nanos)
    ensures Parse(g, s).Refused? ==> Parse(g, t) in {Refused, Nanos(-0x8000_0000_0000_0000)}
  {
    LoopWithinLimit(g, Unsigned(s));
    SigningNegated(Loop(g, Unsigned(s), 0));
  }

  lemma SigningNegated(total: Option<nat>)
    requires total.Some? ==> total.value <= 0x8000_0000_0000_0000
    ensures var pos, neg := Signing(false, total), Signing(true, total);
            && (pos.Nanos? ==> neg == Nanos(0 - pos.nanos))
            && (pos.Refused? ==> neg in {Refused, Nanos(-0x8000_0000_0000_0000)})
  {
  }

  lemma {:induction false} NoSecondSign(g: Fraction, t: string)
    requires Signed(t) && Signed(t[1..])
    ensures Parse(g, t) == Refused
  {
    if Parse(g, t).Nanos? {
      AcceptsOnlyGrammar(g, t);
      var cs :| Spells(t, cs);
      TextsStart(cs);
    }
  }

  lemma {:induction false} LoopWithinLimit(g: Fraction, s: string)
    ensures Loop(g, s, 0).Some? ==> Loop(g, s, 0).value <= 0x8000_0000_0000_0000
  {
    if Loop(g, s, 0).Some? {
      var cs := LoopReadsComponents(g, s, 0);
      LoopIsTotals(g, cs, 0);
      TotalsWithinLimit(0, Values(g, cs));
    }
  }

  /** The one number without a unit, and the text without a number. */
  lemma ParsesBareZero(g: Fraction)
    ensures Parse(g, "0") == Parse(g, "+0") == Parse(g, "-0") == Nanos(0)
    ensures Parse(g, "") == Parse(g, "+") == Parse(g, "-") == Refused
  {
    assert "+0"[1..] == "0" && "-0"[1..] == "0" && "+"[1..] == "" && "-"[1..] == "";
  }

  /** Either half of a number may be missing: a fraction alone stands for one with a 0
      before the dot, and a dot alone adds nothing. */
  lemma {:induction false} ParsesShortForms(g: Fraction, n: nat, d: string, u: string, k: nat)
    requires IsUnit(u, k) && Digits(d) && d != "" && DigitsValue(d) <= 0x8000_0000_0000_0000
    ensures Parse(g, "." + d + u) == Parse(g, Spell(0) + "." + d + u)
    ensures Parse(g, Spell(n) + "." + u) == Parse(g, Spell(n) + u)
  {
    UnitTable(u, k);
    ShortFraction(g, d, u);
    ShortDot(g, n, u);
  }

  lemma {:induction false} ShortFraction(g: Fraction, d: string, u: string)
    requires UnitNanos(u).Some? && Digits(d) && d != ""
    ensures Parse(g, "." + d + u) == Parse(g, Spell(0) + "." + d + u)
  {
    var a, b := Component("", true, d, u), Component(Spell(0), true, d, u);
    FractionText("", d, u);
    FractionText(Spell(0), d, u);
    assert "" + "." + d + u == "." + d + u;
    SpellRoundTrip(0);
    OneComponent(g, a);
    OneComponent(g, b);
  }

  lemma {:induction false} ShortDot(g: Fraction, n: nat, u: string)
    requires UnitNanos(u).Some?
    ensures Parse(g, Spell(n) + "." + u) == Parse(g, Spell(n) + u)
  {
    var a, b := Component(Spell(n), true, "", u), Component(Spell(n), false, "", u);
    FractionText(Spell(n), "", u);
    assert Spell(n) + "." + "" + u == Spell(n) + "." + u;
    WholeText(Spell(n), u);
    OneComponent(g, a);
    OneComponent(g, b);
  }

  /** A number with any other unit, or none unless it is the bare 0, is refused; and so
      is a dot with no digit on either side. */
  lemma {:induction false} RefusesOtherUnits(g: Fraction, n: nat, u: string)
    requires forall i :: 0 <= i < |u| ==> u[i] != '.' && !('0' <= u[i] <= '9')
    requires !exists k :: IsUnit(u, k)
    ensures (n == 0 && u == "") || Parse(g, Spell(n) + u) == Refused
    ensures Parse(g, "." + u) == Refused
  {
    NoOtherUnit(u);
    NoUnitAfter(g, Spell(n), u);
    if Spell(n) + u == "0" { ZeroSpells(n, u); }
    NoUnitAfterDot(g, u);
  }

  lemma NoUnitAt(u: string)
    requires (forall i :: 0 <= i < |u| ==> UnitChar(u[i])) && UnitNanos(u).None?
    ensures ScanUnit(u).None?
  {
    UnitRunIs(u, "");
    assert u + "" == u;
    assert u[..|u|] == u;
  }

  lemma {:induction false} NoUnitAfter(g: Fraction, w: string, u: string)
    requires w != "" && Digits(w) && (forall i :: 0 <= i < |u| ==> UnitChar(u[i])) && UnitNanos(u).None?
    ensures w + u == "0" || Parse(g, w + u) == Refused
  {
    var s := w + u;
    NoUnitAt(u);
    DigitRunIs(w, u);
    assert s[|w|..] == u;
    assert ScanNumber(s).rest == u;
    assert s[0] == w[0];
    NoUnitRefused(g, s);
  }

  lemma {:induction false} NoUnitAfterDot(g: Fraction, u: string)
    requires forall i :: 0 <= i < |u| ==> UnitChar(u[i])
    ensures Parse(g, "." + u) == Refused
  {
    var s := "." + u;
    assert s[0] == '.' && s[1..] == u;
    assert u != "" ==> !Digit(u[0]);
    assert DigitRun(s) == 0 && DigitRun(u) == 0;
    assert Scan(s).None?;
    NoScanRefused(g, s);
  }

  lemma NoOtherUnit(u: string)
    requires !exists k :: IsUnit(u, k)
    ensures UnitNanos(u).None?
  {
    if UnitNanos(u).Some? {
      var k := UnitNanos(u).value;
      if |u| == 1 { assert u == [u[0]]; } else { assert u == [u[0], u[1]]; }
      assert IsUnit(u, k);
    }
  }

  lemma {:induction false} NoScanRefused(g: Fraction, s: string)
    requires s != "" && !Signed(s) && s != "0" && Scan(s).None?
    ensures Parse(g, s) == Refused
  {
  }

  lemma {:induction false} NoUnitRefused(g: Fraction, s: string)
    requires s != "" && !Signed(s) && ScanUnit(ScanNumber(s).rest).None?
    ensures s == "0" || Parse(g, s) == Refused
  {
    NoUnitNoFront(g, s);
  }

  lemma ZeroSpells(n: nat, u: string)
    requires Spell(n) + u == "0"
    ensures n == 0 && u == ""
  {
    assert |Spell(n)| == 1 && |u| == 0;
    assert Spell(n) == "0";
    SpellRoundTrip(n);
    assert "0"[..0] == "";
  }
}
