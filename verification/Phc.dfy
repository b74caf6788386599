/** The stored form of a password hash, `$argon2id$v=19$m=..,t=..,p=..$salt$hash`:
    Go's printer and parser (backend/internal/auth/password.go) and Kotlin's
    acceptor (PasswordService.kt). */
module Phc {
  import opened Options
  import opened Decimal
  import opened Base64

  const HEAD := "$argon2id$v=19$m="

  /** The captures of the shape both backends match. */
  datatype Fields = Fields(m: string, t: string, p: string, salt: string, hash: string)

  predicate Shaped(f: Fields) {
    && f.m != "" && f.t != "" && f.p != "" && f.salt != "" && |f.hash| >= 6
    && Digits(f.m) && Digits(f.t) && Digits(f.p)
    && Base64Text(f.salt) && Base64Text(f.hash)
  }

  function Text(f: Fields): string {
    HEAD + (f.m + ",t=" + (f.t + ",p=" + (f.p + "$" + (f.salt + "$" + f.hash))))
  }

  // ------------------------------------------------------------ matching the shape

  /** What follows a literal at the front of `s`. */
  function Strip(literal: string, s: string): Option<string> {
    if literal <= s then Some(s[|literal|..]) else None
  }

  /** A nonempty digit run followed by a literal. */
  function NumberThen(literal: string, s: string): Option<(string, string)> {
    var n := DigitRun(s);
    if n == 0 then None
    else match Strip(literal, s[n..])
      case None => None
      case Some(rest) => Some((s[..n], rest))
  }

  function Base64Run(s: string): (n: nat)
    ensures n <= |s|
  {
    if s == "" || !Base64Char(s[0]) then 0 else 1 + Base64Run(s[1..])
  }

  function Base64Then(literal: string, s: string): Option<(string, string)> {
    var n := Base64Run(s);
    if n == 0 then None
    else match Strip(literal, s[n..])
      case None => None
      case Some(rest) => Some((s[..n], rest))
  }

  /** The fixed head and the three numbers; the last part is what follows them. */
  function Numbers(s: string): Option<(string, string, string, string)> {
    match Strip(HEAD, s) case None => None case Some(s1) =>
    match NumberThen(",t=", s1) case None => None case Some((m, s2)) =>
    match NumberThen(",p=", s2) case None => None case Some((t, s3)) =>
    match NumberThen("$", s3) case None => None case Some((p, s4)) => Some((m, t, p, s4))
  }

  /** phcShape's match, captures included. */
  function Shape(s: string): Option<Fields> {
    match Numbers(s) case None => None case Some((m, t, p, rest)) =>
    match Base64Then("$", rest) case None => None case Some((salt, hash)) =>
    if |hash| >= 6 && Base64Text(hash) then Some(Fields(m, t, p, salt, hash)) else None
  }

  lemma StripFinds(literal: string, rest: string)
    ensures Strip(literal, literal + rest) == Some(rest)
  {
  }

  lemma NumberThenFinds(literal: string, d: string, rest: string)
    requires Digits(d) && d != "" && literal != "" && !Digit(literal[0])
    ensures NumberThen(literal, d + literal + rest) == Some((d, rest))
  {
    assert d + literal + rest == d + (literal + rest);
    DigitRunIs(d, literal + rest);
    assert (d + (literal + rest))[|d|..] == literal + rest;
    StripFinds(literal, rest);
  }

  lemma {:induction false} Base64RunIs(d: string, rest: string)
    requires Base64Text(d) && (rest != "" ==> !Base64Char(rest[0]))
    ensures Base64Run(d + rest) == |d|
  {
    if d == "" {
      assert d + rest == rest;
    } else {
      assert (d + rest)[1..] == d[1..] + rest;
      Base64RunIs(d[1..], rest);
    }
  }

  lemma Base64ThenFinds(literal: string, d: string, rest: string)
    requires Base64Text(d) && d != "" && literal != "" && !Base64Char(literal[0])
    ensures Base64Then(literal, d + literal + rest) == Some((d, rest))
  {
    assert d + literal + rest == d + (literal + rest);
    Base64RunIs(d, literal + rest);
    assert (d + (literal + rest))[|d|..] == literal + rest;
    StripFinds(literal, rest);
  }

  lemma NumbersFinds(f: Fields)
    requires f.m != "" && f.t != "" && f.p != "" && Digits(f.m) && Digits(f.t) && Digits(f.p)
    ensures Numbers(Text(f)) == Some((f.m, f.t, f.p, f.salt + "$" + f.hash))
  {
    var s4 := f.salt + "$" + f.hash;
    var s3 := f.p + "$" + s4;
    var s2 := f.t + ",p=" + s3;
    StripFinds(HEAD, f.m + ",t=" + s2);
    NumberThenFinds(",t=", f.m, s2);
    NumberThenFinds(",p=", f.t, s3);
    NumberThenFinds("$", f.p, s4);
  }

  /** A shaped text is matched, with the fields it was written from. */
  lemma ShapeFinds(f: Fields)
    requires Shaped(f)
    ensures Shape(Text(f)) == Some(f)
  {
    NumbersFinds(f);
    Base64ThenFinds("$", f.salt, f.hash);
  }

  lemma StripSplits(literal: string, s: string)
    requires Strip(literal, s).Some?
    ensures s == literal + Strip(literal, s).value
  {
  }

  lemma NumberThenSplits(literal: string, s: string)
    requires NumberThen(literal, s).Some?
    ensures var (d, rest) := NumberThen(literal, s).value;
            d != "" && Digits(d) && s == d + literal + rest
  {
    var n := DigitRun(s);
    StripSplits(literal, s[n..]);
    assert s == s[..n] + s[n..];
  }

  lemma {:induction false} Base64RunText(s: string)
    ensures Base64Text(s[..Base64Run(s)])
  {
    if s != "" && Base64Char(s[0]) {
      Base64RunText(s[1..]);
      var n := Base64Run(s[1..]);
      assert s[..n + 1] == [s[0]] + s[1..][..n];
    }
  }

  lemma Base64ThenSplits(literal: string, s: string)
    requires Base64Then(literal, s).Some?
    ensures var (d, rest) := Base64Then(literal, s).value;
            d != "" && Base64Text(d) && s == d + literal + rest
  {
    var n := Base64Run(s);
    Base64RunText(s);
    StripSplits(literal, s[n..]);
    assert s == s[..n] + s[n..];
  }

  /** Whatever is matched is the text of its captures, and they are shaped: with
      ShapeFinds, `Shape` matches exactly the shaped texts. */
  lemma ShapeSplits(s: string)
    requires Shape(s).Some?
    ensures Shaped(Shape(s).value) && s == Text(Shape(s).value)
  {
    var s1 := Strip(HEAD, s).value;
    var (m, s2) := NumberThen(",t=", s1).value;
    var (t, s3) := NumberThen(",p=", s2).value;
    var (p, s4) := NumberThen("$", s3).value;
    StripSplits(HEAD, s);
    NumberThenSplits(",t=", s1);
    NumberThenSplits(",p=", s2);
    NumberThenSplits("$", s3);
    Base64ThenSplits("$", s4);
  }

  // ------------------------------------------------------------ Go

  datatype Params = Params(memory: nat, time: nat, threads: nat)

  datatype Parsed = Parsed(params: Params, salt: seq<byte>, hash: seq<byte>)

  const MAX_MEMORY := 65536
  const MAX_TIME := 10

  /** strconv.ParseUint on digits: an error past the width's largest value. */
  function ParseUint(d: string, largest: nat): Option<nat>
    requires Digits(d)
  {
    if DigitsValue(d) <= largest then Some(DigitsValue(d)) else None
  }

  predicate InRange(p: Params) {
    && 1 <= p.time <= MAX_TIME && 1 <= p.threads <= 255
    && 8 * p.threads <= p.memory <= MAX_MEMORY
  }

  /** parsePHC. */
  function ParsePHC(phc: string): Option<Parsed> {
    match Shape(phc) case None => None case Some(f) =>
    ShapeSplits(phc);
    ParseFields(f)
  }

  function ParseFields(f: Fields): Option<Parsed>
    requires Shaped(f)
  {
    var memory, time, threads := ParseUint(f.m, 0xffff_ffff), ParseUint(f.t, 0xffff_ffff), ParseUint(f.p, 0xff);
    if memory.None? || time.None? || threads.None?
       || time.value < 1 || time.value > MAX_TIME
       || threads.value < 1 || memory.value < 8 * threads.value || memory.value > MAX_MEMORY then None
    else match Decode(f.salt)
      case None => None
      case Some(salt) =>
        match Decode(f.hash)
        case None => None
        case Some(hash) => Some(Parsed(Params(memory.value, time.value, threads.value), salt, hash))
  }

  /** buildPHC. */
  function BuildPHC(p: Params, salt: seq<byte>, sum: seq<byte>): string {
    Text(Fields(Spell(p.memory), Spell(p.time), Spell(p.threads), Encode(salt), Encode(sum)))
  }

  /** The printer and the parser undo each other exactly when the parameters are in
      range, the salt is not empty and the hash has at least four bytes; a string
      printed from anything else is refused. */
  lemma ParseBuild(p: Params, salt: seq<byte>, sum: seq<byte>)
    ensures ParsePHC(BuildPHC(p, salt, sum)) ==
            if 1 <= p.time <= 10 && 1 <= p.threads <= 255 && 8 * p.threads <= p.memory <= 65536
               && salt != [] && |sum| >= 4
            then Some(Parsed(p, salt, sum)) else None
  {
    var f := Fields(Spell(p.memory), Spell(p.time), Spell(p.threads), Encode(salt), Encode(sum));
    FieldsOfBuild(p, salt, sum, f);
    ParseText(f);
  }

  /** Only numbers and base64 in the fields. */
  predicate WellSpelled(f: Fields) {
    && f.m != "" && f.t != "" && f.p != "" && Digits(f.m) && Digits(f.t) && Digits(f.p)
    && Base64Text(f.salt) && Base64Text(f.hash)
  }

  lemma FieldsOfBuild(p: Params, salt: seq<byte>, sum: seq<byte>, f: Fields)
    requires f == Fields(Spell(p.memory), Spell(p.time), Spell(p.threads), Encode(salt), Encode(sum))
    ensures WellSpelled(f)
    ensures Shaped(f) <==> salt != [] && |sum| >= 4
    ensures Shaped(f) ==> ParseFields(f) == if InRange(p) then Some(Parsed(p, salt, sum)) else None
  {
    SpellRoundTrip(p.memory);
    SpellRoundTrip(p.time);
    SpellRoundTrip(p.threads);
    SextetsLength(salt);
    SextetsLength(sum);
    DecodeEncode(salt);
    DecodeEncode(sum);
  }

  lemma ParseText(f: Fields)
    requires WellSpelled(f)
    ensures ParsePHC(Text(f)) == if Shaped(f) then ParseFields(f) else None
  {
    if Shaped(f) {
      ShapeFinds(f);
    } else {
      UnshapedRefused(f);
    }
  }

  /** With digits and base64 in place, only an empty salt or a short hash keeps a
      text from matching. */
  lemma UnshapedRefused(f: Fields)
    requires WellSpelled(f) && !Shaped(f)
    ensures Shape(Text(f)).None?
  {
    NumbersFinds(f);
    TailRefused(f.salt, f.hash);
  }

  lemma TailRefused(salt: string, hash: string)
    requires Base64Text(salt) && (salt == "" || |hash| < 6)
    ensures Base64Then("$", salt + "$" + hash) == (if salt == "" then None else Some((salt, hash)))
  {
    if salt == "" {
      assert (salt + "$" + hash)[0] == '$';
    } else {
      Base64ThenFinds("$", salt, hash);
    }
  }

  // ------------------------------------------------------------ Kotlin

  /** toIntOrNull on digits. */
  function ToIntOrNull(d: string): Option<nat>
    requires Digits(d)
  {
    if DigitsValue(d) <= 0x7fff_ffff then Some(DigitsValue(d)) else None
  }

  /** hasPhcShape. */
  predicate HasPhcShape(phc: string) {
    match Shape(phc)
    case None => false
    case Some(f) =>
      ShapeSplits(phc);
      KotlinTakes(f)
  }

  predicate KotlinTakes(f: Fields)
    requires Shaped(f)
  {
    var memory, iterations, lanes := ToIntOrNull(f.m), ToIntOrNull(f.t), ToIntOrNull(f.p);
    && memory.Some? && iterations.Some? && lanes.Some?
    && 1 <= iterations.value <= MAX_TIME && 1 <= lanes.value <= 255
    && 8 * lanes.value <= memory.value <= MAX_MEMORY
    && |f.salt| % 4 != 1 && |f.hash| % 4 != 1
  }

  lemma FieldsAgree(f: Fields)
    requires Shaped(f)
    ensures ParseFields(f).Some? <==> KotlinTakes(f)
  {
  }

  /** The two backends accept exactly the same stored strings. */
  lemma BackendsAgree(phc: string)
    ensures ParsePHC(phc).Some? <==> HasPhcShape(phc)
  {
    if Shape(phc).Some? {
      ShapeSplits(phc);
      FieldsAgree(Shape(phc).value);
    }
  }

  // ------------------------------------------------------------ one spelling

  predicate NoLeadingZero(d: string) { |d| == 1 || (d != "" && d[0] != '0') }

  lemma {:induction false} SpellOfValue(d: string)
    requires Digits(d) && d != ""
    ensures Spell(DigitsValue(d)) == d <==> NoLeadingZero(d)
    ensures d[0] != '0' ==> DigitsValue(d) > 0
  {
    var init := d[..|d| - 1];
    var last := (d[|d| - 1] - '0') as nat;
    assert d == init + [d[|d| - 1]];
    if init == "" {
      assert DigitChar(last) == d[0];
    } else {
      SpellOfValue(init);
      var n := DigitsValue(init);
      assert (10 * n + last) / 10 == n && (10 * n + last) % 10 == last;
      assert DigitChar(last) == d[|d| - 1];
      SpellTail(n, last, init, d);
    }
  }

  lemma ValueOfZero()
    ensures DigitsValue("0") == 0
  {
    assert "0"[..0] == "";
  }

  lemma SpellTail(n: nat, last: nat, init: string, d: string)
    requires last < 10 && init != "" && d == init + [DigitChar(last)]
    requires Spell(n) == init <==> NoLeadingZero(init)
    requires Digits(init) && n == DigitsValue(init) && (init[0] != '0' ==> n > 0)
    ensures Spell(10 * n + last) == d <==> NoLeadingZero(d)
  {
    ValueOfZero();
    if n == 0 {
      assert d[0] == '0' && |Spell(last)| == 1;
    } else {
      var s := Spell(10 * n + last);
      assert s == Spell(n) + [DigitChar(last)];
      assert s[..|s| - 1] == Spell(n) && d[..|d| - 1] == init;
      assert |init| == 1 ==> init[0] != '0';
    }
  }

  predicate CanonicalFields(f: Fields)
    requires Shaped(f)
  {
    && NoLeadingZero(f.m) && NoLeadingZero(f.t) && NoLeadingZero(f.p)
    && Canonical(ValuesOf(f.salt)) && Canonical(ValuesOf(f.hash))
  }

  /** An accepted string is the one buildPHC prints for its values exactly when it
      has no leading zeros and no stray bits. */
  lemma BuildParse(phc: string)
    ensures ParsePHC(phc).Some? ==>
              var v := ParsePHC(phc).value;
              && Shape(phc).Some? && Shaped(Shape(phc).value)
              && (BuildPHC(v.params, v.salt, v.hash) == phc <==> CanonicalFields(Shape(phc).value))
  {
    if ParsePHC(phc).Some? {
      var f, v := Shape(phc).value, ParsePHC(phc).value;
      ShapeSplits(phc);
      var p := v.params;
      var g := Fields(Spell(p.memory), Spell(p.time), Spell(p.threads), Encode(v.salt), Encode(v.hash));
      SpellOfValue(f.m);
      SpellOfValue(f.t);
      SpellOfValue(f.p);
      EncodeDecode(f.salt);
      EncodeDecode(f.hash);
      FieldsOfBuild(v.params, v.salt, v.hash, g);
      if Text(g) == phc { SameText(f, g); }
    }
  }

  /** Such strings exist, for every stored value: one more leading zero is accepted,
      for the same value, and never printed. */
  lemma LeadingZeroIsAccepted(p: Params, salt: seq<byte>, sum: seq<byte>)
    requires InRange(p) && salt != [] && |sum| >= 4
    ensures var phc := Text(Fields("0" + Spell(p.memory), Spell(p.time), Spell(p.threads), Encode(salt), Encode(sum)));
            ParsePHC(phc) == Some(Parsed(p, salt, sum)) && phc != BuildPHC(p, salt, sum)
  {
    var g := Fields(Spell(p.memory), Spell(p.time), Spell(p.threads), Encode(salt), Encode(sum));
    var f := g.(m := "0" + g.m);
    FieldsOfBuild(p, salt, sum, g);
    ZeroAheadParses(f, g);
    ParseText(f);
  }

  /** And so are stray bits: a one-byte salt spelled otherwise than buildPHC spells it. */
  lemma StrayBitsAreAccepted(p: Params, salt: byte, sum: seq<byte>)
    requires InRange(p) && |sum| >= 4
    ensures var phc := Text(Fields(Spell(p.memory), Spell(p.time), Spell(p.threads), Stray(salt), Encode(sum)));
            ParsePHC(phc) == Some(Parsed(p, [salt], sum)) && phc != BuildPHC(p, [salt], sum)
  {
    var g := Fields(Spell(p.memory), Spell(p.time), Spell(p.threads), Encode([salt]), Encode(sum));
    var f := g.(salt := Stray(salt));
    StrayBitsIgnored(salt);
    DecodeEncode([salt]);
    FieldsOfBuild(p, [salt], sum, g);
    StrayBitsParse(f, g);
  }

  lemma StrayBitsParse(f: Fields, g: Fields)
    requires Shaped(g) && Base64Text(f.salt) && f.salt != "" && f == g.(salt := f.salt)
    requires Decode(f.salt) == Decode(g.salt) && f.salt != g.salt
    ensures ParsePHC(Text(f)) == ParseFields(g) && Text(f) != Text(g)
  {
    ParseText(f);
    if Text(f) == Text(g) { SameText(f, g); }
  }

  lemma ZeroAheadParses(f: Fields, g: Fields)
    requires Shaped(g) && f == g.(m := "0" + g.m)
    ensures WellSpelled(f) && Shaped(f) && ParseFields(f) == ParseFields(g) && Text(f) != Text(g)
  {
    ZeroAhead(g.m);
    assert |Text(f)| == |Text(g)| + 1;
  }

  /** Fields with the same text are the same, given the second set could be shaped. */
  lemma SameText(f: Fields, g: Fields)
    requires Shaped(f) && Text(f) == Text(g)
    requires g.m != "" && g.t != "" && g.p != "" && Digits(g.m) && Digits(g.t) && Digits(g.p)
    requires Base64Text(g.salt) && Base64Text(g.hash)
    ensures f == g
  {
    ShapeFinds(f);
    if Shaped(g) { ShapeFinds(g); } else { UnshapedRefused(g); }
  }

  // ------------------------------------------------------------ one stored string

  /** A stored string, character for character, and the values it stands for. */
  lemma StoredString()
    ensures BuildPHC(Params(19456, 2, 1), [0x66, 0x6f, 0x6f], [0x66, 0x6f, 0x6f, 0x62, 0x61, 0x72])
            == "$argon2id$v=19$m=19456,t=2,p=1$Zm9v$Zm9vYmFy"
    ensures ParsePHC("$argon2id$v=19$m=19456,t=2,p=1$Zm9v$Zm9vYmFy")
            == Some(Parsed(Params(19456, 2, 1), [0x66, 0x6f, 0x6f], [0x66, 0x6f, 0x6f, 0x62, 0x61, 0x72]))
  {
    TestVectors();
    assert Spell(2) == "2" && Spell(1) == "1" && Spell(19456) == "19456";
    StoredText(Fields("19456", "2", "1", "Zm9v", "Zm9vYmFy"));
    ParseBuild(Params(19456, 2, 1), [0x66, 0x6f, 0x6f], [0x66, 0x6f, 0x6f, 0x62, 0x61, 0x72]);
  }

  lemma StoredText(f: Fields)
    requires f == Fields("19456", "2", "1", "Zm9v", "Zm9vYmFy")
    ensures Text(f) == "$argon2id$v=19$m=19456,t=2,p=1$Zm9v$Zm9vYmFy"
  {
  }
}
