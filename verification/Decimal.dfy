/** Decimal digit strings: their value, and the `%d` spelling of a number. */
module Decimal {

  predicate Digit(ch: char) { '0' <= ch <= '9' }

  predicate Digits(s: string) { forall i :: 0 <= i < |s| ==> Digit(s[i]) }

  function DigitsValue(s: string): nat
    requires Digits(s)
  {
    if s == "" then 0 else 10 * DigitsValue(s[..|s| - 1]) + (s[|s| - 1] - '0') as nat
  }

  /** The length of the longest prefix of digits. */
  function DigitRun(s: string): (n: nat)
    ensures n <= |s| && Digits(s[..n])
  {
    if s == "" || !Digit(s[0]) then 0 else 1 + DigitRun(s[1..])
  }

  function DigitChar(d: nat): (ch: char)
    requires d < 10
    ensures Digit(ch) && (ch - '0') as nat == d
  {
    '0' + d as char
  }

  /** The number without leading zeros. */
  function Spell(n: nat): (s: string)
    ensures s != "" && Digits(s)
  {
    if n < 10 then [DigitChar(n)] else Spell(n / 10) + [DigitChar(n % 10)]
  }

  lemma {:induction false} SpellRoundTrip(n: nat)
    ensures DigitsValue(Spell(n)) == n
  {
    var s := Spell(n);
    if n < 10 {
      assert s[..0] == "";
    } else {
      SpellRoundTrip(n / 10);
      assert s[..|s| - 1] == Spell(n / 10);
    }
  }

  /** A digit run ends where the digits do, however the string continues. */
  lemma {:induction false} DigitRunIs(d: string, rest: string)
    requires Digits(d) && (rest != "" ==> !Digit(rest[0]))
    ensures DigitRun(d + rest) == |d|
  {
    if d == "" {
      assert d + rest == rest;
    } else {
      assert (d + rest)[1..] == d[1..] + rest;
      DigitRunIs(d[1..], rest);
    }
  }

  /** A leading zero changes no value. */
  lemma {:induction false} ZeroAhead(d: string)
    requires Digits(d)
    ensures Digits("0" + d) && DigitsValue("0" + d) == DigitsValue(d)
  {
    var z := "0" + d;
    if d == "" {
      assert z[..0] == "";
    } else {
      var init := d[..|d| - 1];
      ZeroAhead(init);
      assert z[..|z| - 1] == "0" + init && z[|z| - 1] == d[|d| - 1];
    }
  }
}
