/** Sums of nonnegative numbers kept in an unsigned 64-bit word with an overflow
    check at 2^63, as DurationParser.kt and Go's time.ParseDuration keep them. */
module WordSums {
  import opened Options

  const WORD := 0x1_0000_0000_0000_0000   // 2^64
  const LIMIT := 0x8000_0000_0000_0000    // 2^63

  /** The low 64 bits of a number. */
  function Wrap(n: nat): nat { if n < WORD then n else Wrap(n - WORD) }

  lemma {:induction false} WrapIsMod(n: nat)
    ensures Wrap(n) == n % WORD
  {
    if n >= WORD { WrapIsMod(n - WORD); }
  }

  lemma {:induction false} WrapFits(n: nat)
    ensures Wrap(n) < WORD
  {
    if n >= WORD { WrapFits(n - WORD); }
  }

  lemma {:induction false} WrapAdds(a: nat, b: nat)
    ensures Wrap(Wrap(a) + b) == Wrap(a + b)
  {
    if a >= WORD { WrapAdds(a - WORD, b); }
  }

  function Add64(a: nat, b: nat): nat { Wrap(a + b) }

  function Sum(vs: seq<nat>): nat { if vs == [] then 0 else vs[0] + Sum(vs[1..]) }

  /** The checked running total: refused once a number or the reduced total
      passes 2^63. */
  function Totals(d: nat, vs: seq<nat>): Option<nat>
    decreases |vs|
  {
    if vs == [] then Some(d)
    else if vs[0] > LIMIT || Add64(d, vs[0]) > LIMIT then None
    else Totals(Add64(d, vs[0]), vs[1..])
  }

  /** Every number, and every exact running sum reduced to 64 bits, is within 2^63. */
  ghost predicate StaysLow(d: nat, vs: seq<nat>) {
    && (forall i :: 0 <= i < |vs| ==> vs[i] <= LIMIT)
    && (forall i :: 0 <= i <= |vs| ==> Reduced(d, vs, i) <= LIMIT)
  }

  function Reduced(d: nat, vs: seq<nat>, i: nat): nat
    requires i <= |vs|
  {
    Wrap(d + Sum(vs[..i]))
  }

  lemma PrefixOfTail(vs: seq<nat>, i: nat)
    requires 0 < i <= |vs|
    ensures Sum(vs[..i]) == vs[0] + Sum(vs[1..][..i - 1])
  {
    assert vs[..i][1..] == vs[1..][..i - 1];
  }

  lemma ReducedOfTail(d: nat, vs: seq<nat>, i: nat)
    requires 0 < i <= |vs|
    ensures Reduced(d, vs, i) == Reduced(Add64(d, vs[0]), vs[1..], i - 1)
  {
    PrefixOfTail(vs, i);
    WrapAdds(d + vs[0], Sum(vs[1..][..i - 1]));
  }

  lemma StaysLowOfTail(d: nat, vs: seq<nat>)
    requires vs != [] && d <= LIMIT
    ensures StaysLow(d, vs) <==> vs[0] <= LIMIT && StaysLow(Add64(d, vs[0]), vs[1..])
  {
    var d', rest := Add64(d, vs[0]), vs[1..];
    forall i | 0 < i <= |vs| ensures Reduced(d, vs, i) == Reduced(d', rest, i - 1) {
      ReducedOfTail(d, vs, i);
    }
    assert vs[..0] == [];
    assert Reduced(d, vs, 0) == d;
    if StaysLow(d, vs) {
      forall i | 0 <= i <= |rest| ensures Reduced(d', rest, i) <= LIMIT {
        assert Reduced(d, vs, i + 1) <= LIMIT;
      }
    }
    if vs[0] <= LIMIT && StaysLow(d', rest) {
      forall i | 0 <= i <= |vs| ensures Reduced(d, vs, i) <= LIMIT {
        if i > 0 { assert Reduced(d', rest, i - 1) <= LIMIT; }
      }
      forall i | 0 <= i < |vs| ensures vs[i] <= LIMIT {
        if i > 0 { assert vs[i] == rest[i - 1]; }
      }
    }
  }

  lemma StaysLowAtStart(d: nat, vs: seq<nat>)
    requires StaysLow(d, vs) && d < WORD
    ensures d <= LIMIT
  {
    assert vs[..0] == [];
    assert Reduced(d, vs, 0) == d;
  }

  /** The total is accepted exactly when every reduced running sum stays low, and
      is then the exact sum reduced to 64 bits. */
  lemma {:induction false} TotalsExactly(d: nat, vs: seq<nat>)
    requires d <= LIMIT
    ensures Totals(d, vs).Some? <==> StaysLow(d, vs)
    ensures Totals(d, vs).Some? ==> Totals(d, vs).value == Wrap(d + Sum(vs))
    decreases |vs|
  {
    if vs == [] {
      assert vs[..0] == [];
      assert Reduced(d, vs, 0) == d;
    } else {
      var d' := Add64(d, vs[0]);
      StaysLowOfTail(d, vs);
      WrapFits(d + vs[0]);
      if d' <= LIMIT {
        TotalsExactly(d', vs[1..]);
        WrapAdds(d + vs[0], Sum(vs[1..]));
      } else if StaysLow(d', vs[1..]) {
        StaysLowAtStart(d', vs[1..]);
      }
    }
  }

  lemma {:induction false} TotalsWithinLimit(d: nat, vs: seq<nat>)
    requires d <= LIMIT
    ensures Totals(d, vs).Some? ==> Totals(d, vs).value <= LIMIT
    decreases |vs|
  {
    if vs != [] && Totals(d, vs).Some? { TotalsWithinLimit(Add64(d, vs[0]), vs[1..]); }
  }

  /** `d += v` wraps around in exactly one case. */
  lemma OnlyWrap(d: nat, v: nat)
    requires d <= LIMIT && v <= LIMIT
    ensures Add64(d, v) != d + v <==> d == LIMIT && v == LIMIT
  {
  }

  /** Below 2^64 the total is exact: accepted if and only if the sum is within 2^63. */
  lemma {:induction false} TotalsBelowWord(d: nat, vs: seq<nat>)
    requires d <= LIMIT && d + Sum(vs) < WORD
    ensures Totals(d, vs) == if d + Sum(vs) <= LIMIT then Some(d + Sum(vs)) else None
    decreases |vs|
  {
    if vs != [] && vs[0] <= LIMIT && d + vs[0] <= LIMIT { TotalsBelowWord(d + vs[0], vs[1..]); }
  }

  lemma {:induction false} SumThrough(vs: seq<nat>, i: nat)
    requires i < |vs|
    ensures Sum(vs) == Sum(vs[..i]) + vs[i] + Sum(vs[i + 1..])
  {
    if i == 0 {
      assert vs[..0] == [];
    } else {
      PrefixOfTail(vs, i);
      SumThrough(vs[1..], i - 1);
      assert vs[1..][i..] == vs[i + 1..];
    }
  }

  /** The total reaches exactly 2^63 and the next number is exactly 2^63. */
  predicate WrapsAt(d: nat, vs: seq<nat>, i: nat)
    requires i < |vs|
  {
    d + Sum(vs[..i]) == LIMIT && vs[i] == LIMIT
  }

  /** From there the code starts again, from 0. */
  lemma {:induction false} WrapStartsAgain(d: nat, vs: seq<nat>, i: nat)
    requires i < |vs| && WrapsAt(d, vs, i)
    ensures Totals(d, vs) == Totals(0, vs[i + 1..])
    decreases i
  {
    if i == 0 {
      assert vs[..0] == [];
    } else {
      PrefixOfTail(vs, i);
      WrapStartsAgain(d + vs[0], vs[1..], i - 1);
      assert vs[1..][i..] == vs[i + 1..];
    }
  }

  lemma {:induction false} FindWrap(d: nat, vs: seq<nat>) returns (i: nat)
    requires d <= LIMIT && Totals(d, vs).Some? && d + Sum(vs) >= WORD
    ensures i < |vs| && WrapsAt(d, vs, i)
    decreases |vs|
  {
    OnlyWrap(d, vs[0]);
    if d == LIMIT && vs[0] == LIMIT {
      i := 0;
      assert vs[..0] == [];
    } else {
      var j := FindWrap(d + vs[0], vs[1..]);
      i := j + 1;
      PrefixOfTail(vs, i);
    }
  }

  /** A sum past `most` is accepted all the same exactly when the total wraps
      somewhere and what follows is accepted on its own. */
  lemma WronglyAcceptedExactly(vs: seq<nat>, most: nat)
    requires LIMIT - 1 <= most <= LIMIT
    ensures (Totals(0, vs).Some? && Totals(0, vs).value <= most && Sum(vs) > most)
            <==> exists i :: 0 <= i < |vs| && WrapsAt(0, vs, i)
                             && Totals(0, vs[i + 1..]).Some? && Totals(0, vs[i + 1..]).value <= most
  {
    if Totals(0, vs).Some? && Totals(0, vs).value <= most && Sum(vs) > most {
      if Sum(vs) < WORD { TotalsBelowWord(0, vs); }
      var i := FindWrap(0, vs);
      WrapStartsAgain(0, vs, i);
    }
    forall i | 0 <= i < |vs| && WrapsAt(0, vs, i) ensures Totals(0, vs) == Totals(0, vs[i + 1..]) && Sum(vs) > most {
      WrapStartsAgain(0, vs, i);
      SumThrough(vs, i);
    }
  }

  lemma {:induction false} SumAppend(a: seq<nat>, b: seq<nat>)
    ensures Sum(a + b) == Sum(a) + Sum(b)
  {
    if a == [] {
      assert a + b == b;
    } else {
      SumAppend(a[1..], b);
      assert (a + b)[1..] == a[1..] + b;
    }
  }

  /** The total of two lists is the total of the second, started where the first ends. */
  lemma {:induction false} TotalsAppend(d: nat, a: seq<nat>, b: seq<nat>)
    ensures Totals(d, a + b) == match Totals(d, a) case None => None case Some(m) => Totals(m, b)
    decreases |a|
  {
    if a == [] {
      assert a + b == b;
    } else {
      assert (a + b)[1..] == a[1..] + b;
      TotalsAppend(Add64(d, a[0]), a[1..], b);
    }
  }

  /** Starting an accepted total `x` higher gives a result `x` higher exactly when
      that fits and either nothing is added or the total never wraps; otherwise it is
      refused. */
  lemma ShiftedTotal(x: nat, vs: seq<nat>, y: nat)
    requires Totals(0, vs) == Some(y) && x < LIMIT
    ensures Totals(x, vs) ==
            if x + y <= LIMIT && (x == 0 || !exists i :: 0 <= i < |vs| && WrapsAt(0, vs, i)) then Some(x + y) else None
  {
    TotalsWithinLimit(0, vs);
    if x > 0 {
      if i :| 0 <= i < |vs| && WrapsAt(0, vs, i) {
        TotalsExactly(x, vs);
        assert Reduced(x, vs, i) > LIMIT;
      } else {
        if Sum(vs) >= WORD { var i := FindWrap(0, vs); }
        TotalsBelowWord(0, vs);
        TotalsBelowWord(x, vs);
      }
    }
  }
}
