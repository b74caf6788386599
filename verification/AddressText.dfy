/** The IPv6 part of normalizeIp (RequestContext.kt): the RFC 5952 spelling of
    eight 16-bit groups, which keys the per-address backoff. */
module AddressText {

  type Group = x: int | 0 <= x < 65536

  // ------------------------------------------------------------ the zero run

  /** Groups `start` to `start + len` are zero. */
  predicate ZeroRun(g: seq<Group>, start: int, len: int) {
    0 <= start && 0 < len && start + len <= |g| && forall i :: start <= i < start + len ==> g[i] == 0
  }

  /** The longest zero run, the first on a tie (section 4.2 of RFC 5952); a length of
      0 says there is none. */
  ghost predicate BestRun(g: seq<Group>, start: int, len: int) {
    && (len == 0 || ZeroRun(g, start, len))
    && 0 <= len
    && (forall s, l :: ZeroRun(g, s, l) ==> l < len || (l == len && start <= s))
  }

  lemma BestRunUnique(g: seq<Group>, s1: int, l1: int, s2: int, l2: int)
    requires BestRun(g, s1, l1) && BestRun(g, s2, l2)
    ensures l1 == l2 && (l1 > 0 ==> s1 == s2)
  {
  }

  /** Runs that start before `upTo` are no better than the best so far. */
  ghost predicate BestBefore(g: seq<Group>, start: int, len: int, upTo: int) {
    && 0 <= len && (len > 0 ==> start < upTo && ZeroRun(g, start, len))
    && (forall s, l :: ZeroRun(g, s, l) && s < upTo ==> l < len || (l == len && start <= s))
  }

  lemma RunStopsAt(g: seq<Group>, s: int, l: int, j: int)
    requires ZeroRun(g, s, l) && s <= j <= |g| && (j == |g| || g[j] != 0)
    ensures s + l <= j
  {
  }

  lemma RunsInsideRun(g: seq<Group>, i: int, j: int, start: int, len: int)
    requires ZeroRun(g, i, j - i) && (j == |g| || g[j] != 0)
    requires BestBefore(g, start, len, i)
    ensures j - i > len ==> BestBefore(g, i, j - i, j)
    ensures j - i <= len ==> BestBefore(g, start, len, j)
  {
    forall s, l | ZeroRun(g, s, l) && i <= s < j ensures l <= j - i && (l == j - i ==> s == i) {
      RunStopsAt(g, s, l, j);
    }
  }

  /** The scan of normalizeIp. */
  method LongestZeroRun(g: seq<Group>) returns (bestStart: int, bestLen: int)
    ensures BestRun(g, bestStart, bestLen)
    ensures bestLen == 0 ==> bestStart == -1
  {
    bestStart, bestLen := -1, 0;
    var i := 0;
    while i < |g|
      invariant 0 <= i <= |g|
      invariant bestLen == 0 ==> bestStart == -1
      invariant BestBefore(g, bestStart, bestLen, i)
    {
      if g[i] != 0 {
        i := i + 1;
        continue;
      }
      var j := i;
      while j < |g| && g[j] == 0
        invariant i <= j <= |g|
        invariant forall k :: i <= k < j ==> g[k] == 0
      {
        j := j + 1;
      }
      RunsInsideRun(g, i, j, bestStart, bestLen);
      if j - i > bestLen {
        bestStart, bestLen := i, j - i;
      }
      i := j;
    }
  }

  // ------------------------------------------------------------ hexadecimal

  predicate HexChar(ch: char) { '0' <= ch <= '9' || 'a' <= ch <= 'f' }

  predicate HexText(s: string) { s != "" && forall i :: 0 <= i < |s| ==> HexChar(s[i]) }

  function HexOf(d: int): (ch: char)
    requires 0 <= d < 16
    ensures HexChar(ch)
  {
    if d < 10 then '0' + d as char else 'a' + (d - 10) as char
  }

  function HexDigit(ch: char): int {
    if '0' <= ch <= '9' then (ch - '0') as int else if 'a' <= ch <= 'f' then (ch - 'a') as int + 10 else 0
  }

  /** toString(16). */
  function Hex(n: nat): (s: string)
    ensures HexText(s)
  {
    if n < 16 then [HexOf(n)] else Hex(n / 16) + [HexOf(n % 16)]
  }

  function HexValue(s: string): int {
    if s == "" then 0 else 16 * HexValue(s[..|s| - 1]) + HexDigit(s[|s| - 1])
  }

  lemma {:induction false} HexRoundTrip(n: nat)
    ensures HexValue(Hex(n)) == n
  {
    var s := Hex(n);
    if n < 16 {
      assert s[..0] == "";
    } else {
      HexRoundTrip(n / 16);
      assert s[..|s| - 1] == Hex(n / 16);
    }
  }

  // ------------------------------------------------------------ print and expand

  /** joinToString(":") of the groups in hexadecimal. */
  function Join(g: seq<Group>): string {
    if g == [] then "" else if |g| == 1 then Hex(g[0]) else Hex(g[0]) + ":" + Join(g[1..])
  }

  /** The text for a zero run of `len` groups from `start`. */
  function Print(g: seq<Group>, start: int, len: int): string
    requires len == 0 || ZeroRun(g, start, len)
  {
    if len < 2 then Join(g) else Join(g[..start]) + "::" + Join(g[start + len..])
  }

  /** normalizeIp from the groups on: the address text, then its zone. */
  method NormalizeGroups(g: seq<Group>, zone: string) returns (text: string)
    ensures exists start, len :: BestRun(g, start, len) && text == Print(g, start, len) + zone
  {
    var bestStart, bestLen := LongestZeroRun(g);
    if bestLen < 2 {
      text := Join(g) + zone;
    } else {
      var head := Join(g[..bestStart]);
      var tail := Join(g[bestStart + bestLen..]);
      text := head + "::" + tail + zone;
    }
    assert text == Print(g, bestStart, bestLen) + zone;
  }

  /** The index of the first "::", or the length if there is none. */
  function FirstDouble(s: string): (i: nat)
    ensures i <= |s|
  {
    if |s| < 2 then |s| else if s[0] == ':' && s[1] == ':' then 0 else 1 + FirstDouble(s[1..])
  }

  function FirstColon(s: string): (i: nat)
    ensures i <= |s|
  {
    if s == "" || s[0] == ':' then 0 else 1 + FirstColon(s[1..])
  }

  /** The groups of a colon-separated text, none if it is empty. */
  function Groups(s: string): seq<int>
    decreases |s|
  {
    if s == "" then []
    else
      var i := FirstColon(s);
      if i == |s| then [HexValue(s)] else [HexValue(s[..i])] + Groups(s[i + 1..])
  }

  function Zeros(n: int): seq<int> { seq(if n < 0 then 0 else n, _ => 0) }

  /** The eight groups an address text stands for (section 2.2 of RFC 4291). */
  function Expand(s: string): seq<int> { ExpandAt(s, FirstDouble(s)) }

  function Fill(head: seq<int>, tail: seq<int>): seq<int> { head + Zeros(8 - |head| - |tail|) + tail }

  function ExpandAt(s: string, i: nat): seq<int>
    requires i <= |s|
  {
    if i + 2 > |s| then Groups(s)
    else
      Fill(Groups(s[..i]), Groups(s[i + 2..]))
  }

  // ------------------------------------------------------------ expand undoes print

  lemma {:induction false} FirstColonIs(h: string, rest: string)
    requires HexText(h) || h == ""
    requires rest == "" || rest[0] == ':'
    ensures FirstColon(h + rest) == |h|
  {
    if h == "" {
      assert h + rest == rest;
    } else {
      assert (h + rest)[1..] == h[1..] + rest;
      FirstColonIs(h[1..], rest);
    }
  }

  lemma GroupsSplit(h: string, rest: string)
    requires HexText(h)
    ensures Groups(h + ":" + rest) == [HexValue(h)] + Groups(rest)
  {
    var s := h + ":" + rest;
    assert s == h + (":" + rest);
    FirstColonIs(h, ":" + rest);
    assert s[..|h|] == h && s[|h| + 1..] == rest;
  }

  lemma {:induction false} GroupsOfJoin(g: seq<Group>)
    ensures Groups(Join(g)) == g
  {
    if g != [] {
      var h := Hex(g[0]);
      HexRoundTrip(g[0]);
      if |g| == 1 {
        FirstColonIs(h, "");
        assert h + "" == h;
      } else {
        var rest := Join(g[1..]);
        GroupsOfJoin(g[1..]);
        GroupsSplit(h, rest);
      }
    }
  }

  /** No two colons in a row, and none at either end. */
  ghost predicate Clean(s: string) {
    && (s != "" ==> s[0] != ':' && s[|s| - 1] != ':')
    && forall i, j :: 0 <= i < j < |s| && j == i + 1 ==> s[i] != ':' || s[j] != ':'
  }

  lemma {:induction false} JoinIsClean(g: seq<Group>)
    ensures Clean(Join(g)) && (g != [] ==> Join(g) != "")
  {
    if |g| > 1 {
      JoinIsClean(g[1..]);
      var h, rest := Hex(g[0]), Join(g[1..]);
      var s := Join(g);
      forall i, j | 0 <= i < j < |s| && j == i + 1 ensures s[i] != ':' || s[j] != ':' {
        if i > |h| { assert s[i] == rest[i - |h| - 1] && s[j] == rest[j - |h| - 1]; }
      }
    }
  }

  /** Colons apart within, and none last: what a suffix of a clean text still is. */
  ghost predicate EndsClean(s: string) {
    && (s != "" ==> s[|s| - 1] != ':')
    && forall i, j :: 0 <= i < j < |s| && j == i + 1 ==> s[i] != ':' || s[j] != ':'
  }

  lemma {:induction false} FirstDoubleIs(s: string, rest: string)
    requires EndsClean(s)
    ensures FirstDouble(s + "::" + rest) == |s|
  {
    var t := s + "::" + rest;
    if s == "" {
      assert t[0] == ':' && t[1] == ':';
    } else {
      assert t[1..] == s[1..] + "::" + rest;
      FirstDoubleIs(s[1..], rest);
      assert |s| > 1 ==> t[1] == s[1];
      assert |s| == 1 ==> t[0] != ':';
    }
  }

  lemma {:induction false} NoDouble(s: string)
    requires EndsClean(s)
    ensures FirstDouble(s) == |s|
  {
    if |s| >= 2 { NoDouble(s[1..]); }
  }

  lemma ExpandSplits(head: string, tail: string)
    requires Clean(head)
    ensures Expand(head + "::" + tail) == Fill(Groups(head), Groups(tail))
  {
    FirstDoubleIs(head, tail);
    ExpandAtSplits(head, tail);
  }

  lemma ExpandAtSplits(head: string, tail: string)
    ensures ExpandAt(head + "::" + tail, |head|) == Fill(Groups(head), Groups(tail))
  {
    var s := head + "::" + tail;
    assert s[..|head|] == head;
    assert s[|head| + 2..] == tail;
  }

  /** Every printed address expands back to its eight groups, whichever zero run
      of at least two was left out. */
  lemma ExpandPrint(g: seq<Group>, start: int, len: int)
    requires |g| == 8 && (len == 0 || ZeroRun(g, start, len))
    ensures Expand(Print(g, start, len)) == g
  {
    if len < 2 {
      JoinIsClean(g);
      NoDouble(Join(g));
      GroupsOfJoin(g);
    } else {
      var h, t := g[..start], g[start + len..];
      var head, tail := Join(h), Join(t);
      JoinIsClean(h);
      ExpandSplits(head, tail);
      GroupsOfJoin(h);
      GroupsOfJoin(t);
      assert h + Zeros(len) + t == g;
    }
  }

  // ------------------------------------------------------------ keys

  predicate NoPercent(s: string) { forall i :: 0 <= i < |s| ==> s[i] != '%' }

  /** A zone is empty or starts at the address's `%`. */
  predicate Zone(z: string) { z == "" || z[0] == '%' }

  lemma {:induction false} JoinHasNoPercent(g: seq<Group>)
    ensures NoPercent(Join(g))
  {
    if |g| > 1 { JoinHasNoPercent(g[1..]); }
  }

  lemma PrintHasNoPercent(g: seq<Group>, start: int, len: int)
    requires len == 0 || ZeroRun(g, start, len)
    ensures NoPercent(Print(g, start, len))
  {
    JoinHasNoPercent(g);
    if len >= 2 {
      JoinHasNoPercent(g[..start]);
      JoinHasNoPercent(g[start + len..]);
    }
  }

  lemma ZoneStartsBy(a: string, y: string, b: string, z: string)
    requires NoPercent(b) && Zone(y) && a + y == b + z
    ensures |b| <= |a|
  {
    if y == "" {
      assert |a + y| == |a|;
    } else {
      assert (a + y)[|a|] == '%';
      assert (b + z)[|a|] == '%';
      assert b == (b + z)[..|b|];
    }
  }

  lemma ZoneCutsOff(a: string, y: string, b: string, z: string)
    requires NoPercent(a) && NoPercent(b) && Zone(y) && Zone(z) && a + y == b + z
    ensures a == b && y == z
  {
    ZoneStartsBy(a, y, b, z);
    ZoneStartsBy(b, z, a, y);
    assert (a + y)[..|a|] == a && (b + z)[..|b|] == b;
    assert (a + y)[|a|..] == y && (b + z)[|b|..] == z;
  }

  /** Distinct addresses never share a key, and one address has one key: two texts
      normalizeIp prints are equal exactly when groups and zone are. */
  lemma KeysAreFaithful(g1: seq<Group>, s1: int, l1: int, z1: string, g2: seq<Group>, s2: int, l2: int, z2: string)
    requires |g1| == 8 && |g2| == 8 && BestRun(g1, s1, l1) && BestRun(g2, s2, l2) && Zone(z1) && Zone(z2)
    ensures Print(g1, s1, l1) + z1 == Print(g2, s2, l2) + z2 <==> g1 == g2 && z1 == z2
  {
    if Print(g1, s1, l1) + z1 == Print(g2, s2, l2) + z2 {
      PrintHasNoPercent(g1, s1, l1);
      PrintHasNoPercent(g2, s2, l2);
      ZoneCutsOff(Print(g1, s1, l1), z1, Print(g2, s2, l2), z2);
      ExpandPrint(g1, s1, l1);
      ExpandPrint(g2, s2, l2);
    }
    if g1 == g2 { BestRunUnique(g1, s1, l1, s2, l2); }
  }

  // ------------------------------------------------------------ the canonical form

  /** The text has two colons in a row. */
  ghost predicate Compressed(s: string) {
    exists i, j :: 0 <= i < j < |s| && j == i + 1 && s[i] == ':' && s[j] == ':'
  }

  /** The printed address is compressed exactly if its best zero run has at least two
      groups (section 4.2.2 of RFC 5952). */
  lemma CompressedExactly(g: seq<Group>, start: int, len: int)
    requires BestRun(g, start, len)
    ensures Compressed(Print(g, start, len)) <==> len >= 2
  {
    if len < 2 {
      JoinIsClean(g);
    } else {
      var head, s := Join(g[..start]), Print(g, start, len);
      assert s[|head|] == ':' && s[|head| + 1] == ':';
    }
  }

  /** No group but 0 itself starts with a zero (section 4.1). */
  lemma {:induction false} HexIsShortest(n: nat)
    ensures Hex(n)[0] == '0' ==> n == 0 && |Hex(n)| == 1
  {
    if n >= 16 { HexIsShortest(n / 16); }
  }

  predicate StartsGroup(s: string, i: int)
    requires 0 <= i < |s|
  {
    i == 0 || s[i - 1] == ':'
  }

  /** A zero that starts a group is the whole group. */
  ghost predicate Unpadded(s: string) {
    forall i, j :: 0 <= i < j < |s| && j == i + 1 && s[i] == '0' && StartsGroup(s, i) ==> s[j] == ':'
  }

  lemma HexUnpadded(n: nat)
    ensures Unpadded(Hex(n))
  {
    var h := Hex(n);
    HexIsShortest(n);
    assert forall i :: 0 <= i < |h| ==> h[i] != ':';
  }

  lemma JoinedUnpadded(a: string, b: string)
    requires Unpadded(a) && Unpadded(b)
    ensures Unpadded(a + ":" + b)
  {
    var s, n := a + ":" + b, |a|;
    forall i, j | 0 <= i < j < |s| && j == i + 1 && s[i] == '0' && StartsGroup(s, i) ensures s[j] == ':' {
      if j < n {
        assert s[i] == a[i] && s[j] == a[j] && StartsGroup(a, i);
      } else if i > n {
        assert s[i] == b[i - n - 1] && s[j] == b[j - n - 1] && StartsGroup(b, i - n - 1);
      }
    }
  }

  lemma {:induction false} JoinUnpadded(g: seq<Group>)
    ensures Unpadded(Join(g))
  {
    if |g| == 1 {
      HexUnpadded(g[0]);
    } else if |g| > 1 {
      HexUnpadded(g[0]);
      JoinUnpadded(g[1..]);
      JoinedUnpadded(Hex(g[0]), Join(g[1..]));
    }
  }

  /** The printed address pads no group. */
  lemma PrintUnpadded(g: seq<Group>, start: int, len: int)
    requires len == 0 || ZeroRun(g, start, len)
    ensures Unpadded(Print(g, start, len))
  {
    if len < 2 {
      JoinUnpadded(g);
    } else {
      var head, tail := Join(g[..start]), Join(g[start + len..]);
      JoinUnpadded(g[..start]);
      JoinUnpadded(g[start + len..]);
      JoinedUnpadded("", tail);
      JoinedUnpadded(head, "" + ":" + tail);
      assert head + ":" + ("" + ":" + tail) == head + "::" + tail;
    }
  }

  lemma Loopback()
    ensures var g: seq<Group> := [0, 0, 0, 0, 0, 0, 0, 1]; BestRun(g, 0, 7) && Print(g, 0, 7) == "::1"
  {
    var g: seq<Group> := [0, 0, 0, 0, 0, 0, 0, 1];
    assert g[..0] == [] && g[7..] == [1];
    assert Hex(1) == "1";
    assert g[7] == 1;
  }

  lemma Documentation()
    ensures var g: seq<Group> := [0x2001, 0xdb8, 0, 0, 0, 0, 0, 1];
            BestRun(g, 2, 5) && Print(g, 2, 5) == "2001:db8::1"
  {
    var g: seq<Group> := [0x2001, 0xdb8, 0, 0, 0, 0, 0, 1];
    assert g[..2] == [0x2001, 0xdb8] && g[7..] == [1];
    assert Hex(1) == "1" && Hex(0xdb8) == "db8" && Hex(0x2001) == "2001";
    var two: seq<Group> := [0x2001, 0xdb8];
    assert two[1..] == [0xdb8];
    assert Join(two) == "2001" + ":" + "db8";
    assert g[7] == 1 && g[0] != 0 && g[1] != 0;
  }
}
