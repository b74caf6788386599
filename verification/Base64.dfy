/** Unpadded standard base64 (section 4 of RFC 4648, padding left out as its
    section 3.2 allows), decoded as Go's RawStdEncoding does: the unused bits of
    the last character are not checked. */
module Base64 {
  import opened Options

  type byte = x: int | 0 <= x < 256
  type sextet = x: int | 0 <= x < 64

  // ------------------------------------------------------------ characters

  predicate Base64Char(ch: char) {
    'A' <= ch <= 'Z' || 'a' <= ch <= 'z' || '0' <= ch <= '9' || ch == '+' || ch == '/'
  }

  predicate Base64Text(s: string) { forall i :: 0 <= i < |s| ==> Base64Char(s[i]) }

  function CharOf(v: sextet): (ch: char)
    ensures Base64Char(ch)
  {
    if v < 26 then 'A' + v as char
    else if v < 52 then 'a' + (v - 26) as char
    else if v < 62 then '0' + (v - 52) as char
    else if v == 62 then '+' else '/'
  }

  function ValueOf(ch: char): sextet
    requires Base64Char(ch)
  {
    if 'A' <= ch <= 'Z' then (ch - 'A') as int
    else if 'a' <= ch <= 'z' then (ch - 'a') as int + 26
    else if '0' <= ch <= '9' then (ch - '0') as int + 52
    else if ch == '+' then 62 else 63
  }

  lemma CharRoundTrip(v: sextet)
    ensures ValueOf(CharOf(v)) == v
  {
  }

  lemma ValueRoundTrip(ch: char)
    requires Base64Char(ch)
    ensures CharOf(ValueOf(ch)) == ch
  {
  }

  // ------------------------------------------------------------ three bytes, four sextets

  // The sextets that three bytes b0 b1 b2 spread over, and back. A byte past the
  // end counts as 0.

  function S0(b0: byte): sextet { b0 / 4 }
  function S1(b0: byte, b1: byte): sextet { b0 % 4 * 16 + b1 / 16 }
  function S2(b1: byte, b2: byte): sextet { b1 % 16 * 4 + b2 / 64 }
  function S3(b2: byte): sextet { b2 % 64 }

  function B0(v0: sextet, v1: sextet): byte { var v: int := v0; v * 4 + v1 / 16 }
  function B1(v1: sextet, v2: sextet): byte { var v: int := v1; v % 16 * 16 + v2 / 4 }
  function B2(v2: sextet, v3: sextet): byte { var v: int := v2; v % 4 * 64 + v3 }

  lemma BytesThroughSextets(b0: byte, b1: byte, b2: byte)
    ensures B0(S0(b0), S1(b0, b1)) == b0
    ensures B1(S1(b0, b1), S2(b1, b2)) == b1
    ensures B2(S2(b1, b2), S3(b2)) == b2
  {
  }

  lemma SextetsThroughBytes(v0: sextet, v1: sextet, v2: sextet, v3: sextet)
    ensures S0(B0(v0, v1)) == v0
    ensures S1(B0(v0, v1), B1(v1, v2)) == v1
    ensures S2(B1(v1, v2), B2(v2, v3)) == v2
    ensures S3(B2(v2, v3)) == v3
    ensures S1(B0(v0, v1), 0) == v1 <==> v1 % 16 == 0
    ensures S2(B1(v1, v2), 0) == v2 <==> v2 % 4 == 0
  {
  }

  /** The sextets of one, two or three bytes. */
  function Group(b: seq<byte>): seq<sextet> {
    if |b| == 1 then [S0(b[0]), S1(b[0], 0)]
    else if |b| == 2 then [S0(b[0]), S1(b[0], b[1]), S2(b[1], 0)]
    else if |b| == 3 then [S0(b[0]), S1(b[0], b[1]), S2(b[1], b[2]), S3(b[2])]
    else []
  }

  /** The whole bytes of two, three or four sextets. */
  function Ungroup(v: seq<sextet>): seq<byte> {
    if |v| == 2 then [B0(v[0], v[1])]
    else if |v| == 3 then [B0(v[0], v[1]), B1(v[1], v[2])]
    else if |v| == 4 then [B0(v[0], v[1]), B1(v[1], v[2]), B2(v[2], v[3])]
    else []
  }

  lemma UngroupGroup(b: seq<byte>)
    requires 1 <= |b| <= 3
    ensures |Group(b)| == |b| + 1 && Ungroup(Group(b)) == b
  {
    if |b| == 1 {
      UngroupGroup1(b[0]);
      assert b == [b[0]];
    } else if |b| == 2 {
      UngroupGroup2(b[0], b[1]);
      assert b == [b[0], b[1]];
    } else {
      UngroupGroup3(b[0], b[1], b[2]);
      assert b == [b[0], b[1], b[2]];
    }
  }

  lemma UngroupGroup1(b0: byte)
    ensures Ungroup(Group([b0])) == [b0]
  {
  }

  lemma UngroupGroup2(b0: byte, b1: byte)
    ensures Ungroup(Group([b0, b1])) == [b0, b1]
  {
    BytesThroughSextets(b0, b1, 0);
  }

  lemma UngroupGroup3(b0: byte, b1: byte, b2: byte)
    ensures Ungroup(Group([b0, b1, b2])) == [b0, b1, b2]
  {
    BytesThroughSextets(b0, b1, b2);
  }

  /** The bits of the last sextet that no byte uses are zero. */
  predicate Canonical(v: seq<sextet>) {
    && (|v| % 4 == 2 ==> v[|v| - 1] % 16 == 0)
    && (|v| % 4 == 3 ==> v[|v| - 1] % 4 == 0)
  }

  lemma GroupUngroup(v: seq<sextet>)
    requires 2 <= |v| <= 4
    ensures |Ungroup(v)| == |v| - 1 && (Group(Ungroup(v)) == v <==> Canonical(v))
  {
    if |v| == 2 {
      assert v == [v[0], v[1]];
      GroupUngroup2(v[0], v[1]);
    } else if |v| == 3 {
      assert v == [v[0], v[1], v[2]];
      GroupUngroup3(v[0], v[1], v[2]);
    } else {
      assert v == [v[0], v[1], v[2], v[3]];
      GroupUngroup4(v[0], v[1], v[2], v[3]);
    }
  }

  lemma GroupUngroup2(v0: sextet, v1: sextet)
    ensures Group(Ungroup([v0, v1])) == [v0, v1] <==> v1 % 16 == 0
  {
    SextetsThroughBytes(v0, v1, 0, 0);
  }

  lemma GroupUngroup3(v0: sextet, v1: sextet, v2: sextet)
    ensures Group(Ungroup([v0, v1, v2])) == [v0, v1, v2] <==> v2 % 4 == 0
  {
    SextetsThroughBytes(v0, v1, v2, 0);
  }

  lemma GroupUngroup4(v0: sextet, v1: sextet, v2: sextet, v3: sextet)
    ensures Group(Ungroup([v0, v1, v2, v3])) == [v0, v1, v2, v3]
  {
    SextetsThroughBytes(v0, v1, v2, v3);
  }

  // ------------------------------------------------------------ piece by piece

  /** Applies `f` to `s` cut into pieces of `n`, the last one possibly shorter. */
  function ByPieces<A, B>(f: seq<A> -> seq<B>, n: nat, s: seq<A>): seq<B>
    requires n > 0
    decreases |s|
  {
    if s == [] then [] else if |s| <= n then f(s) else f(s[..n]) + ByPieces(f, n, s[n..])
  }

  /** `f` turns a piece of k <= n into one of k + 1, and `g` undoes it. */
  ghost predicate Undoes<A(!new), B>(f: seq<A> -> seq<B>, g: seq<B> -> seq<A>, n: nat) {
    forall x :: 1 <= |x| <= n ==> |f(x)| == |x| + 1 && g(f(x)) == x
  }

  lemma {:induction false} UndoneByPieces<A(!new), B>(f: seq<A> -> seq<B>, g: seq<B> -> seq<A>, n: nat, s: seq<A>)
    requires n > 0 && Undoes(f, g, n)
    ensures ByPieces(g, n + 1, ByPieces(f, n, s)) == s
    ensures s != [] ==> ByPieces(f, n, s) != []
    decreases |s|
  {
    if s == [] {
    } else if |s| <= n {
      UndoesAt(f, g, n, s);
    } else {
      var head, rest := s[..n], s[n..];
      UndoneByPieces(f, g, n, rest);
      UndoesAt(f, g, n, head);
      UndoneStep(f, g, n, head, rest);
      assert s == head + rest;
    }
  }

  lemma UndoesAt<A(!new), B>(f: seq<A> -> seq<B>, g: seq<B> -> seq<A>, n: nat, x: seq<A>)
    requires Undoes(f, g, n) && 1 <= |x| <= n
    ensures |f(x)| == |x| + 1 && g(f(x)) == x
  {
  }

  lemma {:induction false} UndoneStep<A, B>(f: seq<A> -> seq<B>, g: seq<B> -> seq<A>, n: nat,
                                            head: seq<A>, rest: seq<A>)
    requires n > 0 && |head| == n && rest != [] && |f(head)| == n + 1 && g(f(head)) == head
    requires ByPieces(f, n, rest) != [] && ByPieces(g, n + 1, ByPieces(f, n, rest)) == rest
    ensures ByPieces(f, n, head + rest) != []
    ensures ByPieces(g, n + 1, ByPieces(f, n, head + rest)) == head + rest
  {
    FirstPiece(f, n, head, rest);
    FirstPiece(g, n + 1, f(head), ByPieces(f, n, rest));
  }

  lemma FirstPiece<A, B>(g: seq<A> -> seq<B>, n: nat, head: seq<A>, rest: seq<A>)
    requires n > 0 && |head| == n && rest != []
    ensures ByPieces(g, n, head + rest) == g(head) + ByPieces(g, n, rest)
  {
    assert (head + rest)[..n] == head && (head + rest)[n..] == rest;
  }

  // ------------------------------------------------------------ sequences

  function Sextets(b: seq<byte>): seq<sextet> { ByPieces(Group, 3, b) }

  function Bytes(v: seq<sextet>): seq<byte> { ByPieces(Ungroup, 4, v) }

  lemma BytesOfSextets(b: seq<byte>)
    ensures Bytes(Sextets(b)) == b
  {
    forall x: seq<byte> | 1 <= |x| <= 3 ensures |Group(x)| == |x| + 1 && Ungroup(Group(x)) == x { UngroupGroup(x); }
    UndoneByPieces(Group, Ungroup, 3, b);
  }

  /** Four sextets per three bytes, rounded up, and never one past a multiple of four. */
  lemma {:induction false} SextetsLength(b: seq<byte>)
    ensures |Sextets(b)| == (4 * |b| + 2) / 3 && |Sextets(b)| % 4 != 1
    decreases |b|
  {
    if |b| > 3 {
      SextetsLength(b[3..]);
      FirstPiece(Group, 3, b[..3], b[3..]);
      assert b[..3] + b[3..] == b;
      assert |Sextets(b)| == 4 + |Sextets(b[3..])|;
    }
  }

  /** Sextets that make whole bytes are those bytes' sextets exactly when canonical. */
  lemma {:induction false} SextetsOfBytes(v: seq<sextet>)
    requires |v| % 4 != 1
    ensures Sextets(Bytes(v)) == v <==> Canonical(v)
    decreases |v|
  {
    if v == [] {
    } else if |v| <= 4 {
      GroupUngroup(v);
    } else {
      SextetsOfBytes(v[4..]);
      FullPiece(v[..4]);
      SextetsOfCut(v[..4], v[4..], Ungroup(v[..4]));
      CutCompares(v, Sextets(Bytes(v[4..])));
      CanonicalOfRest(v);
    }
  }

  lemma FullPiece(v: seq<sextet>)
    requires |v| == 4
    ensures |Ungroup(v)| == 3 && Group(Ungroup(v)) == v
  {
    GroupUngroup(v);
  }

  lemma CanonicalOfRest(v: seq<sextet>)
    requires |v| > 4
    ensures Canonical(v) <==> Canonical(v[4..])
  {
    var rest := v[4..];
    assert |rest| % 4 == |v| % 4 && rest[|rest| - 1] == v[|v| - 1];
  }

  lemma CutCompares(v: seq<sextet>, tail: seq<sextet>)
    requires |v| > 4
    ensures v[..4] + v[4..] == v && (v[..4] + tail == v <==> tail == v[4..])
  {
    assert (v[..4] + tail)[4..] == tail;
    assert v[..4] + v[4..] == v;
  }

  lemma SextetsOfCut(first: seq<sextet>, rest: seq<sextet>, b: seq<byte>)
    requires |first| == 4 && rest != [] && |rest| % 4 != 1 && b == Ungroup(first) && Group(b) == first && |b| == 3
    ensures Sextets(Bytes(first + rest)) == first + Sextets(Bytes(rest))
  {
    var v := first + rest;
    assert v[..4] == first && v[4..] == rest;
    BytesNotEmpty(rest);
    var tail := Bytes(rest);
    assert (b + tail)[..3] == b && (b + tail)[3..] == tail;
  }

  lemma BytesNotEmpty(v: seq<sextet>)
    requires v != [] && |v| % 4 != 1
    ensures Bytes(v) != []
  {
    GroupUngroup(if |v| <= 4 then v else v[..4]);
  }

  // ------------------------------------------------------------ text

  function Chars(v: seq<sextet>): (s: string)
    ensures |s| == |v| && Base64Text(s)
  {
    seq(|v|, i requires 0 <= i < |v| => CharOf(v[i]))
  }

  function ValuesOf(s: string): (v: seq<sextet>)
    requires Base64Text(s)
    ensures |v| == |s|
  {
    seq(|s|, i requires 0 <= i < |s| => ValueOf(s[i]))
  }

  /** EncodeToString. */
  function Encode(b: seq<byte>): (s: string)
    ensures Base64Text(s)
  {
    Chars(Sextets(b))
  }

  /** DecodeString: a character too many to make a byte, or one outside the
      alphabet, is an error. */
  function Decode(s: string): Option<seq<byte>> {
    if !Base64Text(s) || |s| % 4 == 1 then None else Some(Bytes(ValuesOf(s)))
  }

  lemma ValuesOfChars(v: seq<sextet>)
    ensures ValuesOf(Chars(v)) == v
  {
    forall i | 0 <= i < |v| ensures ValueOf(CharOf(v[i])) == v[i] { CharRoundTrip(v[i]); }
  }

  /** Whatever is encoded decodes to itself. */
  lemma DecodeEncode(b: seq<byte>)
    ensures Decode(Encode(b)) == Some(b)
  {
    SextetsLength(b);
    ValuesOfChars(Sextets(b));
    BytesOfSextets(b);
  }

  /** A second text for one byte, its unused bits not zero. */
  function Stray(b: byte): string { Chars([S0(b), S1(b, 0) + 1]) }

  /** It decodes to the byte and is not the byte's encoding. */
  lemma StrayBitsIgnored(b: byte)
    ensures |Stray(b)| == 2 && Base64Text(Stray(b)) && Decode(Stray(b)) == Some([b]) && Stray(b) != Encode([b])
  {
    var v, w: seq<sextet> := [S0(b), S1(b, 0)], [S0(b), S1(b, 0) + 1];
    ValuesOfChars(w);
    ValuesOfChars(v);
    StraySextets(b);
    OneGroup([b]);
    OneUngroup(w);
    assert v[1] != w[1];
  }

  lemma StraySextets(b: byte)
    ensures B0(S0(b), S1(b, 0) + 1) == b
  {
  }

  lemma OneGroup(b: seq<byte>)
    requires |b| == 1
    ensures Sextets(b) == Group(b)
  {
  }

  lemma OneUngroup(v: seq<sextet>)
    requires |v| == 2
    ensures Bytes(v) == Ungroup(v)
  {
  }

  /** And what decodes encodes to the same text exactly when its unused bits are zero. */
  lemma EncodeDecode(s: string)
    requires Decode(s).Some?
    ensures Encode(Decode(s).value) == s <==> Canonical(ValuesOf(s))
  {
    var v := ValuesOf(s);
    SextetsOfBytes(v);
    forall i | 0 <= i < |s| ensures CharOf(v[i]) == s[i] { ValueRoundTrip(s[i]); }
    assert Chars(v) == s;
    if Chars(Sextets(Bytes(v))) == s {
      var w := Sextets(Bytes(v));
      forall i | 0 <= i < |w| ensures w[i] == v[i] {
        CharRoundTrip(w[i]);
        assert Chars(w)[i] == s[i];
      }
      assert w == v;
    }
  }

  // ------------------------------------------------------------ test vectors

  /** Three bytes and what follows encode one after the other. */
  lemma EncodeThree(a: seq<byte>, b: seq<byte>)
    requires |a| == 3
    ensures Encode(a + b) == Encode(a) + Encode(b)
  {
    if b == [] {
      assert a + b == a;
    } else {
      FirstPiece(Group, 3, a, b);
    }
    assert Sextets(a + b) == Sextets(a) + Sextets(b);
    CharsAppend(Sextets(a), Sextets(b));
  }

  lemma CharsAppend(v: seq<sextet>, w: seq<sextet>)
    ensures Chars(v + w) == Chars(v) + Chars(w)
  {
  }

  lemma EncodesTo(b: seq<byte>, v: seq<sextet>, s: string)
    requires 1 <= |b| <= 3 && Group(b) == v && |s| == |v| && forall i :: 0 <= i < |v| ==> CharOf(v[i]) == s[i]
    ensures Encode(b) == s
  {
    assert Sextets(b) == v;
  }

  /** Section 10 of RFC 4648, padding left out. */
  lemma TestVectors()
    ensures Encode([]) == ""
    ensures Encode([0x66]) == "Zg" && Encode([0x66, 0x6f]) == "Zm8" && Encode([0x66, 0x6f, 0x6f]) == "Zm9v"
    ensures Encode([0x66, 0x6f, 0x6f, 0x62]) == "Zm9vYg"
    ensures Encode([0x66, 0x6f, 0x6f, 0x62, 0x61]) == "Zm9vYmE"
    ensures Encode([0x66, 0x6f, 0x6f, 0x62, 0x61, 0x72]) == "Zm9vYmFy"
  {
    EncodesTo([0x66], [25, 32], "Zg");
    EncodesTo([0x66, 0x6f], [25, 38, 60], "Zm8");
    EncodesTo([0x66, 0x6f, 0x6f], [25, 38, 61, 47], "Zm9v");
    EncodesTo([0x62], [24, 32], "Yg");
    EncodesTo([0x62, 0x61], [24, 38, 4], "YmE");
    EncodesTo([0x62, 0x61, 0x72], [24, 38, 5, 50], "YmFy");
    var foo: seq<byte> := [0x66, 0x6f, 0x6f];
    EncodeThree(foo, [0x62]);
    EncodeThree(foo, [0x62, 0x61]);
    EncodeThree(foo, [0x62, 0x61, 0x72]);
    assert foo + [0x62] == [0x66, 0x6f, 0x6f, 0x62];
    assert foo + [0x62, 0x61] == [0x66, 0x6f, 0x6f, 0x62, 0x61];
    assert foo + [0x62, 0x61, 0x72] == [0x66, 0x6f, 0x6f, 0x62, 0x61, 0x72];
  }

  /** The two characters outside letters and digits. */
  lemma LastTwoCharacters()
    ensures Encode([0xfb, 0xff]) == "+/8"
  {
    EncodesTo([0xfb, 0xff], [62, 63, 60], "+/8");
  }
}
