/** UTF-8 (section 3 of RFC 3629) and Unicode white space, against which the byte
    tests of the other modules are proved. */
module Utf8 {
  import opened Common
  import opened Pipeline

  /** A Unicode scalar value. */
  type Scalar = n: nat | n < 0xD800 || 0xE000 <= n < 0x11_0000

  function Tail(n: nat): (c: char)
    ensures IsContinuation(c) && c as int == 0x80 + n % 64
  {
    (0x80 + n % 64) as char
  }

  function Encode(n: Scalar): (r: Text)
    ensures 1 <= |r| <= 4 && !IsContinuation(r[0]) && forall i :: 1 <= i < |r| ==> IsContinuation(r[i])
    ensures (r[0] as int < 0x80 <==> |r| == 1) && (0xC0 <= r[0] as int < 0xE0 <==> |r| == 2)
            && (0xE0 <= r[0] as int < 0xF0 <==> |r| == 3)
  {
    if n < 0x80 then [n as char]
    else if n < 0x800 then [(0xC0 + n / 64) as char, Tail(n)]
    else if n < 0x1_0000 then [(0xE0 + n / 4096) as char, Tail(n / 64), Tail(n)]
    else [(0xF0 + n / 262144) as char, Tail(n / 4096), Tail(n / 64), Tail(n)]
  }

  function EncodeAll(codes: seq<Scalar>): Text {
    if codes == [] then "" else Encode(codes[0]) + EncodeAll(codes[1..])
  }

  /** The first `k` characters end at offset `i`. */
  ghost predicate EndsAt(codes: seq<Scalar>, k: nat, i: int) {
    k <= |codes| && |EncodeAll(codes[..k])| == i
  }

  ghost predicate CodeEnd(codes: seq<Scalar>, i: int) { exists k :: EndsAt(codes, k, i) }

  lemma FirstCode(codes: seq<Scalar>, k: nat)
    requires 0 < k <= |codes|
    ensures EncodeAll(codes[..k]) == Encode(codes[0]) + EncodeAll(codes[1..][..k - 1])
  {
    assert codes[..k][1..] == codes[1..][..k - 1];
  }

  /** The boundaries of an encoded text are the offsets between two characters. */
  lemma {:induction false} BoundaryIffCodeEnd(codes: seq<Scalar>, i: int)
    ensures IsBoundary(EncodeAll(codes), i) <==> CodeEnd(codes, i)
    decreases |codes|
  {
    assert codes[..0] == [];
    assert EndsAt(codes, 0, 0);
    if codes != [] {
      var e, rest := Encode(codes[0]), codes[1..];
      BoundaryIffCodeEnd(rest, i - |e|);
      BoundaryIffCodeEnd(rest, 0);
      assert EndsAt(rest, 0, 0) by { assert rest[..0] == []; }
      BoundaryBehind(e, EncodeAll(rest), i);
      LaterEnds(codes, i);
    }
  }

  lemma LaterEnds(codes: seq<Scalar>, i: int)
    requires codes != []
    ensures CodeEnd(codes, i) <==> i == 0 || CodeEnd(codes[1..], i - |Encode(codes[0])|)
  {
    var rest, j := codes[1..], i - |Encode(codes[0])|;
    assert EndsAt(codes, 0, 0) by { assert codes[..0] == []; }
    if CodeEnd(codes, i) && i != 0 {
      var k: nat :| EndsAt(codes, k, i);
      if k > 0 {
        FirstCode(codes, k);
        assert EndsAt(rest, k - 1, j);
      }
    }
    if CodeEnd(rest, j) {
      var k: nat :| EndsAt(rest, k, j);
      FirstCode(codes, k + 1);
      assert EndsAt(codes, k + 1, i);
    }
  }

  /** Encoded text has the two facts the offset arithmetic relies on. */
  lemma {:induction false} EncodedIsShaped(codes: seq<Scalar>)
    ensures Utf8Shaped(EncodeAll(codes))
  {
    if codes != [] {
      EncodedIsShaped(codes[1..]);
      ShapedBehind(Encode(codes[0]), EncodeAll(codes[1..]));
    }
  }

  lemma ShapedBehind(e: Text, rest: Text)
    requires e != "" && !IsContinuation(e[0]) && (e[0] as int < 0x80 ==> |e| == 1)
    requires forall j :: 1 <= j < |e| ==> IsContinuation(e[j])
    requires Utf8Shaped(rest)
    ensures Utf8Shaped(e + rest)
  {
    var s := e + rest;
    forall i | 0 <= i < |s| && s[i] as int < 0x80 ensures IsBoundary(s, i + 1) {
      BoundaryBehind(e, rest, i + 1);
      if i >= |e| { assert s[i] == rest[i - |e|]; }
    }
  }

  lemma BoundaryBehind(e: Text, rest: Text, i: int)
    requires e != "" && !IsContinuation(e[0]) && forall j :: 1 <= j < |e| ==> IsContinuation(e[j])
    requires IsBoundary(rest, 0)
    ensures IsBoundary(e + rest, i) <==> i == 0 || IsBoundary(rest, i - |e|)
  {
  }

  // ---- White space --------------------------------------------------------

  /** The property `White_Space` of the Unicode character database. */
  predicate White(n: Scalar) {
    9 <= n <= 13 || 0x2000 <= n <= 0x200A
    || n in {0x20, 0x85, 0xA0, 0x1680, 0x2028, 0x2029, 0x202F, 0x205F, 0x3000}
  }

  lemma WhiteWidthOfCode(front: Text, n: Scalar, rest: Text)
    ensures WhiteWidth(front + Encode(n) + rest, |front|) == if White(n) then |Encode(n)| else 0
  {
    var s, i, e := front + Encode(n) + rest, |front|, Encode(n);
    assert forall k :: 0 <= k < |e| ==> s[i + k] == e[k];
    OtherLead(s, i);
    if 0x80 <= n < 0x800 {
      WhiteTwo(s, i, n);
    } else if 0x800 <= n < 0x1_0000 {
      WhiteThree(s, i, n);
    }
  }

  lemma WhiteTwo(s: Text, i: nat, n: nat)
    requires 0x80 <= n < 0x800 && i + 2 <= |s|
    requires s[i] as int == 0xC0 + n / 64 && s[i + 1] as int == 0x80 + n % 64
    ensures WhiteWidth(s, i) == if n == 0x85 || n == 0xA0 then 2 else 0
  {
    BytesTwo(s, i, 0xC2, 0x85);
    BytesTwo(s, i, 0xC2, 0xA0);
    OtherLead(s, i);
  }

  /** Only these four lead bytes, and ASCII, start a white-space character. */
  lemma OtherLead(s: Text, i: nat)
    requires i < |s|
    ensures WhiteWidth(s, i) > 0 ==> s[i] as int < 0x80 || s[i] as int in {0xC2, 0xE1, 0xE2, 0xE3}
    ensures WhiteWidth(s, i) == 3 ==> s[i] as int in {0xE1, 0xE2, 0xE3}
    ensures WhiteWidth(s, i) == 2 ==> s[i] as int == 0xC2
  {
    assert forall bytes: seq<int> :: Bytes(s, i, bytes) && bytes != [] ==> s[i + 0] as int == bytes[0];
  }

  lemma BytesTwo(s: Text, i: nat, a: int, b: int)
    requires i + 2 <= |s|
    ensures Bytes(s, i, [a, b]) <==> s[i] as int == a && s[i + 1] as int == b
  {
    var bytes := [a, b];
    assert Bytes(s, i, bytes) ==> s[i + 0] as int == bytes[0] && s[i + 1] as int == bytes[1];
  }

  lemma BytesThree(s: Text, i: nat, a: int, b: int, c: int)
    requires i + 3 <= |s|
    ensures Bytes(s, i, [a, b, c]) <==> s[i] as int == a && s[i + 1] as int == b && s[i + 2] as int == c
  {
    var bytes := [a, b, c];
    assert Bytes(s, i, bytes) ==>
        s[i + 0] as int == bytes[0] && s[i + 1] as int == bytes[1] && s[i + 2] as int == bytes[2];
  }

  lemma WhiteThree(s: Text, i: nat, n: Scalar)
    requires 0x800 <= n < 0x1_0000 && i + 3 <= |s|
    requires s[i] as int == 0xE0 + n / 4096 && s[i + 1] as int == 0x80 + n / 64 % 64 && s[i + 2] as int == 0x80 + n % 64
    ensures WhiteWidth(s, i) == if White(n) then 3 else 0
  {
    BytesThree(s, i, 0xE1, 0x9A, 0x80);
    BytesThree(s, i, 0xE2, 0x81, 0x9F);
    BytesThree(s, i, 0xE3, 0x80, 0x80);
    BytesTwo(s, i, 0xE2, 0x80);
    BytesTwo(s, i, 0xC2, 0x85);
    BytesTwo(s, i, 0xC2, 0xA0);
  }

  lemma BlankStep(front: Text, n: Scalar, rest: Text)
    ensures BlankFrom(front + (Encode(n) + rest), |front|)
            <==> White(n) && BlankFrom(front + Encode(n) + rest, |front + Encode(n)|)
  {
    ConcatThree(front, Encode(n), rest);
    WhiteWidthOfCode(front, n, rest);
  }

  lemma {:induction false} BlankFromCodes(front: Text, codes: seq<Scalar>)
    ensures BlankFrom(front + EncodeAll(codes), |front|) <==> forall k :: 0 <= k < |codes| ==> White(codes[k])
    decreases |codes|
  {
    if codes != [] {
      var e, rest := Encode(codes[0]), codes[1..];
      BlankFromCodes(front + e, rest);
      BlankStep(front, codes[0], EncodeAll(rest));
      assert forall k :: 0 < k < |codes| ==> codes[k] == rest[k - 1];
    }
  }

  /** A kind counts as blank exactly when every character of it is white space. */
  lemma BlankIffWhite(codes: seq<Scalar>)
    ensures Pipeline.Blank(EncodeAll(codes)) <==> forall k :: 0 <= k < |codes| ==> White(codes[k])
  {
    BlankFromCodes("", codes);
    assert "" + EncodeAll(codes) == EncodeAll(codes);
  }
}
