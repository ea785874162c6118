/** Placeholder tokens: their shape, how they are minted and how they parse
    back (crates/plugin-api/src/placeholder.rs). */
module Placeholder {
  import opened Common

  const PREFIX: Text := "__DO_PRIVATE_"
  const DELIMITER: Text := "__"
  const REDACTED: Text := "__DO_PRIVATE_REDACTED__"

  /** Alphanumerics and single underscores, alphanumeric at both ends. The
      same shape is asked of a token's inner part and of a kind. */
  predicate IsName(b: Text) {
    && |b| > 0
    && IsAlnum(b[0])
    && IsAlnum(b[|b| - 1])
    && (forall i | 0 <= i < |b| :: IsAlnum(b[i]) || b[i] == '_')
    && (forall i | 0 <= i < |b| - 1 :: !(b[i] == '_' && b[i + 1] == '_'))
  }

  predicate IsPlaceholder(token: Text) {
    && |token| >= 15
    && token[..13] == PREFIX
    && token[|token| - 2..] == DELIMITER
    && IsName(token[13..|token| - 2])
  }

  function Inner(token: Text): Text
    requires IsPlaceholder(token)
  {
    token[13..|token| - 2]
  }

  /** `str::rsplit_once('_')`. */
  function SplitLast(s: Text): (r: Option<(Text, Text)>)
    ensures r.Some? ==> s == r.value.0 + "_" + r.value.1 && '_' !in r.value.1
    ensures r.None? ==> '_' !in s
  {
    if s == "" then None
    else if s[|s| - 1] == '_' then Some((s[..|s| - 1], ""))
    else
      var r := SplitLast(s[..|s| - 1]);
      if r.None? then None else Some((r.value.0, r.value.1 + [s[|s| - 1]]))
  }

  predicate IsHexDigit(c: char) { IsDigit(c) || 'a' <= c <= 'f' || 'A' <= c <= 'F' }

  /** `is_minted_placeholder_token`: `__DO_PRIVATE_<KIND>_<COUNTER>_<16_HEX>__`. */
  predicate IsMinted(token: Text) {
    && IsPlaceholder(token)
    && var outer := SplitLast(Inner(token));
    && outer.Some?
    && |outer.value.1| == 16
    && (forall i | 0 <= i < 16 :: IsHexDigit(outer.value.1[i]))
    && var split := SplitLast(outer.value.0);
    && split.Some?
    && IsName(split.value.0)
    && split.value.1 != ""
    && forall i | 0 <= i < |split.value.1| :: IsDigit(split.value.1[i])
  }

  function Upper(c: char): char {
    if 'a' <= c <= 'z' then (c as int - 32) as char else c
  }

  /** `to_ascii_uppercase`. */
  function UpperKind(kind: Text): Text {
    seq(|kind|, i requires 0 <= i < |kind| => Upper(kind[i]))
  }

  function DigitChar(d: nat): (c: char)
    requires d < 16
    ensures IsHexDigit(c) && c != '_' && IsAlnum(c)
    ensures d < 10 ==> IsDigit(c)
  {
    if d < 10 then (48 + d) as char else (55 + d) as char
  }

  function CharDigit(c: char): (d: nat)
    requires IsHexDigit(c)
    ensures d < 16
  {
    if IsDigit(c) then c as int - 48
    else if 'a' <= c <= 'f' then c as int - 87
    else c as int - 55
  }

  /** Decimal rendering of a counter. */
  function Decimal(n: nat): (s: Text)
    ensures s != "" && forall i :: 0 <= i < |s| ==> IsDigit(s[i])
  {
    if n < 10 then [DigitChar(n)] else Decimal(n / 10) + [DigitChar(n % 10)]
  }

  function ParseDecimal(s: Text): nat
    requires forall i :: 0 <= i < |s| ==> IsDigit(s[i])
  {
    if s == "" then 0
    else 10 * ParseDecimal(s[..|s| - 1]) + CharDigit(s[|s| - 1])
  }

  /** Fixed-width uppercase hexadecimal, `{:0width$X}`. */
  function Hex(n: nat, width: nat): (s: Text)
    ensures |s| == width
    ensures forall i :: 0 <= i < |s| ==> IsHexDigit(s[i]) && IsAlnum(s[i])
  {
    if width == 0 then "" else Hex(n / 16, width - 1) + [DigitChar(n % 16)]
  }

  function ParseHex(s: Text): nat
    requires forall i :: 0 <= i < |s| ==> IsHexDigit(s[i])
  {
    if s == "" then 0
    else 16 * ParseHex(s[..|s| - 1]) + CharDigit(s[|s| - 1])
  }

  /** The token text a successful `mint_placeholder` formats. */
  function Token(kind: Text, counter: nat, entropy: nat): Text {
    PREFIX + TokenInner(kind, counter, entropy) + DELIMITER
  }

  function TokenInner(kind: Text, counter: nat, entropy: nat): Text {
    UpperKind(kind) + "_" + Decimal(counter) + "_" + Hex(entropy, 16)
  }

  datatype Parsed = Parsed(kind: Text, counter: nat, entropy: nat)

  function Parse(token: Text): Parsed
    requires IsMinted(token)
  {
    var outer := SplitLast(Inner(token)).value;
    var split := SplitLast(outer.0).value;
    Parsed(split.0, ParseDecimal(split.1), ParseHex(outer.1))
  }

  lemma {:induction false} DecimalRoundTrip(n: nat)
    ensures ParseDecimal(Decimal(n)) == n
  {
    if n >= 10 {
      DecimalRoundTrip(n / 10);
      var s := Decimal(n);
      assert s[..|s| - 1] == Decimal(n / 10);
    } else {
      assert Decimal(n)[..0] == "";
    }
  }

  lemma {:induction false} HexRoundTrip(n: nat, width: nat, bound: nat)
    requires n < bound && bound == Pow16(width)
    ensures ParseHex(Hex(n, width)) == n
    decreases width
  {
    if width > 0 {
      HexRoundTrip(n / 16, width - 1, Pow16(width - 1));
      var s := Hex(n, width);
      assert s[..|s| - 1] == Hex(n / 16, width - 1);
    }
  }

  function Pow16(k: nat): nat { if k == 0 then 1 else 16 * Pow16(k - 1) }

  lemma SixteenHexDigits()
    ensures Pow16(16) == U64_MAX + 1
  {
    assert Pow16(4) == 0x1_0000;
    assert Pow16(8) == 0x1_0000_0000 by { assert Pow16(6) == 0x100_0000; }
    assert Pow16(12) == 0x1_0000_0000_0000 by { assert Pow16(10) == 0x100_0000_0000; }
    assert Pow16(14) == 0x100_0000_0000_0000;
  }

  /** A last separator is found where it was put. */
  lemma {:induction false} SplitLastOfJoin(a: Text, b: Text)
    requires '_' !in b
    ensures SplitLast(a + "_" + b) == Some((a, b))
  {
    var s := a + "_" + b;
    if b == "" {
      assert s[..|s| - 1] == a;
    } else {
      var front := b[..|b| - 1];
      assert s[..|s| - 1] == a + "_" + front;
      SplitLastOfJoin(a, front);
      assert front + [b[|b| - 1]] == b;
    }
  }

  lemma NameJoin(a: Text, b: Text)
    requires IsName(a)
    requires b != "" && forall i :: 0 <= i < |b| ==> IsAlnum(b[i])
    ensures IsName(a + "_" + b)
  {
    var s := a + "_" + b;
    forall i | 0 <= i < |s| ensures IsAlnum(s[i]) || s[i] == '_' {}
    forall i | 0 <= i < |s| - 1 ensures !(s[i] == '_' && s[i + 1] == '_') {
      if i == |a| { assert s[i + 1] == b[0]; }
      if i + 1 == |a| { assert s[i] == a[|a| - 1]; }
    }
  }

  lemma PlaceholderOfName(inner: Text)
    requires IsName(inner)
    ensures IsPlaceholder(PREFIX + inner + DELIMITER)
    ensures Inner(PREFIX + inner + DELIMITER) == inner
  {
    var t := PREFIX + inner + DELIMITER;
    assert t[..13] == PREFIX;
    assert t[|t| - 2..] == DELIMITER;
    assert t[13..|t| - 2] == inner;
  }

  /** A minted token is recognised as minted, and its kind (uppercased),
      counter and entropy can be read back from the text alone. */
  lemma MintParsesBack(kind: Text, counter: nat, entropy: nat)
    requires IsName(kind) && entropy <= U64_MAX
    ensures IsMinted(Token(kind, counter, entropy))
    ensures Parse(Token(kind, counter, entropy)) == Parsed(UpperKind(kind), counter, entropy)
  {
    var upper, digits, hex := UpperKind(kind), Decimal(counter), Hex(entropy, 16);
    NameJoin(upper, digits);
    NameJoin(upper + "_" + digits, hex);
    PlaceholderOfName(TokenInner(kind, counter, entropy));
    SplitLastOfJoin(upper + "_" + digits, hex);
    SplitLastOfJoin(upper, digits);
    DecimalRoundTrip(counter);
    SixteenHexDigits();
    HexRoundTrip(entropy, 16, Pow16(16));
  }

  /** `__DO_PRIVATE_REDACTED__` is a placeholder that no vault resolves. */
  lemma RedactedIsUnminted()
    ensures IsPlaceholder(REDACTED) && !IsMinted(REDACTED)
  {
    assert REDACTED == PREFIX + "REDACTED" + DELIMITER;
    PlaceholderOfName("REDACTED");
    assert Inner(REDACTED) == "REDACTED";
  }
}
