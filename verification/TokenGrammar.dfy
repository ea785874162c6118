/** The token grammar in words: what a name, a placeholder and a minted token are
    made of (crates/plugin-api/src/placeholder.rs). */
module TokenGrammar {
  import opened Common
  import opened Placeholder

  /** ASCII letters and digits, at least one. */
  predicate Word(w: Text) {
    w != "" && forall i :: 0 <= i < |w| ==> '0' <= w[i] <= '9' || 'a' <= w[i] <= 'z' || 'A' <= w[i] <= 'Z'
  }

  predicate Words(ws: seq<Text>) { ws != [] && forall i :: 0 <= i < |ws| ==> Word(ws[i]) }

  /** The words with one underscore between any two. */
  function JoinWords(ws: seq<Text>): Text
    requires ws != []
  {
    if |ws| == 1 then ws[0] else JoinWords(ws[..|ws| - 1]) + "_" + ws[|ws| - 1]
  }

  ghost predicate MadeOf(b: Text, ws: seq<Text>) { Words(ws) && JoinWords(ws) == b }

  ghost predicate OfWords(b: Text) { exists ws :: MadeOf(b, ws) }

  lemma {:induction false} JoinedIsName(ws: seq<Text>)
    requires Words(ws)
    ensures IsName(JoinWords(ws))
  {
    var w := ws[|ws| - 1];
    assert Word(w);
    if |ws| > 1 {
      JoinedIsName(ws[..|ws| - 1]);
      NameJoin(JoinWords(ws[..|ws| - 1]), w);
    }
  }

  lemma {:induction false} NameIsJoined(b: Text) returns (ws: seq<Text>)
    requires IsName(b)
    ensures MadeOf(b, ws)
    decreases |b|
  {
    match SplitLast(b)
    case None =>
      ws := [b];
    case Some(split) =>
      NameSplits(b, split.0, split.1);
      var front := NameIsJoined(split.0);
      ws := front + [split.1];
      assert ws[..|ws| - 1] == front;
  }

  lemma NameSplits(b: Text, a: Text, w: Text)
    requires IsName(b) && b == a + "_" + w && '_' !in w
    ensures IsName(a) && Word(w)
  {
    assert b[|a|] == '_';
    assert forall i :: 0 <= i < |w| ==> b[|a| + 1 + i] == w[i];
    assert forall i :: 0 <= i < |a| ==> b[i] == a[i];
    assert a != "";
    assert b[|a| - 1] != '_';
    assert w != "";
  }

  /** A name is one or more words joined by single underscores. */
  lemma NameIffWords(b: Text)
    ensures IsName(b) <==> OfWords(b)
  {
    if IsName(b) {
      var ws := NameIsJoined(b);
      assert MadeOf(b, ws);
    }
    if OfWords(b) {
      var ws :| MadeOf(b, ws);
      JoinedIsName(ws);
    }
  }

  ghost predicate WordsBetween(token: Text, ws: seq<Text>) {
    Words(ws) && token == "__DO_PRIVATE_" + JoinWords(ws) + "__"
  }

  /** A placeholder is such a name between the prefix and the delimiter. */
  lemma PlaceholderIffWords(token: Text)
    ensures IsPlaceholder(token) <==> exists ws :: WordsBetween(token, ws)
  {
    if IsPlaceholder(token) {
      var ws := NameIsJoined(Inner(token));
      assert token == token[..13] + token[13..|token| - 2] + token[|token| - 2..];
      assert WordsBetween(token, ws);
    }
    if ws :| WordsBetween(token, ws) {
      JoinedIsName(ws);
      PlaceholderOfName(JoinWords(ws));
    }
  }

  ghost predicate MintedAs(token: Text, kind: Text, digits: Text, hex: Text) {
    && token == "__DO_PRIVATE_" + kind + "_" + digits + "_" + hex + "__"
    && IsName(kind)
    && digits != "" && (forall i :: 0 <= i < |digits| ==> '0' <= digits[i] <= '9')
    && |hex| == 16
    && forall i :: 0 <= i < 16 ==> '0' <= hex[i] <= '9' || 'a' <= hex[i] <= 'f' || 'A' <= hex[i] <= 'F'
  }

  /** A minted token is a name, a decimal counter and sixteen hexadecimal digits. */
  lemma MintedIffParts(token: Text)
    ensures IsMinted(token) <==> exists kind, digits, hex :: MintedAs(token, kind, digits, hex)
  {
    if IsMinted(token) {
      var outer := SplitLast(Inner(token)).value;
      var split := SplitLast(outer.0).value;
      assert token == token[..13] + Inner(token) + token[|token| - 2..];
      PartsInOrder(token, split.0, split.1, outer.1);
      assert MintedAs(token, split.0, split.1, outer.1);
    }
    if kind, digits, hex :| MintedAs(token, kind, digits, hex) {
      PartsAreMinted(token, kind, digits, hex);
    }
  }

  lemma PartsInOrder(token: Text, kind: Text, digits: Text, hex: Text)
    requires token == PREFIX + (kind + "_" + digits + "_" + hex) + DELIMITER
    ensures token == "__DO_PRIVATE_" + kind + "_" + digits + "_" + hex + "__"
  {
  }

  lemma PartsAreMinted(token: Text, kind: Text, digits: Text, hex: Text)
    requires MintedAs(token, kind, digits, hex)
    ensures IsMinted(token)
  {
    NameJoin(kind, digits);
    NameJoin(kind + "_" + digits, hex);
    PlaceholderOfName(kind + "_" + digits + "_" + hex);
    assert token == PREFIX + (kind + "_" + digits + "_" + hex) + DELIMITER;
    SplitLastOfJoin(kind + "_" + digits, hex);
    SplitLastOfJoin(kind, digits);
  }

  ghost predicate OneCase(a: char, b: char) {
    || a == b
    || ('a' <= a <= 'z' && b as int == a as int - 'a' as int + 'A' as int)
    || ('a' <= b <= 'z' && a as int == b as int - 'a' as int + 'A' as int)
  }

  /** Two kinds give the same token text exactly when they differ in letter case
      at most. */
  lemma SameUpperIffOneCase(a: Text, b: Text)
    ensures UpperKind(a) == UpperKind(b) <==> |a| == |b| && forall i :: 0 <= i < |a| ==> OneCase(a[i], b[i])
  {
    if UpperKind(a) == UpperKind(b) {
      forall i | 0 <= i < |a| ensures OneCase(a[i], b[i]) { assert UpperKind(a)[i] == UpperKind(b)[i]; }
    }
  }

  /** A printed token: the kind in capitals, the counter without leading zeros and
      the entropy in sixteen capital hexadecimal digits. */
  lemma TokenIsCanonical(kind: Text, counter: nat, entropy: nat)
    ensures Token(kind, counter, entropy)
            == "__DO_PRIVATE_" + UpperKind(kind) + "_" + Decimal(counter) + "_" + Hex(entropy, 16) + "__"
    ensures forall i :: 0 <= i < |kind| ==> OneCase(kind[i], UpperKind(kind)[i]) && !('a' <= UpperKind(kind)[i] <= 'z')
    ensures counter > 0 ==> Decimal(counter)[0] != '0'
    ensures forall i :: 0 <= i < 16 ==> '0' <= Hex(entropy, 16)[i] <= '9' || 'A' <= Hex(entropy, 16)[i] <= 'F'
  {
    PartsInOrder(Token(kind, counter, entropy), UpperKind(kind), Decimal(counter), Hex(entropy, 16));
    if counter > 0 { NoLeadingZero(counter); }
    CapitalDigits(entropy, 16);
  }

  lemma {:induction false} NoLeadingZero(n: nat)
    requires n > 0
    ensures Decimal(n)[0] != '0'
  {
    if n >= 10 { NoLeadingZero(n / 10); }
  }

  lemma {:induction false} CapitalDigits(n: nat, width: nat)
    ensures forall i :: 0 <= i < width ==> '0' <= Hex(n, width)[i] <= '9' || 'A' <= Hex(n, width)[i] <= 'F'
    decreases width
  {
    if width > 0 { CapitalDigits(n / 16, width - 1); }
  }
}
