/** What the chain guarantees: verification characterised, extension, prefix
    characterisation and tamper evidence (crates/audit-file/src/chain.rs). */
module ChainProofs {
  import opened Common
  import opened Vault
  import opened Chain

  /** `line` is a version-2 record with this number that names `previous` and
      whose own hash covers its content. */
  ghost predicate Links<E(!new)>(c: Codec<E>, line: Text, sequence: nat, previous: Text) {
    && LooksChained(line)
    && var d := c.decode(line);
    && d.Some?
    && d.value.v == FORMAT_VERSION
    && d.value.sequence == sequence
    && d.value.previousHash == previous
    && IsHexHash(d.value.recordHash)
    && var bytes := c.eventBytes(d.value.event);
    && bytes.Some?
    && d.value.recordHash == c.hash(Preimage(previous, sequence, bytes.value))
  }

  /** The hash the record after `lines` must name. */
  ghost function TailHash<E(!new)>(c: Codec<E>, lines: seq<Text>): Text {
    if lines == [] then GENESIS
    else
      var d := c.decode(lines[|lines| - 1]);
      if d.Some? then d.value.recordHash else GENESIS
  }

  /** One continuous chain from the genesis hash. */
  ghost predicate Chained<E(!new)>(c: Codec<E>, lines: seq<Text>)
    decreases |lines|
  {
    lines == [] ||
    var n := |lines| - 1;
    Chained(c, lines[..n]) && '\n' !in lines[n] && Links(c, lines[n], n + 1, TailHash(c, lines[..n]))
  }

  lemma {:induction false} ChainedPrefix<E(!new)>(c: Codec<E>, lines: seq<Text>, n: nat)
    requires Chained(c, lines) && n <= |lines|
    ensures Chained(c, lines[..n])
    decreases |lines|
  {
    if n < |lines| {
      ChainedPrefix(c, lines[..|lines| - 1], n);
      assert lines[..|lines| - 1][..n] == lines[..n];
    } else {
      assert lines[..n] == lines;
    }
  }

  lemma {:induction false} ChainedAt<E(!new)>(c: Codec<E>, lines: seq<Text>, i: nat)
    requires Chained(c, lines) && i < |lines|
    ensures '\n' !in lines[i] && Links(c, lines[i], i + 1, TailHash(c, lines[..i]))
  {
    ChainedPrefix(c, lines, i + 1);
    assert lines[..i + 1][..i] == lines[..i];
  }

  lemma {:induction false} ChainedOneLiners<E(!new)>(c: Codec<E>, lines: seq<Text>)
    requires Chained(c, lines)
    ensures OneLiners(lines)
  {
    forall i | 0 <= i < |lines| ensures '\n' !in lines[i] { ChainedAt(c, lines, i); }
  }

  // ---- Verification characterised -------------------------------------------------

  /** The line check accepts exactly the lines that link. */
  lemma {:induction false} CheckedIffLinks<E(!new)>(c: Codec<E>, line: Text, sequence: nat, previous: Text)
    requires LooksChained(line)
    ensures VerifyLine(c, line, sequence, previous).Ok? <==> Links(c, line, sequence, previous)
    ensures VerifyLine(c, line, sequence, previous).Ok? ==>
              VerifyLine(c, line, sequence, previous).value == c.decode(line).value.recordHash
  {
  }

  lemma {:induction false} ScanOfChain<E(!new)>(c: Codec<E>, lines: seq<Text>)
    requires Chained(c, lines) && |lines| < U64_MAX
    ensures ScanLines(c, lines) == Ok(Progress(TailHash(c, lines), |lines| + 1, |lines|, false))
    decreases |lines|
  {
    if lines != [] {
      var n := |lines| - 1;
      ScanOfChain(c, lines[..n]);
      CheckedIffLinks(c, lines[n], n + 1, TailHash(c, lines[..n]));
    }
  }

  /** What an accepted scan says about the lines. */
  lemma {:induction false} ChainOfScan<E(!new)>(c: Codec<E>, lines: seq<Text>)
    requires ScanLines(c, lines).Ok? && OneLiners(lines)
    ensures var p := ScanLines(c, lines).value;
            if p.chainCount > 0 then
              !p.legacy && Chained(c, lines) && p == Progress(TailHash(c, lines), |lines| + 1, |lines|, false)
                && |lines| < U64_MAX
            else p == Progress(GENESIS, 1, 0, lines != [])
    decreases |lines|
  {
    if lines != [] {
      var n := |lines| - 1;
      var p := ScanLines(c, lines[..n]).value;
      ChainOfScan(c, lines[..n]);
      if LooksChained(lines[n]) {
        CheckedIffLinks(c, lines[n], p.expectedSequence, p.previousHash);
        assert '\n' !in lines[n];
        assert p.chainCount == 0 ==> lines[..n] == [];
        assert Chained(c, lines[..n]) && p == Progress(TailHash(c, lines[..n]), n + 1, n, false);
      }
    }
  }

  lemma {:induction false} ScanOfJoin<E(!new)>(c: Codec<E>, lines: seq<Text>)
    requires lines != [] && OneLiners(lines)
    ensures Join(lines) != "" && Join(lines)[|Join(lines)| - 1] == '\n'
    ensures Scan(c, Join(lines)) == match ScanLines(c, lines)
                                    case Err(fault) => Err(fault)
                                    case Ok(p) => Ok(ChainTail(p.chainCount, p.previousHash))
  {
    SegmentsOfJoin(lines);
    assert (lines + [""])[..|lines|] == lines;
  }

  /** A file verifies with `n` records if and only if it is `n` newline-ended
      lines that form one chain, with `n` between 1 and 2^64 - 2. */
  lemma {:induction false} VerifiedIffChain<E(!new)>(c: Codec<E>, contents: Text, n: nat)
    ensures Verify(c, contents) == Verified(n) <==>
            exists lines :: contents == Join(lines) && Chained(c, lines) && |lines| == n && 0 < n < U64_MAX
  {
    if Verify(c, contents) == Verified(n) {
      var lines := LinesOf(c, contents);
      assert contents == Join(lines) && Chained(c, lines);
    }
    forall lines | contents == Join(lines) && Chained(c, lines) && |lines| == n && 0 < n < U64_MAX
      ensures Verify(c, contents) == Verified(n)
    {
      ChainVerifies(c, lines);
    }
  }

  lemma {:induction false} ChainVerifies<E(!new)>(c: Codec<E>, lines: seq<Text>)
    requires Chained(c, lines) && 0 < |lines| < U64_MAX
    ensures Scan(c, Join(lines)) == Ok(ChainTail(|lines|, TailHash(c, lines)))
    ensures Verify(c, Join(lines)) == Verified(|lines|)
  {
    ChainedOneLiners(c, lines);
    ScanOfJoin(c, lines);
    ScanOfChain(c, lines);
  }

  /** The lines of a verified file. */
  lemma {:induction false} LinesOf<E(!new)>(c: Codec<E>, contents: Text) returns (lines: seq<Text>)
    requires Verify(c, contents).Verified?
    ensures lines == FileLines(contents) && contents == Join(lines)
    ensures Chained(c, lines) && |lines| == Verify(c, contents).records && 0 < |lines| < U64_MAX
    ensures Scan(c, contents) == Ok(ChainTail(|lines|, TailHash(c, lines)))
  {
    var segments := Segments(contents);
    lines := segments[..|segments| - 1];
    JoinOfSegments(contents);
    LastOfSegments(contents);
    assert forall i :: 0 <= i < |lines| ==> lines[i] == segments[i];
    ChainOfScan(c, lines);
    assert Join(lines) + "" == Join(lines);
  }

  /** A chain of 2^64 - 1 records no longer verifies: the scan runs out of
      sequence numbers behind the last record. */
  lemma {:induction false} FullChainFails<E(!new)>(c: Codec<E>, lines: seq<Text>)
    requires Chained(c, lines) && |lines| == U64_MAX
    ensures Verify(c, Join(lines)) == Failure(U64_MAX, SequenceGap)
  {
    ChainedOneLiners(c, lines);
    ScanOfJoin(c, lines);
    ScanOfChain(c, lines[..|lines| - 1]);
  }

  // ---- Extension -----------------------------------------------------------------

  /** `envelope_line`, without its final newline. */
  function EnvelopeLine<E(!new)>(c: Codec<E>, event: E, sequence: nat, previous: Text): Option<Text>
    requires sequence <= U64_MAX
  {
    match c.eventBytes(event)
    case None => None
    case Some(bytes) =>
      Some(c.encode(Envelope(FORMAT_VERSION, sequence, previous, c.hash(Preimage(previous, sequence, bytes)), event)))
  }

  /** The next envelope line extends the chain. */
  lemma {:induction false} ExtendChain<E(!new)>(c: Codec<E>, lines: seq<Text>, event: E)
    requires ValidCodec(c) && Chained(c, lines) && |lines| < U64_MAX
    requires EnvelopeLine(c, event, |lines| + 1, TailHash(c, lines)).Some?
    ensures var line := EnvelopeLine(c, event, |lines| + 1, TailHash(c, lines)).value;
            Chained(c, lines + [line]) && '\n' !in line && c.decode(line).Some? && c.decode(line).value.event == event
  {
    var line := EnvelopeLine(c, event, |lines| + 1, TailHash(c, lines)).value;
    var bytes := c.eventBytes(event).value;
    var env := Envelope(FORMAT_VERSION, |lines| + 1, TailHash(c, lines),
                        c.hash(Preimage(TailHash(c, lines), |lines| + 1, bytes)), event);
    assert c.decode(c.encode(env)) == Some(env);
    assert (lines + [line])[..|lines|] == lines;
  }

  /** A file an append may extend: empty, or a verified chain. */
  predicate Extendable<E(!new)>(c: Codec<E>, contents: Text) {
    contents == "" || Verify(c, contents).Verified?
  }

  lemma {:induction false} ExtendableLines<E(!new)>(c: Codec<E>, contents: Text) returns (lines: seq<Text>)
    requires Extendable(c, contents)
    ensures lines == FileLines(contents) && contents == Join(lines)
    ensures Chained(c, lines) && |lines| < U64_MAX
    ensures Scan(c, contents) == Ok(ChainTail(|lines|, TailHash(c, lines)))
  {
    lines := [];
    if contents != "" {
      lines := LinesOf(c, contents);
    }
  }

  /** Appending the next envelope line to a verified file verifies with one more
      record if and only if the new count stays below 2^64 - 1. */
  lemma {:induction false} AppendVerifies<E(!new)>(c: Codec<E>, contents: Text, tail: ChainTail, event: E)
    requires ValidCodec(c) && Extendable(c, contents) && Scan(c, contents) == Ok(tail) && tail.records < U64_MAX
    requires EnvelopeLine(c, event, tail.records + 1, tail.previousHash).Some?
    ensures var file := contents + EnvelopeLine(c, event, tail.records + 1, tail.previousHash).value + "\n";
            (Verify(c, file) == Verified(tail.records + 1)) <==> tail.records + 1 < U64_MAX
  {
    var lines := ExtendableLines(c, contents);
    assert tail == ChainTail(|lines|, TailHash(c, lines));
    LongerChain(c, lines, event);
  }

  lemma {:induction false} LongerChain<E(!new)>(c: Codec<E>, lines: seq<Text>, event: E)
    requires ValidCodec(c) && Chained(c, lines) && |lines| < U64_MAX
    requires EnvelopeLine(c, event, |lines| + 1, TailHash(c, lines)).Some?
    ensures var line := EnvelopeLine(c, event, |lines| + 1, TailHash(c, lines)).value;
            Verify(c, Join(lines) + line + "\n") == Verified(|lines| + 1) <==> |lines| + 1 < U64_MAX
  {
    var line := EnvelopeLine(c, event, |lines| + 1, TailHash(c, lines)).value;
    JoinNext(lines, line);
    assert Chained(c, lines + [line]) by { ExtendChain(c, lines, event); }
    if |lines| + 1 < U64_MAX {
      ChainVerifies(c, lines + [line]);
    } else {
      FullChainFails(c, lines + [line]);
    }
  }

  // ---- Deleted, repeated and reordered lines ---------------------------------------

  /** The first place where the drawn lines leave the original order. */
  function FirstMoved(at: seq<nat>): (m: nat)
    ensures m <= |at| && (forall i :: 0 <= i < m ==> at[i] == i) && (m < |at| ==> at[m] != m)
  {
    if at == [] then 0
    else
      var m := FirstMoved(at[..|at| - 1]);
      if m < |at| - 1 then m else if at[|at| - 1] == |at| - 1 then |at| else |at| - 1
  }

  /** Whatever lines of a chain are kept, in whatever order: the file verifies
      (or is empty) exactly when they are a prefix of the chain, and otherwise
      the first moved line is reported as a sequence gap. */
  lemma {:induction false} DrawnLinesVerify<E(!new)>(c: Codec<E>, lines: seq<Text>, at: seq<nat>)
    requires Chained(c, lines) && |lines| < U64_MAX && forall i :: 0 <= i < |at| ==> at[i] < |lines|
    ensures var m := FirstMoved(at);
            Verify(c, Join(Pick(lines, at)))
            == if at == [] then Empty
               else if forall i :: 0 <= i < |at| ==> at[i] == i then Verified(|at|)
               else Failure(m + 1, SequenceGap)
  {
    var m, drawn := FirstMoved(at), Pick(lines, at);
    if at != [] {
      DrawnOneLiners(c, lines, at);
      ScanOfJoin(c, drawn);
      UnmovedScan(c, lines, at, m);
      if m < |at| {
        MovedLine(c, lines, at, m);
      } else {
        assert drawn[..m] == drawn;
      }
    }
  }

  lemma {:induction false} UnmovedScan<E(!new)>(c: Codec<E>, lines: seq<Text>, at: seq<nat>, m: nat)
    requires Chained(c, lines) && |lines| < U64_MAX && (forall i :: 0 <= i < |at| ==> at[i] < |lines|)
    requires m <= |at| && forall i :: 0 <= i < m ==> at[i] == i
    ensures m <= |lines|
    ensures ScanLines(c, Pick(lines, at)[..m]) == Ok(Progress(TailHash(c, lines[..m]), m + 1, m, false))
  {
    assert m > 0 ==> at[m - 1] == m - 1;
    assert Pick(lines, at)[..m] == lines[..m];
    ChainedPrefix(c, lines, m);
    ScanOfChain(c, lines[..m]);
  }

  lemma {:induction false} DrawnOneLiners<E(!new)>(c: Codec<E>, lines: seq<Text>, at: seq<nat>)
    requires Chained(c, lines) && forall i :: 0 <= i < |at| ==> at[i] < |lines|
    ensures OneLiners(Pick(lines, at))
  {
    ChainedOneLiners(c, lines);
  }

  lemma {:induction false} MovedLine<E(!new)>(c: Codec<E>, lines: seq<Text>, at: seq<nat>, m: nat)
    requires Chained(c, lines) && m < |at| && m <= |lines| && (forall i :: 0 <= i < |at| ==> at[i] < |lines|)
             && at[m] != m
    requires ScanLines(c, Pick(lines, at)[..m]) == Ok(Progress(TailHash(c, lines[..m]), m + 1, m, false))
    ensures ScanLines(c, Pick(lines, at)) == Err(Fault(m + 1, SequenceGap))
  {
    ChainedAt(c, lines, at[m]);
    ScanFailsAt(c, Pick(lines, at), m, Progress(TailHash(c, lines[..m]), m + 1, m, false), Fault(m + 1, SequenceGap));
  }

  lemma {:induction false} ScanFailsAt<E(!new)>(c: Codec<E>, lines: seq<Text>, m: nat, p: Progress, fault: Fault)
    requires m < |lines| && ScanLines(c, lines[..m]) == Ok(p) && ScanLine(c, p, lines[m], m + 1) == Err(fault)
    ensures ScanLines(c, lines) == Err(fault)
  {
    assert lines[..m + 1][..m] == lines[..m];
    ScanStops(c, lines, m + 1);
  }

  // ---- Tamper evidence ---------------------------------------------------------------

  lemma {:induction false} BigEndianInjective(a: nat, b: nat, width: nat, bound: nat)
    requires bound == Pow256(width) && a < bound && b < bound && BigEndian(a, width) == BigEndian(b, width)
    ensures a == b
    decreases width
  {
    if width > 0 {
      var s, t := BigEndian(a, width), BigEndian(b, width);
      assert s[width - 1] == t[width - 1] && s[..width - 1] == t[..width - 1];
      assert BigEndian(a / 256, width - 1) == s[..width - 1] && BigEndian(b / 256, width - 1) == t[..width - 1];
      BigEndianInjective(a / 256, b / 256, width - 1, Pow256(width - 1));
    }
  }

  function Pow256(k: nat): nat { if k == 0 then 1 else 256 * Pow256(k - 1) }

  lemma EightBytes()
    ensures Pow256(8) == U64_MAX + 1
  {
    assert Pow256(2) == 0x1_0000;
    assert Pow256(4) == 0x1_0000_0000;
    assert Pow256(6) == 0x1_0000_0000_0000;
  }

  /** The fixed widths make a preimage split in one way only. */
  lemma {:induction false} PreimageSplits(p: Text, i: U64, x: Text, q: Text, j: U64, y: Text)
    requires |p| == |q| == 64 && Preimage(p, i, x) == Preimage(q, j, y)
    ensures p == q && i == j && x == y
  {
    var s, t := Preimage(p, i, x), Preimage(q, j, y);
    assert s[..64] == p && t[..64] == q;
    assert s[64..72] == BigEndian(i, 8) && t[64..72] == BigEndian(j, 8);
    assert s[72..] == x && t[72..] == y;
    EightBytes();
    BigEndianInjective(i, j, 8, Pow256(8));
  }

  /** The preimages hashed in a chain. */
  ghost function Preimages<E(!new)>(c: Codec<E>, lines: seq<Text>): set<Text>
    decreases |lines|
  {
    if lines == [] then {}
    else
      var n := |lines| - 1;
      var d := c.decode(lines[n]);
      Preimages(c, lines[..n]) +
      if d.Some? && c.eventBytes(d.value.event).Some?
      then {Preimage(TailHash(c, lines[..n]), n + 1, c.eventBytes(d.value.event).value)} else {}
  }

  /** The hash does not collide on the texts actually hashed. */
  ghost predicate CollisionFree(hash: Text -> Text, xs: set<Text>) {
    forall x, y :: x in xs && y in xs && hash(x) == hash(y) ==> x == y
  }

  ghost predicate InjectiveBytes<E(!new)>(c: Codec<E>) {
    forall a, b :: c.eventBytes(a).Some? && c.eventBytes(a) == c.eventBytes(b) ==> a == b
  }

  function EventOf<E(!new)>(c: Codec<E>, line: Text): Option<E> {
    var d := c.decode(line);
    if d.Some? then Some(d.value.event) else None
  }

  ghost predicate SameEvents<E(!new)>(c: Codec<E>, a: seq<Text>, b: seq<Text>) {
    |a| == |b| && forall i :: 0 <= i < |a| ==> EventOf(c, a[i]) == EventOf(c, b[i])
  }

  lemma {:induction false} TailHashWidth<E(!new)>(c: Codec<E>, lines: seq<Text>)
    requires Chained(c, lines)
    ensures |TailHash(c, lines)| == 64
  {
  }

  /** The last hash of a chain is the hash of its last preimage. */
  lemma {:induction false} LastPreimage<E(!new)>(c: Codec<E>, lines: seq<Text>) returns (event: E, bytes: Text)
    requires Chained(c, lines) && lines != []
    ensures var n := |lines| - 1;
            && EventOf(c, lines[n]) == Some(event) && c.eventBytes(event) == Some(bytes)
            && n + 1 <= U64_MAX && |TailHash(c, lines[..n])| == 64
            && TailHash(c, lines) == c.hash(Preimage(TailHash(c, lines[..n]), n + 1, bytes))
            && Preimage(TailHash(c, lines[..n]), n + 1, bytes) in Preimages(c, lines)
  {
    var n := |lines| - 1;
    TailHashWidth(c, lines[..n]);
    event := c.decode(lines[n]).value.event;
    bytes := c.eventBytes(event).value;
  }

  /** Equal last hashes: the last records agree, and so do the chains before. */
  lemma {:induction false} LastAgree<E(!new)>(c: Codec<E>, a: seq<Text>, b: seq<Text>)
    requires Chained(c, a) && Chained(c, b) && a != [] && b != []
    requires InjectiveBytes(c) && CollisionFree(c.hash, Preimages(c, a) + Preimages(c, b))
    requires TailHash(c, a) == TailHash(c, b)
    ensures |a| == |b| && EventOf(c, a[|a| - 1]) == EventOf(c, b[|b| - 1])
    ensures TailHash(c, a[..|a| - 1]) == TailHash(c, b[..|b| - 1])
  {
    var e, x := LastPreimage(c, a);
    var f, y := LastPreimage(c, b);
    PreimageSplits(TailHash(c, a[..|a| - 1]), |a|, x, TailHash(c, b[..|b| - 1]), |b|, y);
  }

  lemma {:induction false} OneMoreEvent<E(!new)>(c: Codec<E>, a: seq<Text>, b: seq<Text>)
    requires |a| == |b| > 0 && SameEvents(c, a[..|a| - 1], b[..|a| - 1])
    requires EventOf(c, a[|a| - 1]) == EventOf(c, b[|a| - 1])
    ensures SameEvents(c, a, b)
  {
    var n := |a| - 1;
    forall i | 0 <= i < n ensures EventOf(c, a[i]) == EventOf(c, b[i]) {
      assert a[..n][i] == a[i] && b[..n][i] == b[i];
    }
  }

  /** Two chains with the same last hash agree backwards, record by record. */
  lemma {:induction false} TailsAgree<E(!new)>(c: Codec<E>, a: seq<Text>, b: seq<Text>)
    requires Chained(c, a) && Chained(c, b) && a != [] && b != []
    requires InjectiveBytes(c) && CollisionFree(c.hash, Preimages(c, a) + Preimages(c, b))
    requires TailHash(c, a) == TailHash(c, b)
    ensures SameEvents(c, a, b)
    decreases |a|
  {
    LastAgree(c, a, b);
    var n := |a| - 1;
    if n > 0 {
      TailsAgree(c, a[..n], b[..n]);
      OneMoreEvent(c, a, b);
    }
  }

  /** The lines of a newline-ended file. */
  function FileLines(contents: Text): seq<Text> {
    var segments := Segments(contents);
    segments[..|segments| - 1]
  }

  /** Tamper evidence: two verified files with the same last hash hold the same
      number of records and the same events in the same order, provided the hash
      does not collide on the texts that were hashed for these very files. */
  lemma {:induction false} TamperEvident<E(!new)>(c: Codec<E>, a: Text, b: Text)
    requires Verify(c, a).Verified? && Verify(c, b).Verified? && InjectiveBytes(c)
    requires CollisionFree(c.hash, Preimages(c, FileLines(a)) + Preimages(c, FileLines(b)))
    requires Scan(c, a).Ok? && Scan(c, b).Ok? && Scan(c, a).value.previousHash == Scan(c, b).value.previousHash
    ensures Verify(c, a) == Verify(c, b) && SameEvents(c, FileLines(a), FileLines(b))
  {
    var linesA := LinesOf(c, a);
    var linesB := LinesOf(c, b);
    TailsAgree(c, linesA, linesB);
  }

  // ---- One edited record ------------------------------------------------------------

  /** The bytes hashed for a record that links. */
  function HashedBytes<E(!new)>(c: Codec<E>, line: Text): Option<Text> {
    match c.decode(line)
    case None => None
    case Some(env) => c.eventBytes(env.event)
  }

  /** `line` stands in for record `i`: same place in the chain, other event bytes. */
  ghost predicate Edits<E(!new)>(c: Codec<E>, lines: seq<Text>, i: nat, line: Text)
    requires i < |lines|
  {
    && LooksChained(line) && '\n' !in line && c.decode(line).Some?
    && var env := c.decode(line).value;
    && env.v == FORMAT_VERSION && env.sequence == i + 1 && env.previousHash == TailHash(c, lines[..i])
    && IsHexHash(env.recordHash)
    && HashedBytes(c, line).Some? && HashedBytes(c, line) != HashedBytes(c, lines[i])
  }

  /** The edited record names its own content. */
  ghost predicate Rehashed<E(!new)>(c: Codec<E>, lines: seq<Text>, i: nat, line: Text)
    requires i < |lines| && Edits(c, lines, i, line)
  {
    c.decode(line).value.recordHash == c.hash(Preimage(TailHash(c, lines[..i]), i + 1, HashedBytes(c, line).value))
  }

  /** What was hashed for record `i` of a chain. */
  lemma {:induction false} HashedAt<E(!new)>(c: Codec<E>, lines: seq<Text>, i: nat)
    requires Chained(c, lines) && i < |lines|
    ensures HashedBytes(c, lines[i]).Some? && i + 1 <= U64_MAX && |TailHash(c, lines[..i])| == 64
    ensures TailHash(c, lines[..i + 1])
            == c.hash(Preimage(TailHash(c, lines[..i]), i + 1, HashedBytes(c, lines[i]).value))
  {
    ChainedAt(c, lines, i);
    ChainedPrefix(c, lines, i);
    TailHashWidth(c, lines[..i]);
    assert lines[..i + 1][i] == lines[i];
  }

  /** A rehashed edit changes the hash the next record must name. */
  lemma {:induction false} EditChangesHash<E(!new)>(c: Codec<E>, lines: seq<Text>, i: nat, line: Text)
    requires Chained(c, lines) && i < |lines| && Edits(c, lines, i, line) && Rehashed(c, lines, i, line)
    requires HashedBytes(c, lines[i]).Some?
    requires CollisionFree(c.hash, {Preimage(TailHash(c, lines[..i]), i + 1, HashedBytes(c, lines[i]).value),
                                    Preimage(TailHash(c, lines[..i]), i + 1, HashedBytes(c, line).value)})
    ensures c.decode(line).value.recordHash != TailHash(c, lines[..i + 1])
  {
    HashedAt(c, lines, i);
    var p, x, y := TailHash(c, lines[..i]), HashedBytes(c, lines[i]).value, HashedBytes(c, line).value;
    if c.hash(Preimage(p, i + 1, x)) == c.hash(Preimage(p, i + 1, y)) {
      PreimageSplits(p, i + 1, x, p, i + 1, y);
    }
  }

  lemma {:induction false} ScanOfEdit<E(!new)>(c: Codec<E>, hash: Text, lines: seq<Text>, i: nat, line: Text)
    requires i < |lines| < U64_MAX && Edits(c, lines, i, line) && hash == TailHash(c, lines[..i])
    ensures ScanLine(c, Progress(hash, i + 1, i, false), line, i + 1)
            == if Rehashed(c, lines, i, line) then Ok(Progress(c.decode(line).value.recordHash, i + 2, i + 1, false))
               else Err(Fault(i + 1, RecordHashMismatch))
  {
  }

  /** The scan up to the edited record, and what it makes of that record. */
  lemma {:induction false} ScanToEdit<E(!new)>(c: Codec<E>, lines: seq<Text>, i: nat, line: Text)
    requires Chained(c, lines) && |lines| < U64_MAX && i < |lines| && Edits(c, lines, i, line)
    ensures var p := Progress(TailHash(c, lines[..i]), i + 1, i, false);
            && ScanLines(c, lines[i := line][..i]) == Ok(p)
            && ScanLine(c, p, line, i + 1) == if Rehashed(c, lines, i, line)
                                              then Ok(Progress(c.decode(line).value.recordHash, i + 2, i + 1, false))
                                              else Err(Fault(i + 1, RecordHashMismatch))
  {
    ChainedPrefix(c, lines, i);
    ScanOfChain(c, lines[..i]);
    assert lines[i := line][..i] == lines[..i];
    ScanOfEdit(c, TailHash(c, lines[..i]), lines, i, line);
  }

  lemma {:induction false} ScanPastEdit<E(!new)>(c: Codec<E>, lines: seq<Text>, i: nat, line: Text)
    requires Chained(c, lines) && |lines| < U64_MAX && i < |lines| && Edits(c, lines, i, line)
             && Rehashed(c, lines, i, line)
    ensures ScanLines(c, lines[i := line][..i + 1])
            == Ok(Progress(c.decode(line).value.recordHash, i + 2, i + 1, false))
  {
    ScanToEdit(c, lines, i, line);
    var after := lines[i := line][..i + 1];
    assert after[..i] == lines[i := line][..i] && after[i] == line;
  }

  /** Editing one record is located: an edit that keeps the old record hash is
      reported at the record itself, one that renews the hash at the next record,
      and only a renewed last record goes unnoticed. */
  lemma {:induction false} EditedRecord<E(!new)>(c: Codec<E>, lines: seq<Text>, i: nat, line: Text)
    requires Chained(c, lines) && |lines| < U64_MAX && i < |lines| && Edits(c, lines, i, line)
    requires HashedBytes(c, lines[i]).Some?
    requires CollisionFree(c.hash, {Preimage(TailHash(c, lines[..i]), i + 1, HashedBytes(c, lines[i]).value),
                                    Preimage(TailHash(c, lines[..i]), i + 1, HashedBytes(c, line).value)})
    ensures Verify(c, Join(lines[i := line]))
            == if !Rehashed(c, lines, i, line) then Failure(i + 1, RecordHashMismatch)
               else if i + 1 < |lines| then Failure(i + 2, PreviousHashMismatch)
               else Verified(|lines|)
  {
    var after := lines[i := line];
    ChainedOneLiners(c, lines);
    ScanOfJoin(c, after);
    ScanToEdit(c, lines, i, line);
    if !Rehashed(c, lines, i, line) {
      ScanFailsAt(c, after, i, Progress(TailHash(c, lines[..i]), i + 1, i, false), Fault(i + 1, RecordHashMismatch));
    } else {
      ScanPastEdit(c, lines, i, line);
      var p := Progress(c.decode(line).value.recordHash, i + 2, i + 1, false);
      if i + 1 < |lines| {
        EditChangesHash(c, lines, i, line);
        ChainedAt(c, lines, i + 1);
        ForeignPrevious(c, lines[i + 1], i + 2, TailHash(c, lines[..i + 1]), p.previousHash, i + 1);
        ScanFailsAt(c, after, i + 1, p, Fault(i + 2, PreviousHashMismatch));
      } else {
        assert after[..i + 1] == after;
      }
    }
  }

  /** A record in sequence that names another hash. */
  lemma {:induction false} ForeignPrevious<E(!new)>(c: Codec<E>, line: Text, own: nat, ownPrevious: Text,
                                                    previous: Text, count: nat)
    requires Links(c, line, own, ownPrevious) && previous != ownPrevious
    ensures ScanLine(c, Progress(previous, own, count, false), line, own) == Err(Fault(own, PreviousHashMismatch))
  {
  }
}
