/** What the scan reports of any file: bare files, and the first line that is no
    record, with its category (crates/audit-file/src/chain.rs). */
module ScanReports {
  import opened Common
  import opened Vault
  import opened Chain
  import opened ChainProofs

  /** A line from before the chain: not empty, not a chained record, and an event. */
  ghost predicate BareLine<E(!new)>(c: Codec<E>, line: Text) {
    line != "" && '\n' !in line && !("{\"v\":" <= line) && c.legacyEvent(line)
  }

  ghost predicate AllBare<E(!new)>(c: Codec<E>, lines: seq<Text>) {
    forall i :: 0 <= i < |lines| ==> BareLine(c, lines[i])
  }

  // ---- Bare files -----------------------------------------------------------------

  lemma {:induction false} ScanOfBare<E(!new)>(c: Codec<E>, lines: seq<Text>)
    requires AllBare(c, lines)
    ensures ScanLines(c, lines) == Ok(Progress(GENESIS, 1, 0, lines != []))
  {
    if lines != [] {
      ScanOfBare(c, lines[..|lines| - 1]);
      assert BareLine(c, lines[|lines| - 1]);
      LooksLike(lines[|lines| - 1]);
    }
  }

  lemma LooksLike(line: Text)
    ensures LooksChained(line) <==> "{\"v\":" <= line
  {
  }

  lemma {:induction false} BareOfScan<E(!new)>(c: Codec<E>, lines: seq<Text>)
    requires ScanLines(c, lines).Ok? && ScanLines(c, lines).value.chainCount == 0 && OneLiners(lines)
    ensures AllBare(c, lines)
  {
    if lines != [] {
      var n := |lines| - 1;
      BareOfScan(c, lines[..n]);
      LooksLike(lines[n]);
      assert '\n' !in lines[n];
      forall i | 0 <= i < n ensures BareLine(c, lines[i]) { assert BareLine(c, lines[..n][i]); }
    }
  }

  /** The lines of a file that ends in a newline. */
  lemma {:induction false} EndedLines(contents: Text) returns (lines: seq<Text>)
    requires contents != "" && contents[|contents| - 1] == '\n'
    ensures lines != [] && OneLiners(lines) && contents == Join(lines) && Segments(contents) == lines + [""]
  {
    var f := Segments(contents);
    lines := f[..|f| - 1];
    JoinOfSegments(contents);
    LastOfSegments(contents);
    assert f == lines + [f[|f| - 1]];
    assert Join(lines) + "" == Join(lines);
    assert Join([]) == "";
    assert forall i :: 0 <= i < |lines| ==> lines[i] == f[i];
  }

  /** A file is reported as legacy with `n` records if and only if it is `n` newline-
      ended lines, none empty, none a chained record, and each an event. */
  lemma {:induction false} LegacyIffBare<E(!new)>(c: Codec<E>, contents: Text, n: nat)
    ensures Verify(c, contents) == Legacy(n) <==>
            exists lines :: contents == Join(lines) && AllBare(c, lines) && |lines| == n && n > 0
  {
    if Verify(c, contents) == Legacy(n) {
      var lines := EndedLines(contents);
      BareOfScan(c, lines);
    }
    if lines :| contents == Join(lines) && AllBare(c, lines) && |lines| == n && n > 0 {
      BareIsLegacy(c, lines);
    }
  }

  lemma {:induction false} BareIsLegacy<E(!new)>(c: Codec<E>, lines: seq<Text>)
    requires AllBare(c, lines) && lines != []
    ensures Verify(c, Join(lines)) == Legacy(|lines|)
  {
    assert OneLiners(lines) by {
      forall i | 0 <= i < |lines| ensures '\n' !in lines[i] { assert BareLine(c, lines[i]); }
    }
    ScanOfBare(c, lines);
    ScanOfJoin(c, lines);
    SegmentsOfJoin(lines);
  }

  // ---- The first line that is no record ---------------------------------------------

  /** What a scan has accepted so far: one chain, or bare lines only. */
  ghost predicate Accepted<E(!new)>(c: Codec<E>, front: seq<Text>) {
    (Chained(c, front) && |front| < U64_MAX) || AllBare(c, front)
  }

  /** How a fault at line `k` is reported. */
  function Reported(k: nat, category: Category): Report {
    if category == UnsupportedVersion then UnknownVersion(k) else Failure(k, category)
  }

  lemma {:induction false} FaultReported<E(!new)>(c: Codec<E>, front: seq<Text>, line: Text, rest: seq<Text>,
                                                  p: Progress,
                                                  category: Category)
    requires OneLiners(front + [line] + rest) && ScanLines(c, front) == Ok(p)
    requires ScanLine(c, p, line, |front| + 1) == Err(Fault(|front| + 1, category))
    ensures Verify(c, Join(front + [line] + rest)) == Reported(|front| + 1, category)
  {
    var lines := front + [line] + rest;
    assert lines[..|front| + 1] == front + [line];
    assert (front + [line])[..|front|] == front;
    ScanStops(c, lines, |front| + 1);
    ScanOfJoin(c, lines);
  }

  /** No chained record is a bare line. */
  lemma {:induction false} OneKind<E(!new)>(c: Codec<E>, front: seq<Text>)
    requires Chained(c, front) && front != []
    ensures !AllBare(c, front)
  {
    ChainedAt(c, front, 0);
    LooksLike(front[0]);
    assert !BareLine(c, front[0]);
  }

  lemma {:induction false} AcceptedScan<E(!new)>(c: Codec<E>, front: seq<Text>) returns (p: Progress)
    requires Accepted(c, front)
    ensures ScanLines(c, front) == Ok(p)
    ensures p.legacy <==> front != [] && !Chained(c, front)
    ensures p.chainCount > 0 <==> front != [] && Chained(c, front)
    ensures Chained(c, front) ==> p == Progress(TailHash(c, front), |front| + 1, |front|, false)
  {
    if Chained(c, front) {
      assert |front| < U64_MAX by { if front != [] { OneKind(c, front); } }
      ScanOfChain(c, front);
      p := Progress(TailHash(c, front), |front| + 1, |front|, false);
    } else {
      ScanOfBare(c, front);
      p := Progress(GENESIS, 1, 0, front != []);
    }
  }

  /** Behind a chain or bare lines: an empty line is reported as truncated, a line that
      is neither a chained record nor, where those may still come, an event as no
      envelope when it begins with a brace and as malformed otherwise, and a chained
      record behind bare lines as no envelope. */
  lemma {:induction false} UnchainedFault<E(!new)>(c: Codec<E>, front: seq<Text>, line: Text, rest: seq<Text>)
    requires Accepted(c, front) && OneLiners(front + [line] + rest)
    ensures var report, k := Verify(c, Join(front + [line] + rest)), |front| + 1;
            && (line == "" ==> report == Failure(k, Truncated))
            && (line != "" && !("{\"v\":" <= line) && (c.legacyEvent(line) ==> front != [] && Chained(c, front)) ==>
                  report == Failure(k, if line[0] == '{' then NotEnvelope else Malformed))
            && ("{\"v\":" <= line && front != [] && !Chained(c, front) ==> report == Failure(k, NotEnvelope))
  {
    var p := AcceptedScan(c, front);
    LooksLike(line);
    var next := ScanLine(c, p, line, |front| + 1);
    if next.Err? && next.error.recordIndex == |front| + 1 {
      FaultReported(c, front, line, rest, p, next.error.category);
    }
  }

  /** The report when `line` follows the chain `front`. */
  function ReportAfter<E(!new)>(c: Codec<E>, front: seq<Text>, line: Text, rest: seq<Text>): Report {
    Verify(c, Join(front + [line] + rest))
  }

  /** A line behind a chain, or the first one. */
  ghost predicate Follows<E(!new)>(c: Codec<E>, front: seq<Text>, line: Text, rest: seq<Text>) {
    Chained(c, front) && |front| < U64_MAX && OneLiners(front + [line] + rest) && "{\"v\":" <= line
  }

  lemma {:induction false} FollowsFault<E(!new)>(c: Codec<E>, front: seq<Text>, line: Text, rest: seq<Text>)
    requires Follows(c, front, line, rest)
    ensures var checked := VerifyLine(c, line, |front| + 1, TailHash(c, front));
            && (checked.Err? ==> ReportAfter(c, front, line, rest) == Reported(|front| + 1, checked.error))
            && (checked.Ok? && |front| + 1 == U64_MAX ==>
                  ReportAfter(c, front, line, rest) == Failure(|front| + 1, SequenceGap))
  {
    var p := AcceptedScan(c, front);
    LooksLike(line);
    var next := ScanLine(c, p, line, |front| + 1);
    if next.Err? { FaultReported(c, front, line, rest, p, next.error.category); }
  }

  /** A line that begins as a record and is none, or one of another version. */
  lemma {:induction false} VersionFault<E(!new)>(c: Codec<E>, front: seq<Text>, line: Text, rest: seq<Text>)
    requires Follows(c, front, line, rest)
    ensures var report, k, d := ReportAfter(c, front, line, rest), |front| + 1, c.decode(line);
            && (d.None? ==> report == if c.version(line) == Some(2) then Failure(k, NotEnvelope) else UnknownVersion(k))
            && (d.Some? && d.value.v != 2 ==> report == UnknownVersion(k))
  {
    FollowsFault(c, front, line, rest);
  }

  /** A record of this version: its number is checked first, then the hash it names,
      then the form of its own hash, its event and what that hash covers; a record
      numbered 2^64 - 1 is refused last. */
  lemma {:induction false} LinkFault<E(!new)>(c: Codec<E>, front: seq<Text>, line: Text, rest: seq<Text>,
                                              env: Envelope<E>)
    requires Follows(c, front, line, rest) && c.decode(line) == Some(env) && env.v == 2
    ensures var report, k, last := ReportAfter(c, front, line, rest), |front| + 1, TailHash(c, front);
            && (env.sequence != k ==> report == Failure(k, SequenceGap))
            && (env.sequence == k && env.previousHash != last ==> report == Failure(k, PreviousHashMismatch))
            && (env.sequence == k && env.previousHash == last && !Hexadecimal(env.recordHash) ==>
                  report == Failure(k, RecordHashMismatch))
  {
    HexadecimalIs(env.recordHash);
    FollowsFault(c, front, line, rest);
  }

  lemma {:induction false} ContentFault<E(!new)>(c: Codec<E>, front: seq<Text>, line: Text, rest: seq<Text>,
                                                 env: Envelope<E>)
    requires Follows(c, front, line, rest) && c.decode(line) == Some(env) && env.v == 2
    requires env.sequence == |front| + 1 && env.previousHash == TailHash(c, front) && Hexadecimal(env.recordHash)
    ensures var report, k, bytes := ReportAfter(c, front, line, rest), |front| + 1, c.eventBytes(env.event);
            && (bytes.None? ==> report == Failure(k, Malformed))
            && (bytes.Some? && env.recordHash != c.hash(TailHash(c, front) + BigEndian(k, 8) + bytes.value) ==>
                  report == Failure(k, RecordHashMismatch))
            && (bytes.Some? && env.recordHash == c.hash(TailHash(c, front) + BigEndian(k, 8) + bytes.value) ==>
                  k == U64_MAX ==> report == Failure(k, SequenceGap))
  {
    HexadecimalIs(env.recordHash);
    FollowsFault(c, front, line, rest);
  }

  /** 64 lower-case hexadecimal characters. */
  predicate Hexadecimal(s: Text) {
    |s| == 64 && forall i :: 0 <= i < 64 ==> s[i] in "0123456789abcdef"
  }

  lemma {:induction false} HexadecimalIs(s: Text)
    ensures Hexadecimal(s) <==> IsHexHash(s)
  {
  }

  /** The number whose bytes these are, the most significant first. */
  function NumberOf(bytes: Text): nat {
    if bytes == "" then 0 else 256 * NumberOf(bytes[..|bytes| - 1]) + bytes[|bytes| - 1] as int
  }

  /** The hashed sequence number is big-endian. */
  lemma {:induction false} BigEndianRoundTrip(n: nat, width: nat, bound: nat)
    requires n < bound && bound == Pow256(width)
    ensures NumberOf(BigEndian(n, width)) == n
    decreases width
  {
    if width > 0 {
      BigEndianRoundTrip(n / 256, width - 1, Pow256(width - 1));
      var s := BigEndian(n, width);
      assert s[..|s| - 1] == BigEndian(n / 256, width - 1);
    }
  }

  // ---- Every file ---------------------------------------------------------------------

  /** Every file that ends in a newline and is refused consists of a front the scan has
      accepted, the line it stops at, and the rest; the fault is reported there. */
  lemma {:induction false} StopsAt<E(!new)>(c: Codec<E>, contents: Text)
    returns (front: seq<Text>, line: Text, rest: seq<Text>)
    requires contents != "" && contents[|contents| - 1] == '\n' && Scan(c, contents).Err?
    ensures OneLiners(front + [line] + rest) && contents == Join(front + [line] + rest) && Accepted(c, front)
    ensures Scan(c, contents).error.recordIndex == |front| + 1
  {
    var lines := EndedLines(contents);
    var n := FirstErr(c, lines);
    front, line, rest := lines[..n], lines[n], lines[n + 1..];
    SplitAt(lines, n);
    AcceptedPrefix(c, front);
  }

  lemma SplitAt(lines: seq<Text>, n: nat)
    requires n < |lines| && OneLiners(lines)
    ensures lines[..n] + [lines[n]] + lines[n + 1..] == lines
    ensures OneLiners(lines[..n])
  {
  }

  lemma {:induction false} FirstErr<E(!new)>(c: Codec<E>, lines: seq<Text>) returns (n: nat)
    requires ScanLines(c, lines).Err?
    ensures n < |lines| && ScanLines(c, lines[..n]).Ok? && ScanLines(c, lines).error.recordIndex == n + 1
  {
    n := |lines| - 1;
    if ScanLines(c, lines[..n]).Err? {
      var m := FirstErr(c, lines[..n]);
      assert lines[..n][..m] == lines[..m];
      n := m;
    }
  }

  lemma {:induction false} AcceptedPrefix<E(!new)>(c: Codec<E>, front: seq<Text>)
    requires ScanLines(c, front).Ok? && OneLiners(front)
    ensures Accepted(c, front)
  {
    ChainOfScan(c, front);
    if ScanLines(c, front).value.chainCount == 0 { BareOfScan(c, front); }
  }

  /** A file that does not end in a newline is truncated, whatever it holds. */
  lemma UnendedIsTruncated<E(!new)>(c: Codec<E>, contents: Text)
    requires contents != "" && contents[|contents| - 1] != '\n'
    ensures Verify(c, contents) == Failure(0, Truncated) && Verify(c, "") == Empty
  {
  }
}
