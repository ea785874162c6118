/** The audit record chain: envelopes, hashing, the full scan and the append
    point (crates/audit-file/src/chain.rs). JSON and SHA-256 are parameters. */
module Chain {
  import opened Common
  import opened Vault

  const FORMAT_VERSION: nat := 2

  /** 64 zero characters. */
  const GENESIS: Text := Zeros(64)

  function Zeros(n: nat): (s: Text)
    ensures |s| == n && forall i :: 0 <= i < n ==> s[i] == '0'
  {
    if n == 0 then "" else Zeros(n - 1) + "0"
  }

  datatype Envelope<+E> = Envelope(v: nat, sequence: U64, previousHash: Text, recordHash: Text, event: E)

  /** The serialization and the hash the chain is built with. */
  datatype Codec<!E(!new)> = Codec(
    encode: Envelope<E> -> Text,
    decode: Text -> Option<Envelope<E>>,
    version: Text -> Option<nat>,
    legacyEvent: Text -> bool,
    eventBytes: E -> Option<Text>,
    hash: Text -> Text)

  predicate IsHexHash(text: Text) {
    |text| == 64 && forall i :: 0 <= i < 64 ==> IsDigit(text[i]) || 'a' <= text[i] <= 'f'
  }

  predicate LooksChained(line: Text) { |line| >= 5 && line[..5] == "{\"v\":" }

  /** Envelopes decode to what was encoded, on one line with the version first;
      hashes are hexadecimal. */
  ghost predicate ValidCodec<E(!new)>(c: Codec<E>) {
    && (forall e :: c.decode(c.encode(e)) == Some(e) && LooksChained(c.encode(e)) && '\n' !in c.encode(e))
    && (forall x :: IsHexHash(c.hash(x)))
  }

  /** Fixed-width big-endian bytes. */
  function BigEndian(n: nat, width: nat): (s: Text)
    ensures |s| == width
  {
    if width == 0 then "" else BigEndian(n / 256, width - 1) + [(n % 256) as char]
  }

  /** What is hashed: `previous_hash || sequence_be8 || event_bytes`. */
  function Preimage(previousHash: Text, sequence: nat, eventBytes: Text): Text {
    previousHash + BigEndian(sequence, 8) + eventBytes
  }

  datatype Category =
    | Malformed | NotEnvelope | UnsupportedVersion | SequenceGap
    | PreviousHashMismatch | RecordHashMismatch | Truncated

  datatype Report =
    | Empty
    | Verified(records: nat)
    | Legacy(records: nat)
    | UnknownVersion(recordIndex: nat)
    | Failure(recordIndex: nat, category: Category)

  /** Where and why a scan stops. */
  datatype Fault = Fault(recordIndex: nat, category: Category)

  /** The number of chained records and the hash the next one must name. */
  datatype ChainTail = ChainTail(records: nat, previousHash: Text)

  /** The category of a line that does not decode. */
  function DecodeFault<E(!new)>(c: Codec<E>, line: Text): Category {
    if c.version(line) == Some(FORMAT_VERSION) then NotEnvelope else UnsupportedVersion
  }

  /** `verify_envelope_line`: the record hash, or the first failing check. */
  function VerifyLine<E(!new)>(c: Codec<E>, line: Text, expectedSequence: nat,
                               expectedPrevious: Text): Result<Text, Category> {
    match c.decode(line)
    case None => Err(DecodeFault(c, line))
    case Some(env) =>
      if env.v != FORMAT_VERSION then Err(UnsupportedVersion)
      else if env.sequence != expectedSequence then Err(SequenceGap)
      else if env.previousHash != expectedPrevious then Err(PreviousHashMismatch)
      else if !IsHexHash(env.recordHash) then Err(RecordHashMismatch)
      else
        match c.eventBytes(env.event)
        case None => Err(Malformed)
        case Some(bytes) =>
          var recomputed := c.hash(Preimage(env.previousHash, env.sequence, bytes));
          if recomputed != env.recordHash then Err(RecordHashMismatch) else Ok(recomputed)
  }

  /** `append_point`: the tail a last line stands for. */
  function AppendPoint<E(!new)>(c: Codec<E>, line: Text): Result<ChainTail, Category> {
    match c.decode(line)
    case None => Err(DecodeFault(c, line))
    case Some(env) =>
      if env.v != FORMAT_VERSION then Err(UnsupportedVersion)
      else if !IsHexHash(env.previousHash) || !IsHexHash(env.recordHash) then Err(RecordHashMismatch)
      else
        match c.eventBytes(env.event)
        case None => Err(Malformed)
        case Some(bytes) =>
          if c.hash(Preimage(env.previousHash, env.sequence, bytes)) != env.recordHash then Err(RecordHashMismatch)
          else Ok(ChainTail(env.sequence, env.recordHash))
  }

  // ---- Lines ------------------------------------------------------------------

  /** All segments between newlines, as `split` gives them. */
  function Segments(s: Text): (r: seq<Text>)
    ensures r != []
  {
    if s == "" then [""]
    else
      var front := Segments(s[..|s| - 1]);
      if s[|s| - 1] == '\n' then front + [""]
      else front[..|front| - 1] + [front[|front| - 1] + [s[|s| - 1]]]
  }

  lemma {:induction false} SegmentsOfLine(s: Text, line: Text)
    requires '\n' !in line
    ensures var f := Segments(s); Segments(s + line) == f[..|f| - 1] + [f[|f| - 1] + line]
  {
    var f := Segments(s);
    if line == "" {
      assert s + line == s && f[|f| - 1] + line == f[|f| - 1];
    } else {
      var front := line[..|line| - 1];
      SegmentsOfLine(s, front);
      assert (s + line)[..|s + line| - 1] == s + front;
      assert f[|f| - 1] + front + [line[|line| - 1]] == f[|f| - 1] + line;
    }
  }

  /** Splitting a joined file gives its lines and one empty segment. */
  lemma {:induction false} SegmentsOfJoin(lines: seq<Text>)
    requires OneLiners(lines)
    ensures Segments(Join(lines)) == lines + [""]
  {
    if lines != [] {
      var n := |lines| - 1;
      SegmentsOfJoin(lines[..n]);
      SegmentsOfLine(Join(lines[..n]), lines[n]);
      var s := Join(lines[..n]) + lines[n];
      assert (s + "\n")[..|s|] == s;
      assert "" + lines[n] == lines[n];
      assert Segments(s) == lines[..n] + [lines[n]] == lines;
    }
  }

  lemma {:induction false} JoinNext(lines: seq<Text>, line: Text)
    ensures Join(lines + [line]) == Join(lines) + line + "\n"
  {
    assert (lines + [line])[..|lines|] == lines;
  }

  /** One more character. */
  lemma {:induction false} SegmentsNext(s: Text, x: char)
    requires var f := Segments(s); OneLiners(f) && s == Join(f[..|f| - 1]) + f[|f| - 1]
    ensures var g := Segments(s + [x]); OneLiners(g) && s + [x] == Join(g[..|g| - 1]) + g[|g| - 1]
  {
    var f, g := Segments(s), Segments(s + [x]);
    assert (s + [x])[..|s|] == s;
    if x == '\n' {
      assert g[..|g| - 1] == f;
      JoinLast(f);
    } else {
      assert g[..|g| - 1] == f[..|f| - 1];
    }
  }

  lemma {:induction false} JoinLast(lines: seq<Text>)
    requires lines != []
    ensures Join(lines) == Join(lines[..|lines| - 1]) + lines[|lines| - 1] + "\n"
  {
    assert lines == lines[..|lines| - 1] + [lines[|lines| - 1]];
    JoinNext(lines[..|lines| - 1], lines[|lines| - 1]);
  }

  /** Every file that ends in a newline is a join of lines. */
  lemma {:induction false} JoinOfSegments(s: Text)
    ensures var f := Segments(s); OneLiners(f) && s == Join(f[..|f| - 1]) + f[|f| - 1]
  {
    if s != "" {
      JoinOfSegments(s[..|s| - 1]);
      SegmentsNext(s[..|s| - 1], s[|s| - 1]);
      assert s == s[..|s| - 1] + [s[|s| - 1]];
    }
  }

  // ---- The scan -----------------------------------------------------------------

  datatype Progress = Progress(previousHash: Text, expectedSequence: nat, chainCount: nat, legacy: bool)

  const START := Progress(GENESIS, 1, 0, false)

  /** The category of a line that is no chained record. */
  function OtherLine(line: Text): Category {
    if line != "" && line[0] == '{' then NotEnvelope else Malformed
  }

  /** One line of the scan; `index` is its 1-based position. */
  function ScanLine<E(!new)>(c: Codec<E>, p: Progress, line: Text, index: nat): Result<Progress, Fault> {
    if line == "" then Err(Fault(index, Truncated))
    else if LooksChained(line) then
      if p.legacy then Err(Fault(index, NotEnvelope))
      else
        match VerifyLine(c, line, p.expectedSequence, p.previousHash)
        case Err(category) => Err(Fault(index, category))
        case Ok(hash) =>
          if p.expectedSequence >= U64_MAX then Err(Fault(index, SequenceGap))
          else Ok(Progress(hash, p.expectedSequence + 1, p.chainCount + 1, false))
    else if p.chainCount > 0 || !c.legacyEvent(line) then Err(Fault(index, OtherLine(line)))
    else Ok(p.(legacy := true))
  }

  function ScanLines<E(!new)>(c: Codec<E>, lines: seq<Text>): Result<Progress, Fault> {
    if lines == [] then Ok(START)
    else
      match ScanLines(c, lines[..|lines| - 1])
      case Err(fault) => Err(fault)
      case Ok(p) => ScanLine(c, p, lines[|lines| - 1], |lines|)
  }

  /** `scan` on a whole file. */
  function Scan<E(!new)>(c: Codec<E>, contents: Text): Result<ChainTail, Fault> {
    if contents == "" then Ok(ChainTail(0, GENESIS))
    else if contents[|contents| - 1] != '\n' then Err(Fault(0, Truncated))
    else
      var segments := Segments(contents);
      match ScanLines(c, segments[..|segments| - 1])
      case Err(fault) => Err(fault)
      case Ok(p) => Ok(ChainTail(p.chainCount, p.previousHash))
  }

  /** `verify`. */
  function Verify<E(!new)>(c: Codec<E>, contents: Text): Report {
    match Scan(c, contents)
    case Ok(tail) =>
      if contents == "" then Empty
      else if tail.records == 0 then Legacy(|Segments(contents)| - 1)
      else Verified(tail.records)
    case Err(Fault(index, UnsupportedVersion)) => UnknownVersion(index)
    case Err(Fault(index, category)) => Failure(index, category)
  }

  lemma {:induction false} ScanStops<E(!new)>(c: Codec<E>, lines: seq<Text>, n: nat)
    requires n <= |lines| && ScanLines(c, lines[..n]).Err?
    ensures ScanLines(c, lines) == ScanLines(c, lines[..n])
  {
    if n < |lines| {
      assert lines[..|lines| - 1][..n] == lines[..n];
      ScanStops(c, lines[..|lines| - 1], n);
    } else {
      assert lines[..n] == lines;
    }
  }

  lemma {:induction false} LastOfSegments(s: Text)
    requires s != ""
    ensures s[|s| - 1] == '\n' <==> Segments(s)[|Segments(s)| - 1] == ""
  {
    JoinOfSegments(s);
  }

  /** The scan loop over the lines of a file. */
  method ScanFile<E(!new)>(c: Codec<E>, contents: Text) returns (r: Result<ChainTail, Fault>)
    ensures r == Scan(c, contents)
  {
    if contents == "" {
      return Ok(ChainTail(0, GENESIS));
    }
    if contents[|contents| - 1] != '\n' {
      return Err(Fault(0, Truncated));
    }
    var segments := Segments(contents);
    LastOfSegments(contents);
    if segments[|segments| - 1] == "" {
      segments := segments[..|segments| - 1];
    }
    r := ScanAll(c, segments);
  }

  method ScanAll<E(!new)>(c: Codec<E>, lines: seq<Text>) returns (r: Result<ChainTail, Fault>)
    ensures r == match ScanLines(c, lines)
                 case Err(fault) => Err(fault)
                 case Ok(p) => Ok(ChainTail(p.chainCount, p.previousHash))
  {
    var p := START;
    for position := 0 to |lines|
      invariant ScanLines(c, lines[..position]) == Ok(p)
    {
      assert lines[..position + 1][..position] == lines[..position];
      var next := ScanLine(c, p, lines[position], position + 1);
      if next.Err? {
        ScanStops(c, lines, position + 1);
        return Err(next.error);
      }
      p := next.value;
    }
    assert lines[..|lines|] == lines;
    r := Ok(ChainTail(p.chainCount, p.previousHash));
  }
}
