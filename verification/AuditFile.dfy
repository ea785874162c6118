/** The audit file: the bounded tail read, one append, and rotation
    (crates/audit-file/src/unix.rs, crates/audit-file/src/lib.rs). A file is its
    bytes; a file system call that may fail is a nondeterministic choice. */
module AuditFiles {
  import opened Common
  import opened Vault
  import opened Chain
  import opened ChainProofs

  const MAX_TAIL_BYTES: nat := 256 * 1024

  datatype AuditError = Unterminated | TailTooLarge | BadTail(category: Category) | Exhausted | Unserializable
    | Shrank | WriteError

  /** `rposition` of the newline. */
  function LastNewline(s: Text): (r: Option<nat>)
    ensures r.Some? ==> r.value < |s| && s[r.value] == '\n' && forall j :: r.value < j < |s| ==> s[j] != '\n'
    ensures r.None? ==> '\n' !in s
  {
    if s == "" then None
    else if s[|s| - 1] == '\n' then Some(|s| - 1)
    else LastNewline(s[..|s| - 1])
  }

  /** The last line, looked for in the last window of the file only. */
  function ReadLastLine(contents: Text): Result<Text, AuditError>
    requires contents != ""
  {
    if contents[|contents| - 1] != '\n' then Err(Unterminated)
    else
      var bodyEnd := |contents| - 1;
      if bodyEnd == 0 then Ok("")
      else
        var regionStart := if bodyEnd >= MAX_TAIL_BYTES then bodyEnd - MAX_TAIL_BYTES else 0;
        var region := contents[regionStart..bodyEnd];
        match LastNewline(region)
        case Some(index) => Ok(region[index + 1..])
        case None => if regionStart == 0 then Ok(region) else Err(TailTooLarge)
  }

  /** `tail_of`. */
  function TailOf<E(!new)>(c: Codec<E>, contents: Text): Result<ChainTail, AuditError> {
    if contents == "" then Ok(ChainTail(0, GENESIS))
    else
      match ReadLastLine(contents)
      case Err(e) => Err(e)
      case Ok(line) =>
        match AppendPoint(c, line)
        case Err(category) => Err(BadTail(category))
        case Ok(tail) => Ok(tail)
  }

  /** `read_at`: some bytes from `offset` on, at least one unless there is none. */
  method ReadAt(contents: Text, offset: nat, len: nat) returns (chunk: Text)
    ensures |chunk| <= len
    ensures offset >= |contents| || len == 0 ==> chunk == ""
    ensures offset < |contents| && len > 0 ==>
              1 <= |chunk| <= |contents| - offset && chunk == contents[offset..offset + |chunk|]
  {
    if offset >= |contents| || len == 0 {
      return "";
    }
    var count: nat :| 1 <= count <= len && offset + count <= |contents|;
    chunk := contents[offset..offset + count];
  }

  /** `read_exact_at`: short reads are continued until the buffer is full. */
  method ReadExactAt(contents: Text, buffer: array<char>, offset: nat) returns (r: Result<(), AuditError>)
    modifies buffer
    ensures r.Ok? <==> buffer.Length == 0 || offset + buffer.Length <= |contents|
    ensures r.Ok? && buffer.Length > 0 ==> buffer[..] == contents[offset..offset + buffer.Length]
  {
    var read := 0;
    while read < buffer.Length
      invariant 0 <= read <= buffer.Length
      invariant read > 0 ==> offset + read <= |contents|
      invariant forall j :: 0 <= j < read ==> buffer[j] == contents[offset + j]
    {
      var chunk := ReadAt(contents, offset + read, buffer.Length - read);
      if chunk == "" {
        return Err(Shrank);
      }
      forall j | 0 <= j < |chunk| {
        buffer[read + j] := chunk[j];
      }
      read := read + |chunk|;
    }
    r := Ok(());
  }

  method ReadTailLine(contents: Text) returns (r: Result<Text, AuditError>)
    requires contents != ""
    ensures r == ReadLastLine(contents)
  {
    if contents[|contents| - 1] != '\n' {
      return Err(Unterminated);
    }
    var bodyEnd := |contents| - 1;
    if bodyEnd == 0 {
      return Ok("");
    }
    var regionStart := if bodyEnd >= MAX_TAIL_BYTES then bodyEnd - MAX_TAIL_BYTES else 0;
    var buffer := new char[bodyEnd - regionStart];
    var filled := ReadExactAt(contents, buffer, regionStart);
    var region := buffer[..];
    var newline := LastNewline(region);
    match newline {
      case Some(index) => r := Ok(region[index + 1..]);
      case None => r := if regionStart == 0 then Ok(region) else Err(TailTooLarge);
    }
  }

  // ---- The fast tail agrees with the full scan --------------------------------------

  /** The last line can be found in one window: it is shorter than the window, or
      it is the only line and no longer. */
  predicate InWindow(lines: seq<Text>)
    requires lines != []
  {
    |lines[|lines| - 1]| < MAX_TAIL_BYTES || (|lines| == 1 && |lines[0]| == MAX_TAIL_BYTES)
  }

  lemma {:induction false} LastNewlineIs(s: Text, front: Text, line: Text)
    requires s == front + line && '\n' !in line && (front == "" || front[|front| - 1] == '\n')
    ensures LastNewline(s) == if front == "" then None else Some(|front| - 1)
  {
    if front != "" {
      assert s[|front| - 1] == '\n';
    }
    assert forall j :: |front| <= j < |s| ==> s[j] == line[j - |front|];
  }

  lemma {:induction false} JoinEnds(lines: seq<Text>)
    ensures lines != [] ==> Join(lines) != "" && Join(lines)[|Join(lines)| - 1] == '\n'
    ensures lines == [] ==> Join(lines) == ""
  {
  }

  /** The bounded read returns the last line exactly when the window holds it. */
  lemma {:induction false} LastLineRead(lines: seq<Text>)
    requires lines != [] && OneLiners(lines)
    ensures Join(lines) != ""
    ensures ReadLastLine(Join(lines)) == if InWindow(lines) then Ok(lines[|lines| - 1]) else Err(TailTooLarge)
  {
    var n := |lines| - 1;
    JoinEnds(lines[..n]);
    LastLineBehind(Join(lines[..n]), lines[n]);
  }

  lemma {:induction false} LastLineBehind(front: Text, line: Text)
    requires '\n' !in line && (front == "" || front[|front| - 1] == '\n')
    ensures ReadLastLine(front + line + "\n")
            == if |line| < MAX_TAIL_BYTES || (front == "" && |line| == MAX_TAIL_BYTES) then Ok(line)
               else Err(TailTooLarge)
  {
    var s, bodyEnd := front + line + "\n", |front| + |line|;
    var start := if bodyEnd >= MAX_TAIL_BYTES then bodyEnd - MAX_TAIL_BYTES else 0;
    assert s[|s| - 1] == '\n' && |s| - 1 == bodyEnd;
    if bodyEnd == 0 {
      assert line == "";
    } else if start <= |front| {
      LineInWindow(s, front, line, start);
    } else {
      WindowInLine(s, front, line, start);
    }
  }

  /** The window reaches back to the line's beginning. */
  lemma {:induction false} LineInWindow(s: Text, front: Text, line: Text, start: nat)
    requires s == front + line + "\n" && start <= |front| && '\n' !in line
    requires front == "" || front[|front| - 1] == '\n'
    ensures var region := s[start..|front| + |line|];
            match LastNewline(region)
            case Some(index) => start < |front| && region[index + 1..] == line
            case None => start == |front| && region == line
  {
    LastNewlineIs(s[start..|front| + |line|], front[start..], line);
  }

  lemma {:induction false} WindowInLine(s: Text, front: Text, line: Text, start: nat)
    requires s == front + line + "\n" && |front| < start <= |front| + |line| && '\n' !in line
    ensures LastNewline(s[start..|front| + |line|]).None?
  {
    assert s[start..|front| + |line|] == line[start - |front|..];
  }

  lemma {:induction false} AppendPointOfChain<E(!new)>(c: Codec<E>, lines: seq<Text>)
    requires Chained(c, lines) && lines != []
    ensures AppendPoint(c, lines[|lines| - 1]) == Ok(ChainTail(|lines|, TailHash(c, lines)))
  {
  }

  /** The tail of any chain, found without scanning it. */
  lemma {:induction false} TailOfChain<E(!new)>(c: Codec<E>, lines: seq<Text>)
    requires Chained(c, lines)
    ensures TailOf(c, Join(lines)) == if lines == [] || InWindow(lines) then Ok(ChainTail(|lines|, TailHash(c, lines)))
                                      else Err(TailTooLarge)
  {
    if lines != [] {
      ChainedOneLiners(c, lines);
      LastLineRead(lines);
      AppendPointOfChain(c, lines);
    }
  }

  /** For every verified file the fast tail is the scan's tail if and only if the
      last line lies in the window; otherwise the append is refused. */
  lemma {:induction false} FastTailIsScanTail<E(!new)>(c: Codec<E>, contents: Text)
    requires Verify(c, contents).Verified?
    ensures FileLines(contents) != []
    ensures TailOf(c, contents).Ok? <==> InWindow(FileLines(contents))
    ensures TailOf(c, contents).Ok? ==> Scan(c, contents) == Ok(TailOf(c, contents).value)
    ensures TailOf(c, contents).Err? ==> TailOf(c, contents) == Err(TailTooLarge)
  {
    var lines := LinesOf(c, contents);
    TailOfChain(c, lines);
  }

  // ---- One append, with rotation ------------------------------------------------------

  datatype Retention = Retention(maxRecords: Option<U64>, maxBytes: Option<U64>)

  /** `Retention::sanitized`: a bound of zero means no bound. */
  function Sanitized(r: Retention): Retention {
    Retention(if r.maxRecords == Some(0) then None else r.maxRecords,
              if r.maxBytes == Some(0) then None else r.maxBytes)
  }

  predicate ShouldRotate(r: Retention, records: nat, size: nat, nextLen: nat) {
    || (r.maxRecords.Some? && SaturatingAdd(records, 1) > r.maxRecords.value)
    || (r.maxBytes.Some? && SaturatingAdd(size, nextLen) > r.maxBytes.value)
  }

  /** Both bounds without saturation: zero is no bound, and a bound of 2^64 - 1
      bytes is never passed. */
  lemma BoundsSpelledOut(r: Retention, records: nat, size: nat, nextLen: nat)
    requires records < U64_MAX
    ensures ShouldRotate(Sanitized(r), records, size, nextLen)
            <==> || (r.maxRecords.Some? && 0 < r.maxRecords.value < records + 1)
                 || (r.maxBytes.Some? && 0 < r.maxBytes.value < U64_MAX && r.maxBytes.value < size + nextLen)
  {
  }

  /** What an append is going to do. */
  datatype Decision = Refuse(error: AuditError) | Append(line: Text) | Rotate(freshLine: Text)

  function Decide<E(!new)>(c: Codec<E>, contents: Text, retention: Retention, event: E): Decision {
    match TailOf(c, contents)
    case Err(e) => Refuse(e)
    case Ok(tail) =>
      if tail.records >= U64_MAX then Refuse(Exhausted)
      else
        match EnvelopeLine(c, event, tail.records + 1, tail.previousHash)
        case None => Refuse(Unserializable)
        case Some(line) =>
          if contents != "" && ShouldRotate(retention, tail.records, |contents|, |line| + 1) then
            Rotate(EnvelopeLine(c, event, 1, GENESIS).value + "\n")
          else Append(line + "\n")
  }

  datatype Logs = Logs(current: Text, rotated: Option<Text>)

  /** The files once a decision is carried out, when so many bytes of the line reach
      the file. */
  function AfterAttempt(logs: Logs, d: Decision, written: nat): Logs {
    match d
    case Refuse(_) => logs
    case Append(line) => Logs(logs.current + line[..Min(written, |line|)], logs.rotated)
    case Rotate(line) => Logs(line[..Min(written, |line|)], Some(logs.current))
  }

  predicate Complete(d: Decision, written: nat) {
    match d
    case Refuse(_) => false
    case Append(line) => written >= |line|
    case Rotate(line) => written >= |line|
  }

  /** The audit file and its last rotation. */
  class AuditLog {
    var current: Text
    var rotated: Option<Text>

    constructor ()
      ensures current == "" && rotated.None?
    {
      current, rotated := "", None;
    }

    /** `write_line`: the first `reach` bytes arrive, and success means that all did and
        the file was synced. */
    method WriteLine(line: Text, reach: nat, synced: bool) returns (r: Result<(), AuditError>)
      modifies this`current
      ensures current == old(current) + line[..Min(reach, |line|)]
      ensures r.Ok? <==> reach >= |line| && synced
      ensures r.Err? ==> r.error == WriteError
    {
      current := current + line[..Min(reach, |line|)];
      r := if reach >= |line| && synced then Ok(()) else Err(WriteError);
    }

    /** Tail, next line and rotation check: what this record is going to do. */
    method Prepare<E(!new)>(c: Codec<E>, retention: Retention, event: E) returns (d: Decision)
      ensures d == Decide(c, current, retention, event)
    {
      var tail: ChainTail := ChainTail(0, GENESIS);
      if current != "" {
        var last := ReadTailLine(current);
        if last.Err? {
          return Refuse(last.error);
        }
        var point := AppendPoint(c, last.value);
        if point.Err? {
          return Refuse(BadTail(point.error));
        }
        tail := point.value;
      }
      if tail.records >= U64_MAX {
        return Refuse(Exhausted);
      }
      var line := EnvelopeLine(c, event, tail.records + 1, tail.previousHash);
      if line.None? {
        return Refuse(Unserializable);
      }
      if current != "" && ShouldRotate(retention, tail.records, |current|, |line.value| + 1) {
        return Rotate(EnvelopeLine(c, event, 1, GENESIS).value + "\n");
      }
      d := Append(line.value + "\n");
    }

    /** One record under the lock; the rotation is one step. How far the write gets and
        whether it is synced is the file system's. */
    method Record<E(!new)>(c: Codec<E>, retention: Retention, event: E, reach: nat, synced: bool)
      returns (r: Result<(), AuditError>)
      modifies this
      ensures var d := Decide(c, old(current), retention, event);
              && Logs(current, rotated) == AfterAttempt(Logs(old(current), old(rotated)), d, reach)
              && (r.Ok? <==> Complete(d, reach) && synced)
              && (r.Err? ==> r.error == if d.Refuse? then d.error else WriteError)
    {
      var decision := Prepare(c, retention, event);
      match decision
      case Refuse(e) => r := Err(e);
      case Append(line) => r := WriteLine(line, reach, synced);
      case Rotate(line) =>
        rotated := Some(current);
        current := "";
        r := WriteLine(line, reach, synced);
        assert "" + line[..Min(reach, |line|)] == line[..Min(reach, |line|)];
    }
  }
}
