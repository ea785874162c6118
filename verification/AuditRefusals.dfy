/** What one `record` call decides, for every file there may be, without the
    functions the decision is made of (crates/audit-file/src/unix.rs,
    crates/audit-file/src/chain.rs). */
module AuditRefusals {
  import opened Common
  import opened Vault
  import opened Chain
  import opened ChainProofs
  import opened ScanReports
  import opened AuditFiles

  /** A file that ends in a newline is whatever comes before its last line, which is
      empty or ends in a newline, and that line. */
  ghost predicate EndsWith(contents: Text, front: Text, line: Text) {
    && contents == front + line + "\n" && '\n' !in line
    && (front == "" || front[|front| - 1] == '\n')
  }

  /** The last line is found in the 256 KiB in front of the final newline. */
  predicate Reachable(front: Text, line: Text) {
    |line| < 262144 || (front == "" && |line| == 262144)
  }

  lemma LastLineOf(contents: Text) returns (front: Text, line: Text)
    requires contents != "" && contents[|contents| - 1] == '\n'
    ensures EndsWith(contents, front, line)
  {
    var body := contents[..|contents| - 1];
    assert contents == body + "\n";
    match LastNewline(body)
    case None => front, line := "", body;
    case Some(at) => front, line := body[..at + 1], body[at + 1..];
  }

  lemma Window()
    ensures MAX_TAIL_BYTES == 262144
  {
  }

  /** Files whose last line cannot be read refuse every record. */
  lemma UnreadableTail<E(!new)>(c: Codec<E>, contents: Text, front: Text, line: Text, retention: Retention, event: E)
    requires contents != ""
    ensures contents[|contents| - 1] != '\n' ==> Decide(c, contents, retention, event) == Refuse(Unterminated)
    ensures EndsWith(contents, front, line) && !Reachable(front, line) ==>
              Decide(c, contents, retention, event) == Refuse(TailTooLarge)
  {
    Window();
    if EndsWith(contents, front, line) { LastLineBehind(front, line); }
  }

  /** A last line no record can follow refuses every record, for these reasons in
      this order. */
  lemma BadTailRefused<E(!new)>(c: Codec<E>, front: Text, line: Text, retention: Retention, event: E)
    requires EndsWith(front + line + "\n", front, line) && Reachable(front, line)
    ensures var d, decision := c.decode(line), Decide(c, front + line + "\n", retention, event);
            && (d.None? ==>
                  decision == Refuse(BadTail(if c.version(line) == Some(2) then NotEnvelope else UnsupportedVersion)))
            && (d.Some? && d.value.v != 2 ==> decision == Refuse(BadTail(UnsupportedVersion)))
            && (d.Some? && d.value.v == 2 && !(Hexadecimal(d.value.previousHash) && Hexadecimal(d.value.recordHash)) ==>
                  decision == Refuse(BadTail(RecordHashMismatch)))
  {
    TailAt(c, front, line);
    if c.decode(line).Some? {
      HexadecimalIs(c.decode(line).value.previousHash);
      HexadecimalIs(c.decode(line).value.recordHash);
    }
  }

  lemma TailAt<E(!new)>(c: Codec<E>, front: Text, line: Text)
    requires EndsWith(front + line + "\n", front, line) && Reachable(front, line)
    ensures TailOf(c, front + line + "\n")
            == match AppendPoint(c, line) case Err(category) => Err(BadTail(category)) case Ok(tail) => Ok(tail)
  {
    Window();
    LastLineBehind(front, line);
  }

  /** A last line of this version with both hashes well formed. */
  ghost predicate TailLine<E(!new)>(c: Codec<E>, front: Text, line: Text, env: Envelope<E>) {
    && EndsWith(front + line + "\n", front, line) && Reachable(front, line)
    && c.decode(line) == Some(env) && env.v == 2
    && Hexadecimal(env.previousHash) && Hexadecimal(env.recordHash)
  }

  lemma AlteredTailRefused<E(!new)>(c: Codec<E>, front: Text, line: Text, env: Envelope<E>, retention: Retention,
                                    event: E)
    requires TailLine(c, front, line, env)
    ensures var bytes, decision := c.eventBytes(env.event), Decide(c, front + line + "\n", retention, event);
            && (bytes.None? ==> decision == Refuse(BadTail(Malformed)))
            && (bytes.Some? && env.recordHash != c.hash(env.previousHash + BigEndian(env.sequence, 8) + bytes.value) ==>
                  decision == Refuse(BadTail(RecordHashMismatch)))
  {
    TailAt(c, front, line);
    HexadecimalIs(env.previousHash);
    HexadecimalIs(env.recordHash);
  }

  /** The line behind a record with this number and hash, none when the event has no
      bytes. */
  ghost predicate NextLine<E(!new)>(c: Codec<E>, sequence: nat, previous: Text, event: E, line: Text) {
    && sequence <= U64_MAX && c.eventBytes(event).Some?
    && line == c.encode(Envelope(2, sequence, previous,
                                 c.hash(previous + BigEndian(sequence, 8) + c.eventBytes(event).value), event))
  }

  lemma NextLineIs<E(!new)>(c: Codec<E>, sequence: nat, previous: Text, event: E)
    requires sequence <= U64_MAX
    ensures c.eventBytes(event).None? ==> EnvelopeLine(c, event, sequence, previous).None?
    ensures c.eventBytes(event).Some? ==>
              && EnvelopeLine(c, event, sequence, previous).Some?
              && NextLine(c, sequence, previous, event, EnvelopeLine(c, event, sequence, previous).value)
  {
  }

  predicate ZeroHash(text: Text) { |text| == 64 && forall i :: 0 <= i < 64 ==> text[i] == '0' }

  /** The first previous hash is 64 zeros. */
  lemma GenesisIsZeros(zeros: Text)
    requires ZeroHash(zeros)
    ensures zeros == GENESIS
  {
  }

  /** A last line whose own hash is right. */
  ghost predicate SoundTail<E(!new)>(c: Codec<E>, front: Text, line: Text, env: Envelope<E>) {
    && TailLine(c, front, line, env) && c.eventBytes(env.event).Some?
    && env.recordHash == c.hash(env.previousHash + BigEndian(env.sequence, 8) + c.eventBytes(env.event).value)
  }

  lemma SoundTailOf<E(!new)>(c: Codec<E>, front: Text, line: Text, env: Envelope<E>)
    requires SoundTail(c, front, line, env)
    ensures TailOf(c, front + line + "\n") == Ok(ChainTail(env.sequence, env.recordHash))
  {
    TailAt(c, front, line);
    HexadecimalIs(env.previousHash);
    HexadecimalIs(env.recordHash);
  }

  /** No record follows the last number, and none without event bytes is written. */
  lemma NoNextRecord<E(!new)>(c: Codec<E>, front: Text, line: Text, env: Envelope<E>, retention: Retention, event: E)
    requires SoundTail(c, front, line, env)
    ensures var decision := Decide(c, front + line + "\n", retention, event);
            && (env.sequence == U64_MAX ==> decision == Refuse(Exhausted))
            && (env.sequence < U64_MAX && c.eventBytes(event).None? ==> decision == Refuse(Unserializable))
  {
    SoundTailOf(c, front, line, env);
    if env.sequence < U64_MAX { NextLineIs(c, env.sequence + 1, env.recordHash, event); }
  }

  /** Behind a sound last record comes the next one: in a new file, as its first
      record, exactly when it would pass a bound of the retention. */
  lemma NextRecordDecides<E(!new)>(c: Codec<E>, front: Text, line: Text, env: Envelope<E>, retention: Retention,
                                   event: E, next: Text, first: Text, zeros: Text)
    requires SoundTail(c, front, line, env) && env.sequence < U64_MAX && ZeroHash(zeros)
    requires NextLine(c, env.sequence + 1, env.recordHash, event, next) && NextLine(c, 1, zeros, event, first)
    ensures var contents := front + line + "\n";
            Decide(c, contents, Sanitized(retention), event)
            == if || (retention.maxRecords.Some? && 0 < retention.maxRecords.value < env.sequence + 1)
                  || (retention.maxBytes.Some? && 0 < retention.maxBytes.value < U64_MAX
                      && retention.maxBytes.value < |contents| + |next| + 1)
               then Rotate(first + "\n") else Append(next + "\n")
  {
    SoundTailOf(c, front, line, env);
    GenesisIsZeros(zeros);
    NextLineIs(c, env.sequence + 1, env.recordHash, event);
    NextLineIs(c, 1, GENESIS, event);
    BoundsSpelledOut(retention, env.sequence, |front + line + "\n"|, |next| + 1);
  }

  /** An empty file takes the first record, whatever the retention. */
  lemma EmptyFileDecides<E(!new)>(c: Codec<E>, retention: Retention, event: E, first: Text, zeros: Text)
    requires ZeroHash(zeros)
    ensures c.eventBytes(event).None? ==> Decide(c, "", retention, event) == Refuse(Unserializable)
    ensures NextLine(c, 1, zeros, event, first) ==>
              Decide(c, "", retention, event) == Append(first + "\n")
  {
    GenesisIsZeros(zeros);
    NextLineIs(c, 1, GENESIS, event);
  }
}
