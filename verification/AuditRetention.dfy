/** Rotation over whole runs: the bounds both files keep, and which records they
    hold (crates/audit-file/src/unix.rs, crates/audit-file/src/lib.rs). */
module AuditRetention {
  import opened Common
  import opened Vault
  import opened Chain
  import opened ChainProofs
  import opened AuditFiles

  /** The events of a chain, in order. */
  function Events<E(!new)>(c: Codec<E>, lines: seq<Text>): (r: seq<Option<E>>)
    ensures |r| == |lines|
    ensures forall i :: 0 <= i < |lines| ==> r[i] == EventOf(c, lines[i])
  {
    seq(|lines|, i requires 0 <= i < |lines| => EventOf(c, lines[i]))
  }

  /** Within the record bound, and within the byte bound unless a single record. */
  ghost predicate Bounded(r: Retention, lines: seq<Text>) {
    && (r.maxRecords.Some? ==> |lines| <= r.maxRecords.value)
    && (r.maxBytes.Some? && r.maxBytes.value < U64_MAX ==> |Join(lines)| <= r.maxBytes.value || |lines| <= 1)
  }

  /** What a run of record calls started from: the lines of the file, and whatever an
      earlier rotation had left. */
  datatype Origin = Origin(lines: seq<Text>, rotated: Option<Text>)

  /** The chain could not take the event's record within the bounds. */
  ghost predicate FullFor<E(!new)>(c: Codec<E>, r: Retention, lines: seq<Text>, event: E) {
    && |lines| < U64_MAX
    && var next := EnvelopeLine(c, event, |lines| + 1, TailHash(c, lines));
    && next.Some?
    && ((r.maxRecords.Some? && |lines| + 1 > r.maxRecords.value)
        || (r.maxBytes.Some? && r.maxBytes.value < U64_MAX
            && |Join(lines)| + |next.value| + 1 > r.maxBytes.value))
  }

  ghost predicate Full<E(!new)>(c: Codec<E>, r: Retention, lines: seq<Text>) {
    exists event :: FullFor(c, r, lines, event)
  }

  /** The two files are chains that together hold the latest records of the history,
      in order and without a gap; before the first rotation the current file holds
      all of it. Each is within the bounds, unless it is the file the run started
      from, as it was, and a file rotated in the run could not have taken the record
      that rotated it. After a torn write the current file ends in part of a line. */
  ghost predicate Holding<E(!new)>(c: Codec<E>, first: Origin, logs: Logs, r: Retention, history: seq<Option<E>>,
                                   prior: seq<Text>, cur: seq<Text>, rest: Text) {
    && logs.current == Join(cur) + rest && '\n' !in rest
    && Chained(c, cur) && (Bounded(r, cur) || (cur == first.lines && prior == []))
    && (if prior == [] then logs.rotated == first.rotated && |cur| == |history|
        else
          && logs.rotated == Some(Join(prior)) && Chained(c, prior) && (Bounded(r, prior) || prior == first.lines)
          && Full(c, r, prior))
    && |prior| + |cur| <= |history|
    && history[|history| - |prior| - |cur|..] == Events(c, prior) + Events(c, cur)
  }

  ghost predicate Holds<E(!new)>(c: Codec<E>, first: Origin, logs: Logs, r: Retention, history: seq<Option<E>>) {
    exists prior, cur, rest :: Holding(c, first, logs, r, history, prior, cur, rest)
  }

  // ---- One record -----------------------------------------------------------------

  lemma {:induction false} ChainLength<E(!new)>(c: Codec<E>, lines: seq<Text>)
    requires Chained(c, lines)
    ensures |lines| <= U64_MAX
  {
  }

  /** What an append to a chain decides, apart from refusing. */
  lemma {:induction false} DecideOnChain<E(!new)>(c: Codec<E>, lines: seq<Text>, retention: Retention, event: E)
    requires Chained(c, lines)
    ensures var d := Decide(c, Join(lines), retention, event);
            && (!d.Refuse? ==> |lines| < U64_MAX)
            && (d.Append? ==>
                  && var line := EnvelopeLine(c, event, |lines| + 1, TailHash(c, lines));
                  && line.Some? && d.line == line.value + "\n"
                  && (lines == [] || !FullFor(c, retention, lines, event)))
            && (d.Rotate? ==>
                  && lines != [] && FullFor(c, retention, lines, event)
                  && var line := EnvelopeLine(c, event, 1, GENESIS);
                  && line.Some? && d.freshLine == line.value + "\n")
  {
    ChainLength(c, lines);
    TailOfChain(c, lines);
    JoinEnds(lines);
  }

  /** When a record call rotates, in the chain's own records and bytes: exactly when
      the file is not empty and one more record would exceed a record bound `m > 0`,
      or its bytes a byte bound `b > 0`. A bound of zero is none, and a byte bound of
      2^64 - 1 is never exceeded, because the sum saturates there. */
  lemma {:induction false} RotatesExactly<E(!new)>(c: Codec<E>, lines: seq<Text>, retention: Retention, event: E)
    returns (next: Text)
    requires Chained(c, lines) && !Decide(c, Join(lines), Sanitized(retention), event).Refuse?
    ensures |lines| < U64_MAX && EnvelopeLine(c, event, |lines| + 1, TailHash(c, lines)) == Some(next)
    ensures Decide(c, Join(lines), Sanitized(retention), event).Rotate?
            <==> lines != []
                 && ((retention.maxRecords.Some? && 0 < retention.maxRecords.value < |lines| + 1)
                     || (retention.maxBytes.Some? && 0 < retention.maxBytes.value < U64_MAX
                         && retention.maxBytes.value < |Join(lines)| + |next| + 1))
  {
    ChainLength(c, lines);
    TailOfChain(c, lines);
    JoinEnds(lines);
    next := EnvelopeLine(c, event, |lines| + 1, TailHash(c, lines)).value;
    BoundsSpelledOut(retention, |lines|, |Join(lines)|, |next| + 1);
  }

  /** The chain with the next record. */
  lemma {:induction false} Extended<E(!new)>(c: Codec<E>, lines: seq<Text>, event: E) returns (after: seq<Text>)
    requires ValidCodec(c) && Chained(c, lines) && |lines| < U64_MAX
    requires EnvelopeLine(c, event, |lines| + 1, TailHash(c, lines)).Some?
    ensures Chained(c, after) && |after| == |lines| + 1
    ensures Join(after) == Join(lines) + (EnvelopeLine(c, event, |lines| + 1, TailHash(c, lines)).value + "\n")
    ensures Events(c, after) == Events(c, lines) + [Some(event)]
  {
    var next := EnvelopeLine(c, event, |lines| + 1, TailHash(c, lines)).value;
    after := lines + [next];
    ExtendChain(c, lines, event);
    JoinNext(lines, next);
    ConcatThree(Join(lines), next, "\n");
  }

  /** An append that need not rotate stays within the bounds. */
  lemma {:induction false} AppendIsBounded<E(!new)>(c: Codec<E>, r: Retention, lines: seq<Text>, after: seq<Text>,
                                                    event: E)
    requires |after| == |lines| + 1 <= U64_MAX && EnvelopeLine(c, event, |lines| + 1, TailHash(c, lines)).Some?
    requires |Join(after)| == |Join(lines)| + |EnvelopeLine(c, event, |lines| + 1, TailHash(c, lines)).value| + 1
    requires r == Sanitized(r) && (lines == [] || !FullFor(c, r, lines, event))
    ensures Bounded(r, after)
  {
  }

  lemma {:induction false} SingleIsBounded(r: Retention, lines: seq<Text>)
    requires r == Sanitized(r) && |lines| == 1
    ensures Bounded(r, lines)
  {
  }

  /** Behind the latest records comes the new one. */
  lemma HistoryNext<T>(history: seq<T>, kept: seq<T>, x: T)
    requires |kept| <= |history| && history[|history| - |kept|..] == kept
    ensures (history + [x])[|history| + 1 - (|kept| + 1)..] == kept + [x]
  {
  }

  lemma HistorySuffix<T>(history: seq<T>, front: seq<T>, kept: seq<T>)
    requires |front| + |kept| <= |history| && history[|history| - |front| - |kept|..] == front + kept
    ensures history[|history| - |kept|..] == kept
  {
    var n := |history| - |front| - |kept|;
    assert history[|history| - |kept|..] == history[n..][|front|..];
  }

  lemma {:induction false} HistoryRotated<T>(history: seq<T>, front: seq<T>, kept: seq<T>, next: seq<T>)
    requires |front| + |kept| <= |history| && history[|history| - |front| - |kept|..] == front + kept && |next| == 1
    ensures |kept| + |next| <= |history + next|
    ensures (history + next)[|history + next| - |kept| - |next|..] == kept + next
  {
    HistorySuffix(history, front, kept);
    HistoryNext(history, kept, next[0]);
    assert next == [next[0]];
  }

  lemma {:induction false} AppendedHolding<E(!new)>(c: Codec<E>, first: Origin, logs: Logs, r: Retention,
                                                    history: seq<Option<E>>, prior: seq<Text>, cur: seq<Text>,
                                                    after: seq<Text>, line: Text, event: E)
    requires Holding(c, first, logs, r, history, prior, cur, "") && Chained(c, after) && Bounded(r, after)
    requires |after| == |cur| + 1 && Join(after) == Join(cur) + line
             && Events(c, after) == Events(c, cur) + [Some(event)]
    ensures Holding(c, first, Logs(logs.current + line, logs.rotated), r, history + [Some(event)], prior, after, "")
  {
    HistoryNext(history, Events(c, prior) + Events(c, cur), Some(event));
    ConcatThree(Events(c, prior), Events(c, cur), [Some(event)]);
    assert logs.current == Join(cur);
  }

  lemma {:induction false} RotatedHolding<E(!new)>(c: Codec<E>, first: Origin, logs: Logs, r: Retention,
                                                   history: seq<Option<E>>, prior: seq<Text>, cur: seq<Text>,
                                                   after: seq<Text>, line: Text, event: E)
    requires Holding(c, first, logs, r, history, prior, cur, "") && cur != [] && FullFor(c, r, cur, event)
    requires Chained(c, after) && Bounded(r, after)
    requires |after| == 1 && Join(after) == line && Events(c, after) == [Some(event)]
    ensures Holding(c, first, Logs(line, Some(logs.current)), r, history + [Some(event)], cur, after, "")
  {
    HistoryRotated(history, Events(c, prior), Events(c, cur), [Some(event)]);
    assert logs.current == Join(cur);
  }

  lemma {:induction false} AppendHolds<E(!new)>(c: Codec<E>, first: Origin, logs: Logs, r: Retention,
                                                history: seq<Option<E>>, prior: seq<Text>, cur: seq<Text>, event: E,
                                                line: Text) returns (after: seq<Text>)
    requires ValidCodec(c) && r == Sanitized(r) && Holding(c, first, logs, r, history, prior, cur, "")
    requires Decide(c, Join(cur), r, event) == Append(line)
    ensures Holding(c, first, Logs(logs.current + line, logs.rotated), r, history + [Some(event)], prior, after, "")
  {
    DecideOnChain(c, cur, r, event);
    after := Extended(c, cur, event);
    AppendIsBounded(c, r, cur, after, event);
    AppendedHolding(c, first, logs, r, history, prior, cur, after, line, event);
  }

  lemma {:induction false} RotateHolds<E(!new)>(c: Codec<E>, first: Origin, logs: Logs, r: Retention,
                                                history: seq<Option<E>>, prior: seq<Text>, cur: seq<Text>, event: E,
                                                line: Text) returns (after: seq<Text>)
    requires ValidCodec(c) && r == Sanitized(r) && Holding(c, first, logs, r, history, prior, cur, "")
    requires Decide(c, Join(cur), r, event) == Rotate(line)
    ensures Holding(c, first, Logs(line, Some(logs.current)), r, history + [Some(event)], cur, after, "")
  {
    DecideOnChain(c, cur, r, event);
    after := FirstOfChain(c, event);
    SingleIsBounded(r, after);
    RotatedHolding(c, first, logs, r, history, prior, cur, after, line, event);
  }

  lemma {:induction false} FirstOfChain<E(!new)>(c: Codec<E>, event: E) returns (after: seq<Text>)
    requires ValidCodec(c) && EnvelopeLine(c, event, 1, GENESIS).Some?
    ensures Chained(c, after) && |after| == 1 && Join(after) == EnvelopeLine(c, event, 1, GENESIS).value + "\n"
    ensures Events(c, after) == [Some(event)]
  {
    after := Extended(c, [], event);
    assert Join([]) + Join(after) == Join(after);
  }

  // ---- Torn writes -----------------------------------------------------------------

  /** A record call, and how many bytes of its line reach the file. */
  datatype Attempt<E> = Attempt(event: E, written: nat)

  /** What the history is after an attempt. */
  function Noted<E>(history: seq<Option<E>>, d: Decision, attempt: Attempt<E>): seq<Option<E>> {
    if Complete(d, attempt.written) then history + [Some(attempt.event)] else history
  }

  /** A file that ends in part of a line takes no more records. */
  lemma {:induction false} TornRefuses<E(!new)>(c: Codec<E>, contents: Text, r: Retention, event: E)
    requires contents != "" && contents[|contents| - 1] != '\n'
    ensures Decide(c, contents, r, event).Refuse?
  {
  }

  /** Part of the line that is to be written holds no newline. */
  lemma {:induction false} PartOfNext<E(!new)>(c: Codec<E>, lines: seq<Text>, event: E, line: Text, n: nat)
    requires ValidCodec(c) && Chained(c, lines) && |lines| < U64_MAX
    requires EnvelopeLine(c, event, |lines| + 1, TailHash(c, lines)) == Some(line) && n <= |line|
    ensures '\n' !in (line + "\n")[..n]
  {
    ExtendChain(c, lines, event);
    assert (line + "\n")[..n] == line[..n];
  }

  lemma {:induction false} PartOfFresh<E(!new)>(c: Codec<E>, cur: seq<Text>, r: Retention, event: E, line: Text, n: nat)
    requires ValidCodec(c) && Chained(c, cur) && Decide(c, Join(cur), r, event) == Rotate(line) && n < |line|
    ensures cur != [] && FullFor(c, r, cur, event) && '\n' !in line[..n]
  {
    DecideOnChain(c, cur, r, event);
    PartOfFirst(c, event, EnvelopeLine(c, event, 1, GENESIS).value, n);
  }

  lemma {:induction false} PartOfFirst<E(!new)>(c: Codec<E>, event: E, line: Text, n: nat)
    requires ValidCodec(c) && EnvelopeLine(c, event, 1, GENESIS) == Some(line) && n <= |line|
    ensures '\n' !in (line + "\n")[..n]
  {
    PartOfNext(c, [], event, line, n);
  }

  lemma {:induction false} TornAppend<E(!new)>(c: Codec<E>, first: Origin, logs: Logs, r: Retention,
                                               history: seq<Option<E>>, prior: seq<Text>, cur: seq<Text>, event: E,
                                               line: Text, n: nat)
    requires ValidCodec(c) && Holding(c, first, logs, r, history, prior, cur, "") && n < |line|
    requires Decide(c, Join(cur), r, event) == Append(line)
    ensures Holding(c, first, Logs(logs.current + line[..n], logs.rotated), r, history, prior, cur, line[..n])
  {
    DecideOnChain(c, cur, r, event);
    PartOfNext(c, cur, event, EnvelopeLine(c, event, |cur| + 1, TailHash(c, cur)).value, n);
    assert logs.current == Join(cur);
  }

  lemma {:induction false} TornRotate<E(!new)>(c: Codec<E>, first: Origin, logs: Logs, r: Retention,
                                               history: seq<Option<E>>, prior: seq<Text>, cur: seq<Text>, event: E,
                                               line: Text, n: nat)
    requires ValidCodec(c) && r == Sanitized(r) && Holding(c, first, logs, r, history, prior, cur, "") && n < |line|
    requires Decide(c, Join(cur), r, event) == Rotate(line)
    ensures Holding(c, first, Logs(line[..n], Some(logs.current)), r, history, cur, [], line[..n])
  {
    PartOfFresh(c, cur, r, event, line, n);
    EmptiedHolding(c, first, logs, r, history, prior, cur, event, line[..n]);
  }

  /** A rotation whose first line is torn. */
  lemma {:induction false} EmptiedHolding<E(!new)>(c: Codec<E>, first: Origin, logs: Logs, r: Retention,
                                                   history: seq<Option<E>>, prior: seq<Text>, cur: seq<Text>,
                                                   event: E, rest: Text)
    requires Holding(c, first, logs, r, history, prior, cur, "") && cur != [] && '\n' !in rest
    requires FullFor(c, r, cur, event)
    ensures Holding(c, first, Logs(rest, Some(logs.current)), r, history, cur, [], rest)
  {
    HistorySuffix(history, Events(c, prior), Events(c, cur));
    assert Join(cur) + "" == Join(cur) && Join([]) + rest == rest;
    assert Events(c, cur) + Events(c, []) == Events(c, cur);
    assert Full(c, r, cur);
    assert Chained(c, []) && Bounded(r, []);
  }

  /** An append, completed or torn. */
  lemma {:induction false} AppendKeepsHolding<E(!new)>(c: Codec<E>, first: Origin, logs: Logs, r: Retention,
                                                       history: seq<Option<E>>, attempt: Attempt<E>, line: Text,
                                                       prior: seq<Text>, cur: seq<Text>)
    returns (cur': seq<Text>, rest': Text)
    requires ValidCodec(c) && r == Sanitized(r) && Holding(c, first, logs, r, history, prior, cur, "")
    requires Decide(c, Join(cur), r, attempt.event) == Append(line)
    ensures Holding(c, first, AfterAttempt(logs, Append(line), attempt.written), r,
                    Noted(history, Append(line), attempt), prior, cur', rest')
  {
    if attempt.written >= |line| {
      rest' := "";
      cur' := AppendHolds(c, first, logs, r, history, prior, cur, attempt.event, line);
      assert line[..|line|] == line;
    } else {
      TornAppend(c, first, logs, r, history, prior, cur, attempt.event, line, attempt.written);
      cur', rest' := cur, line[..attempt.written];
    }
  }

  /** A rotation, completed or torn. */
  lemma {:induction false} RotateKeepsHolding<E(!new)>(c: Codec<E>, first: Origin, logs: Logs, r: Retention,
                                                       history: seq<Option<E>>, attempt: Attempt<E>, line: Text,
                                                       prior: seq<Text>, cur: seq<Text>)
    returns (cur': seq<Text>, rest': Text)
    requires ValidCodec(c) && r == Sanitized(r) && Holding(c, first, logs, r, history, prior, cur, "")
    requires Decide(c, Join(cur), r, attempt.event) == Rotate(line)
    ensures Holding(c, first, AfterAttempt(logs, Rotate(line), attempt.written), r,
                    Noted(history, Rotate(line), attempt), cur, cur', rest')
  {
    if attempt.written >= |line| {
      rest' := "";
      cur' := RotateHolds(c, first, logs, r, history, prior, cur, attempt.event, line);
      assert line[..|line|] == line;
    } else {
      TornRotate(c, first, logs, r, history, prior, cur, attempt.event, line, attempt.written);
      cur', rest' := [], line[..attempt.written];
    }
  }

  /** Every record call, completed or torn, keeps both files bounded and loses nothing
      but the file that a rotation replaces. */
  lemma {:induction false} RecordKeepsHolding<E(!new)>(c: Codec<E>, first: Origin, logs: Logs, r: Retention,
                                                       history: seq<Option<E>>, attempt: Attempt<E>, d: Decision,
                                                       prior: seq<Text>, cur: seq<Text>, rest: Text)
    returns (prior': seq<Text>, cur': seq<Text>, rest': Text)
    requires ValidCodec(c) && r == Sanitized(r) && Holding(c, first, logs, r, history, prior, cur, rest)
    requires d == Decide(c, logs.current, r, attempt.event)
    ensures Holding(c, first, AfterAttempt(logs, d, attempt.written), r, Noted(history, d, attempt), prior', cur',
                    rest')
  {
    prior', cur', rest' := prior, cur, rest;
    if rest != "" {
      assert logs.current[|logs.current| - 1] == rest[|rest| - 1];
      TornRefuses(c, logs.current, r, attempt.event);
      return;
    }
    assert logs.current == Join(cur);
    match d
    case Refuse(_) =>
    case Append(line) => cur', rest' := AppendKeepsHolding(c, first, logs, r, history, attempt, line, prior, cur);
    case Rotate(line) =>
      prior' := cur;
      cur', rest' := RotateKeepsHolding(c, first, logs, r, history, attempt, line, prior, cur);
  }

  // ---- Runs -----------------------------------------------------------------------

  /** The files and the recorded history after a run of record calls. */
  function RecordAll<E(!new)>(c: Codec<E>, logs: Logs, r: Retention, history: seq<Option<E>>,
                              attempts: seq<Attempt<E>>): (Logs, seq<Option<E>>) {
    if attempts == [] then (logs, history)
    else
      var (before, noted) := RecordAll(c, logs, r, history, attempts[..|attempts| - 1]);
      var attempt := attempts[|attempts| - 1];
      var d := Decide(c, before.current, r, attempt.event);
      (AfterAttempt(before, d, attempt.written), Noted(noted, d, attempt))
  }

  lemma {:induction false} OriginHolds<E(!new)>(c: Codec<E>, first: Origin, r: Retention)
    requires Chained(c, first.lines)
    ensures Holding(c, first, Logs(Join(first.lines), first.rotated), r, Events(c, first.lines), [], first.lines, "")
  {
    assert Join(first.lines) + "" == Join(first.lines);
    assert Events(c, []) + Events(c, first.lines) == Events(c, first.lines);
  }

  /** Retention over whole runs, with any record and byte bounds, from any chain,
      bounded or not, and with writes that may break off anywhere. Whatever is
      recorded: the current and the rotated file are chains, but for part of a last
      line after a torn write; each is within the record bound and, unless a single
      record, within the byte bound, except for the file the run started from, until a
      record is added to it; together they hold the latest complete records in order
      without a gap, and the current file all of them until a first rotation. */
  lemma {:induction false} RetentionOverRun<E(!new)>(c: Codec<E>, retention: Retention, first: Origin,
                                                     attempts: seq<Attempt<E>>)
    requires ValidCodec(c) && Chained(c, first.lines)
    ensures var r := Sanitized(retention);
            var (logs, history) := RecordAll(c, Logs(Join(first.lines), first.rotated), r, Events(c, first.lines),
                                             attempts);
            Holds(c, first, logs, r, history)
  {
    var r := Sanitized(retention);
    var logs, initial := Logs(Join(first.lines), first.rotated), Events(c, first.lines);
    if attempts == [] {
      OriginHolds(c, first, r);
    } else {
      RetentionOverRun(c, retention, first, attempts[..|attempts| - 1]);
      var (before, noted) := RecordAll(c, logs, r, initial, attempts[..|attempts| - 1]);
      var attempt := attempts[|attempts| - 1];
      var prior, cur, rest :| Holding(c, first, before, r, noted, prior, cur, rest);
      var prior', cur', rest' := RecordKeepsHolding(c, first, before, r, noted, attempt,
                                                    Decide(c, before.current, r, attempt.event), prior, cur, rest);
    }
  }

  /** With a record bound `m` alone, from an empty file, every rotated file of a run
      holds exactly `m` records. */
  lemma {:induction false} RotatedIsFull<E(!new)>(c: Codec<E>, m: U64, attempts: seq<Attempt<E>>)
    requires ValidCodec(c) && m > 0
    ensures var (logs, history) := RecordAll(c, Logs("", None), Retention(Some(m), None), [], attempts);
            logs.rotated.Some? ==>
              exists lines :: Chained(c, lines) && |lines| == m && logs.rotated.value == Join(lines)
  {
    var r, first := Retention(Some(m), None), Origin([], None);
    assert Events(c, []) == [];
    RetentionOverRun(c, r, first, attempts);
    var (logs, history) := RecordAll(c, Logs("", None), r, [], attempts);
    var prior, cur, rest :| Holding(c, first, logs, r, history, prior, cur, rest);
    if prior != [] {
      var event :| FullFor(c, r, prior, event);
      assert |prior| == m;
    }
  }
}
