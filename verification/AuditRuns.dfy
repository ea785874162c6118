/** Concurrent appends as a state machine: any number of writers take the lock,
    read the tail, write in pieces and may stop anywhere
    (crates/audit-file/src/unix.rs). Retention is unbounded. */
module AuditRuns {
  import opened Common
  import opened Chain
  import opened ChainProofs
  import opened AuditFiles
  import opened AuditRetention

  type Writer = nat

  /** Where a writer is in `record`. */
  datatype Phase<E> =
    | Idle
    | Holding(event: E)
    | Writing(event: E, line: Text, written: nat)

  /** A record whose line is complete in the file; `acked` once `record` has
      returned success for it. */
  datatype Commit<E> = Commit(writer: Writer, event: E, acked: bool)

  datatype System<E> = System(file: Text, lock: Option<Writer>, phases: map<Writer, Phase<E>>, commits: seq<Commit<E>>)

  datatype Step<E> =
    | Acquire(writer: Writer, event: E)
    | ReadTail(writer: Writer)
    | WriteSome(writer: Writer, count: nat)
    | Release(writer: Writer, ok: bool)

  function PhaseOf<E>(s: System<E>, w: Writer): Phase<E> {
    if w in s.phases then s.phases[w] else Idle
  }

  function Finished<E>(s: System<E>, w: Writer): System<E> {
    s.(lock := None, phases := s.phases[w := Idle])
  }

  /** The steps a writer can take. A release without success covers every error
      and every crash, at any point; `ok` needs the whole line written. */
  predicate Enabled<E(!new)>(s: System<E>, step: Step<E>) {
    match step
    case Acquire(w, _) => s.lock.None? && PhaseOf(s, w).Idle?
    case ReadTail(w) => PhaseOf(s, w).Holding?
    case WriteSome(w, count) =>
      PhaseOf(s, w).Writing? && 0 < count && PhaseOf(s, w).written + count <= |PhaseOf(s, w).line|
    case Release(w, ok) =>
      !PhaseOf(s, w).Idle?
        && (ok ==> PhaseOf(s, w).Writing? && PhaseOf(s, w).written == |PhaseOf(s, w).line| && s.commits != [])
  }

  function Next<E(!new)>(c: Codec<E>, s: System<E>, step: Step<E>): System<E>
    requires Enabled(s, step)
  {
    match step
    case Acquire(w, event) => s.(lock := Some(w), phases := s.phases[w := Holding(event)])
    case ReadTail(w) =>
      var event := PhaseOf(s, w).event;
      var tail := TailOf(c, s.file);
      if tail.Err? || tail.value.records >= U64_MAX then Finished(s, w)
      else
        var line := EnvelopeLine(c, event, tail.value.records + 1, tail.value.previousHash);
        if line.None? then Finished(s, w)
        else s.(phases := s.phases[w := Writing(event, line.value + "\n", 0)])
    case WriteSome(w, count) =>
      var p := PhaseOf(s, w);
      var to := p.written + count;
      s.(file := s.file + p.line[p.written..to],
         phases := s.phases[w := p.(written := to)],
         commits := if to == |p.line| then s.commits + [Commit(w, p.event, false)] else s.commits)
    case Release(w, ok) =>
      var f := Finished(s, w);
      if ok then f.(commits := s.commits[|s.commits| - 1 := s.commits[|s.commits| - 1].(acked := true)]) else f
  }

  function CommitEvents<E>(cs: seq<Commit<E>>): (r: seq<Option<E>>)
    ensures |r| == |cs|
    ensures forall i :: 0 <= i < |cs| ==> r[i] == Some(cs[i].event)
  {
    seq(|cs|, i requires 0 <= i < |cs| => Some(cs[i].event))
  }

  /** `rest` is a proper prefix of one next line. */
  ghost predicate PartOfLine<E(!new)>(c: Codec<E>, lines: seq<Text>, rest: Text) {
    rest == "" || exists event :: PartFor(c, lines, event, rest)
  }

  ghost predicate PartFor<E(!new)>(c: Codec<E>, lines: seq<Text>, event: E, rest: Text) {
    && |lines| < U64_MAX
    && var line := EnvelopeLine(c, event, |lines| + 1, TailHash(c, lines));
    && line.Some?
    && |rest| <= |line.value|
    && rest == line.value[..|rest|]
  }

  /** What the writer in the middle of its line has put into the file. */
  ghost predicate MidWrite<E(!new)>(c: Codec<E>, s: System<E>, lines: seq<Text>, rest: Text, w: Writer, p: Phase<E>) {
    p.Writing? ==>
      if p.written < |p.line| then
        && |lines| < U64_MAX
        && var line := EnvelopeLine(c, p.event, |lines| + 1, TailHash(c, lines));
        && line.Some? && p.line == line.value + "\n" && rest == line.value[..p.written]
      else
        && p.written == |p.line| && rest == ""
        && s.commits != [] && s.commits[|s.commits| - 1] == Commit(w, p.event, false)
  }

  /** The file is a chain, holding the initial events followed by the committed
      ones, and a proper prefix of one more line. */
  ghost predicate FileSound<E(!new)>(c: Codec<E>, initial: seq<Option<E>>, file: Text, commits: seq<Commit<E>>,
                                     lines: seq<Text>, rest: Text) {
    && file == Join(lines) + rest
    && Chained(c, lines) && |lines| <= U64_MAX
    && PartOfLine(c, lines, rest)
    && Events(c, lines) == initial + CommitEvents(commits)
  }

  /** Only the lock holder is busy, and the unfinished line is its own. */
  ghost predicate OneBusy<E(!new)>(c: Codec<E>, s: System<E>, lines: seq<Text>, rest: Text) {
    forall w :: w in s.phases && !s.phases[w].Idle? ==> s.lock == Some(w) && MidWrite(c, s, lines, rest, w, s.phases[w])
  }

  ghost predicate Sound<E(!new)>(c: Codec<E>, initial: seq<Option<E>>, s: System<E>, lines: seq<Text>, rest: Text) {
    FileSound(c, initial, s.file, s.commits, lines, rest) && OneBusy(c, s, lines, rest)
  }

  ghost predicate Good<E(!new)>(c: Codec<E>, initial: seq<Option<E>>, s: System<E>) {
    exists lines, rest :: Sound(c, initial, s, lines, rest)
  }

  lemma {:induction false} PartHasNoNewline<E(!new)>(c: Codec<E>, lines: seq<Text>, rest: Text)
    requires ValidCodec(c) && Chained(c, lines) && PartOfLine(c, lines, rest)
    ensures '\n' !in rest
  {
    if rest != "" {
      var event :| PartFor(c, lines, event, rest);
      ExtendChain(c, lines, event);
    }
  }

  /** An unfinished last line makes the tail read fail. */
  lemma {:induction false} TornTailFails<E(!new)>(c: Codec<E>, contents: Text)
    requires contents != "" && contents[|contents| - 1] != '\n'
    ensures TailOf(c, contents) == Err(Unterminated)
  {
  }

  /** With the last line complete the tail read finds the chain's tail, or fails
      because the window is too small. */
  lemma {:induction false} WholeTail<E(!new)>(c: Codec<E>, initial: seq<Option<E>>, s: System<E>, lines: seq<Text>)
    requires FileSound(c, initial, s.file, s.commits, lines, "")
    ensures TailOf(c, s.file).Ok? ==> TailOf(c, s.file) == Ok(ChainTail(|lines|, TailHash(c, lines)))
  {
    assert s.file == Join(lines);
    TailOfChain(c, lines);
  }

  lemma {:induction false} PartTail<E(!new)>(c: Codec<E>, initial: seq<Option<E>>, s: System<E>, lines: seq<Text>,
                                             rest: Text)
    requires ValidCodec(c) && FileSound(c, initial, s.file, s.commits, lines, rest) && rest != ""
    ensures TailOf(c, s.file).Err?
  {
    PartHasNoNewline(c, lines, rest);
    assert s.file[|s.file| - 1] == rest[|rest| - 1];
    TornTailFails(c, s.file);
  }

  lemma {:induction false} PreparedBusy<E(!new)>(c: Codec<E>, s: System<E>, lines: seq<Text>, w: Writer)
    requires OneBusy(c, s, lines, "") && Enabled(s, ReadTail(w))
    requires TailOf(c, s.file).Ok? ==> TailOf(c, s.file) == Ok(ChainTail(|lines|, TailHash(c, lines)))
    ensures OneBusy(c, Next(c, s, ReadTail(w)), lines, "")
  {
    var tail := TailOf(c, s.file);
    if tail.Ok? && tail.value.records < U64_MAX {
      var line := EnvelopeLine(c, PhaseOf(s, w).event, |lines| + 1, TailHash(c, lines));
      if line.Some? { assert line.value[..0] == ""; }
    }
  }

  /** Reading the tail of a sound file prepares the right line or none. */
  lemma {:induction false} ReadTailSound<E(!new)>(c: Codec<E>, initial: seq<Option<E>>, s: System<E>, lines: seq<Text>,
                                                  rest: Text, w: Writer)
    requires ValidCodec(c) && Sound(c, initial, s, lines, rest) && Enabled(s, ReadTail(w))
    ensures Sound(c, initial, Next(c, s, ReadTail(w)), lines, rest)
  {
    if rest != "" {
      PartTail(c, initial, s, lines, rest);
      assert Next(c, s, ReadTail(w)) == Finished(s, w);
    } else {
      WholeTail(c, initial, s, lines);
      PreparedBusy(c, s, lines, w);
    }
  }

  /** The writer's line, and how much of it the file ends with. */
  lemma {:induction false} WriterLine<E(!new)>(c: Codec<E>, initial: seq<Option<E>>, s: System<E>, lines: seq<Text>,
                                               rest: Text, w: Writer)
    returns (line: Text)
    requires Sound(c, initial, s, lines, rest) && PhaseOf(s, w).Writing? && PhaseOf(s, w).written < |PhaseOf(s, w).line|
    ensures |lines| < U64_MAX && EnvelopeLine(c, PhaseOf(s, w).event, |lines| + 1, TailHash(c, lines)) == Some(line)
    ensures PhaseOf(s, w).line == line + "\n" && PhaseOf(s, w).written <= |line|
            && rest == line[..PhaseOf(s, w).written]
    ensures s.lock == Some(w) && forall v :: v in s.phases && v != w ==> s.phases[v].Idle?
  {
    assert MidWrite(c, s, lines, rest, w, s.phases[w]);
    line := EnvelopeLine(c, PhaseOf(s, w).event, |lines| + 1, TailHash(c, lines)).value;
  }

  lemma LongerPrefix(line: Text, whole: Text, from: nat, to: nat)
    requires whole == line + "\n" && from <= |line| && from <= to <= |whole|
    ensures line[..from] + whole[from..to] == whole[..to]
    ensures to <= |line| ==> whole[..to] == line[..to]
    ensures to == |whole| ==> whole[..to] == line + "\n"
  {
  }

  lemma {:induction false} LongerPart<E(!new)>(c: Codec<E>, initial: seq<Option<E>>, file: Text,
                                               commits: seq<Commit<E>>, lines: seq<Text>, event: E, line: Text,
                                               from: nat, to: nat)
    requires |lines| < U64_MAX && EnvelopeLine(c, event, |lines| + 1, TailHash(c, lines)) == Some(line)
    requires from <= to <= |line| && FileSound(c, initial, file, commits, lines, line[..from])
    ensures FileSound(c, initial, file + (line + "\n")[from..to], commits, lines, line[..to])
  {
    LongerPrefix(line, line + "\n", from, to);
    assert PartFor(c, lines, event, line[..to]);
    ConcatThree(Join(lines), line[..from], (line + "\n")[from..to]);
  }

  lemma {:induction false} CompletedLine<E(!new)>(c: Codec<E>, initial: seq<Option<E>>, file: Text,
                                                  commits: seq<Commit<E>>, lines: seq<Text>, event: E, line: Text,
                                                  from: nat, w: Writer)
    requires ValidCodec(c)
    requires |lines| < U64_MAX && EnvelopeLine(c, event, |lines| + 1, TailHash(c, lines)) == Some(line)
    requires from <= |line| && FileSound(c, initial, file, commits, lines, line[..from])
    ensures FileSound(c, initial, file + (line + "\n")[from..], commits + [Commit(w, event, false)], lines + [line], "")
  {
    var file', commits', lines' := file + (line + "\n")[from..], commits + [Commit(w, event, false)], lines + [line];
    assert file' == Join(lines') + "" by {
      LongerPrefix(line, line + "\n", from, |line| + 1);
      ConcatThree(Join(lines), line[..from], (line + "\n")[from..]);
      JoinNext(lines, line);
      ConcatThree(Join(lines), line, "\n");
    }
    assert Chained(c, lines') && EventOf(c, line) == Some(event) by { ExtendChain(c, lines, event); }
    EventsNext(c, lines, line, commits, Commit(w, event, false));
  }

  lemma {:induction false} EventsNext<E(!new)>(c: Codec<E>, lines: seq<Text>, line: Text, commits: seq<Commit<E>>,
                                               commit: Commit<E>)
    ensures Events(c, lines + [line]) == Events(c, lines) + [EventOf(c, line)]
    ensures CommitEvents(commits + [commit]) == CommitEvents(commits) + [Some(commit.event)]
  {
  }

  /** Writing more of the line, short of its end. */
  lemma {:induction false} PartialWrite<E(!new)>(c: Codec<E>, initial: seq<Option<E>>, s: System<E>, lines: seq<Text>,
                                                 rest: Text, w: Writer, count: nat)
    requires Sound(c, initial, s, lines, rest) && Enabled(s, WriteSome(w, count))
    requires PhaseOf(s, w).written + count < |PhaseOf(s, w).line|
    ensures Good(c, initial, Next(c, s, WriteSome(w, count)))
  {
    var p, s' := PhaseOf(s, w), Next(c, s, WriteSome(w, count));
    var to := p.written + count;
    var line := WriterLine(c, initial, s, lines, rest, w);
    LongerPart(c, initial, s.file, s.commits, lines, p.event, line, p.written, to);
    assert OneBusy(c, s', lines, line[..to]);
    assert Sound(c, initial, s', lines, line[..to]);
  }

  /** Writing the rest of the line, which commits the record. */
  lemma {:induction false} CompletingWrite<E(!new)>(c: Codec<E>, initial: seq<Option<E>>, s: System<E>,
                                                    lines: seq<Text>, rest: Text, w: Writer, count: nat)
    requires ValidCodec(c) && Sound(c, initial, s, lines, rest) && Enabled(s, WriteSome(w, count))
    requires PhaseOf(s, w).written + count == |PhaseOf(s, w).line|
    ensures Good(c, initial, Next(c, s, WriteSome(w, count)))
  {
    var p, s' := PhaseOf(s, w), Next(c, s, WriteSome(w, count));
    var line := WriterLine(c, initial, s, lines, rest, w);
    assert p.line[p.written..p.written + count] == (line + "\n")[p.written..];
    CompletedLine(c, initial, s.file, s.commits, lines, p.event, line, p.written, w);
    assert FileSound(c, initial, s'.file, s'.commits, lines + [line], "");
    CompletedBusy(c, s, s', lines + [line], w);
    assert Sound(c, initial, s', lines + [line], "");
  }

  /** A writer that has completed its line is the only busy one. */
  lemma {:induction false} CompletedBusy<E(!new)>(c: Codec<E>, s: System<E>, s': System<E>, lines: seq<Text>, w: Writer)
    requires s'.lock == Some(w) && w in s'.phases && s'.phases[w].Writing?
    requires s'.phases[w].written == |s'.phases[w].line|
    requires s'.commits != [] && s'.commits[|s'.commits| - 1] == Commit(w, s'.phases[w].event, false)
    requires forall v :: v in s'.phases && v != w ==> s'.phases[v].Idle?
    ensures OneBusy(c, s', lines, "")
  {
  }

  lemma {:induction false} ReleaseSound<E(!new)>(c: Codec<E>, initial: seq<Option<E>>, s: System<E>, lines: seq<Text>,
                                                 rest: Text, w: Writer, ok: bool)
    requires Sound(c, initial, s, lines, rest) && Enabled(s, Release(w, ok))
    ensures Sound(c, initial, Next(c, s, Release(w, ok)), lines, rest)
  {
    var s' := Next(c, s, Release(w, ok));
    assert CommitEvents(s'.commits) == CommitEvents(s.commits);
  }

  /** Every step of every interleaving keeps the file sound. */
  lemma {:induction false} StepKeepsGood<E(!new)>(c: Codec<E>, initial: seq<Option<E>>, s: System<E>, step: Step<E>)
    requires ValidCodec(c) && Good(c, initial, s) && Enabled(s, step)
    ensures Good(c, initial, Next(c, s, step))
  {
    var lines, rest :| Sound(c, initial, s, lines, rest);
    match step
    case Acquire(w, event) => assert Sound(c, initial, Next(c, s, step), lines, rest);
    case ReadTail(w) => ReadTailSound(c, initial, s, lines, rest, w);
    case WriteSome(w, count) =>
      if PhaseOf(s, w).written + count < |PhaseOf(s, w).line| {
        PartialWrite(c, initial, s, lines, rest, w, count);
      } else {
        CompletingWrite(c, initial, s, lines, rest, w, count);
      }
    case Release(w, ok) => ReleaseSound(c, initial, s, lines, rest, w, ok);
  }

  /** A run: each state follows from the one before by an enabled step. */
  ghost predicate IsRun<E(!new)>(c: Codec<E>, states: seq<System<E>>, steps: seq<Step<E>>) {
    && |states| == |steps| + 1
    && forall i :: 0 <= i < |steps| ==> Enabled(states[i], steps[i]) && states[i + 1] == Next(c, states[i], steps[i])
  }

  /** Any file an append may extend, nobody at work. */
  ghost predicate Initial<E(!new)>(c: Codec<E>, s: System<E>) {
    Extendable(c, s.file) && s.lock.None? && s.phases == map[] && s.commits == []
  }

  ghost function InitialEvents<E(!new)>(c: Codec<E>, s: System<E>): seq<Option<E>> {
    Events(c, FileLines(s.file))
  }

  lemma {:induction false} InitialIsGood<E(!new)>(c: Codec<E>, s: System<E>)
    requires Initial(c, s)
    ensures Good(c, InitialEvents(c, s), s)
  {
    var lines := ExtendableLines(c, s.file);
    assert lines == FileLines(s.file);
    assert s.file == Join(lines) + "";
    assert Events(c, lines) == InitialEvents(c, s) + CommitEvents(s.commits);
    assert Sound(c, InitialEvents(c, s), s, lines, "");
  }

  /** Concurrent append: in every state of every run, with every interleaving of
      writers and every torn write, the file is a chain followed by a proper
      prefix of one line; the chain holds the initial events and then exactly the
      committed records, each once, in lock order. */
  lemma {:induction false} RunStaysGood<E(!new)>(c: Codec<E>, states: seq<System<E>>, steps: seq<Step<E>>, i: nat)
    requires ValidCodec(c) && IsRun(c, states, steps) && i <= |steps|
    requires states[0].file == "" || Verify(c, states[0].file).Verified?
    requires states[0].lock.None? && states[0].phases == map[] && states[0].commits == []
    ensures Good(c, InitialEvents(c, states[0]), states[i])
  {
    if i == 0 {
      InitialIsGood(c, states[0]);
    } else {
      RunStaysGood(c, states, steps, i - 1);
      StepKeepsGood(c, InitialEvents(c, states[0]), states[i - 1], steps[i - 1]);
    }
  }

  /** With the last line complete, the file of a sound state verifies with as many
      records as there are initial and committed ones, below the sequence limit. */
  lemma {:induction false} GoodVerifies<E(!new)>(c: Codec<E>, initial: seq<Option<E>>, s: System<E>, lines: seq<Text>,
                                                 rest: Text)
    requires ValidCodec(c) && Sound(c, initial, s, lines, rest)
    ensures |lines| == |initial| + |s.commits|
    ensures 0 < |lines| < U64_MAX ==> Verify(c, Join(lines)) == Verified(|initial| + |s.commits|)
    ensures rest == "" && 0 < |lines| < U64_MAX ==> Verify(c, s.file) == Verified(|initial| + |s.commits|)
  {
    if 0 < |lines| < U64_MAX {
      ChainVerifies(c, lines);
      assert Join(lines) + "" == Join(lines);
    }
  }

  /** A writer that finds the lock free prepares exactly what one `Record` call
      without retention decides: the same line, or giving up with nothing changed. */
  lemma {:induction false} WriterPreparesRecord<E(!new)>(c: Codec<E>, s: System<E>, w: Writer, event: E)
    requires Enabled(s, Acquire(w, event))
    ensures var s' := Next(c, Next(c, s, Acquire(w, event)), ReadTail(w));
            match Decide(c, s.file, Retention(None, None), event)
            case Refuse(_) => s' == s.(phases := s.phases[w := Idle])
            case Append(line) => s' == s.(lock := Some(w), phases := s.phases[w := Writing(event, line, 0)])
            case Rotate(_) => false
  {
    var held := Next(c, s, Acquire(w, event));
    assert PhaseOf(held, w) == Holding(event);
    var d := Decide(c, s.file, Retention(None, None), event);
    Overwritten(s.phases, w, Holding(event), if d.Append? then Writing(event, d.line, 0) else Idle);
  }

  lemma Overwritten<K, V>(m: map<K, V>, k: K, before: V, after: V)
    ensures m[k := before][k := after] == m[k := after]
  {
  }

  /** The state while a writer writes: the lock is its own and nothing else differs. */
  ghost predicate Prepared<E(!new)>(s: System<E>, s': System<E>, w: Writer, event: E, line: Text, written: nat) {
    && written <= |line| && s'.lock == Some(w)
    && w in s'.phases && s'.phases[w] == Writing(event, line, written)
    && s'.file == s.file + line[..written]
    && s'.commits == s.commits + if written == |line| then [Commit(w, event, false)] else []
  }

  lemma {:induction false} LoneWrite<E(!new)>(c: Codec<E>, s: System<E>, s': System<E>, w: Writer, event: E, line: Text,
                                              written: nat, count: nat)
    requires Prepared(s, s', w, event, line, written) && 0 < count && written + count <= |line|
    ensures Enabled(s', WriteSome(w, count))
    ensures Prepared(s, Next(c, s', WriteSome(w, count)), w, event, line, written + count)
  {
    assert line[..written] + line[written..written + count] == line[..written + count];
    ConcatThree(s.file, line[..written], line[written..written + count]);
  }

  lemma {:induction false} LoneStart<E(!new)>(c: Codec<E>, s: System<E>, w: Writer, event: E, line: Text)
    requires s.lock.None? && (w !in s.phases || s.phases[w] == Idle)
    requires Decide(c, s.file, Retention(None, None), event) == Append(line) && line != ""
    ensures Enabled(s, Acquire(w, event)) && Enabled(Next(c, s, Acquire(w, event)), ReadTail(w))
    ensures Prepared(s, Next(c, Next(c, s, Acquire(w, event)), ReadTail(w)), w, event, line, 0)
  {
    WriterPreparesRecord(c, s, w, event);
    assert line[..0] == "" && s.file + "" == s.file;
  }

  lemma {:induction false} LoneEnd<E(!new)>(c: Codec<E>, s: System<E>, s': System<E>, w: Writer, event: E, line: Text)
    requires Prepared(s, s', w, event, line, |line|)
    ensures Enabled(s', Release(w, true))
    ensures var end := Next(c, s', Release(w, true));
            && end.file == s.file + line && end.commits == s.commits + [Commit(w, event, true)]
            && end.lock.None? && w in end.phases && end.phases[w] == Idle
  {
    assert line[..|line|] == line;
  }

  /** Each state follows from the one before. */
  ghost predicate Follow<E(!new)>(c: Codec<E>, s: System<E>, step: Step<E>, s': System<E>) {
    Enabled(s, step) && s' == Next(c, s, step)
  }

  /** A writer that finds the lock free and a tail to append to gets its record into
      the file, in two writes split anywhere: each step is possible, and in the end the
      file has grown by the line one `Record` call appends, the record is the last one
      acknowledged, and the lock is free again. */
  lemma {:induction false} LoneWriterSucceeds<E(!new)>(c: Codec<E>, s: System<E>, w: Writer, event: E, line: Text,
                                                       split: nat)
    returns (s1: System<E>, s2: System<E>, s3: System<E>, s4: System<E>, s5: System<E>)
    requires s.lock.None? && (w !in s.phases || s.phases[w] == Idle)
    requires Decide(c, s.file, Retention(None, None), event) == Append(line) && 0 < split < |line|
    ensures Follow(c, s, Acquire(w, event), s1) && Follow(c, s1, ReadTail(w), s2)
    ensures Follow(c, s2, WriteSome(w, split), s3) && Follow(c, s3, WriteSome(w, |line| - split), s4)
    ensures Follow(c, s4, Release(w, true), s5)
    ensures s5.file == s.file + line && s5.commits == s.commits + [Commit(w, event, true)]
    ensures s5.lock.None? && w in s5.phases && s5.phases[w] == Idle
  {
    LoneStart(c, s, w, event, line);
    s1 := Next(c, s, Acquire(w, event));
    s2 := Next(c, s1, ReadTail(w));
    LoneWrite(c, s, s2, w, event, line, 0, split);
    s3 := Next(c, s2, WriteSome(w, split));
    LoneWrite(c, s, s3, w, event, line, split, |line| - split);
    s4 := Next(c, s3, WriteSome(w, |line| - split));
    LoneEnd(c, s, s4, w, event, line);
    s5 := Next(c, s4, Release(w, true));
  }

  /** When each step is possible: nobody else may hold the lock, a writer writes as many
      bytes as it has left, and it may give up, or die, at any moment. */
  lemma StepsSpelledOut<E(!new)>(s: System<E>, w: Writer, event: E, count: nat)
    ensures Enabled(s, Acquire(w, event)) <==> s.lock.None? && (w !in s.phases || s.phases[w].Idle?)
    ensures Enabled(s, ReadTail(w)) <==> w in s.phases && s.phases[w].Holding?
    ensures Enabled(s, WriteSome(w, count))
            <==> w in s.phases && s.phases[w].Writing? && 0 < count <= |s.phases[w].line| - s.phases[w].written
    ensures Enabled(s, Release(w, false)) <==> w in s.phases && !s.phases[w].Idle?
    ensures Enabled(s, Release(w, true))
            <==> w in s.phases && s.phases[w].Writing? && |s.phases[w].line| == s.phases[w].written && s.commits != []
  {
  }

  /** Giving up leaves the bytes and the records, and frees the lock. */
  lemma GivingUp<E(!new)>(c: Codec<E>, s: System<E>, w: Writer)
    requires Enabled(s, Release(w, false))
    ensures var s' := Next(c, s, Release(w, false));
            && s'.file == s.file && s'.commits == s.commits && s'.lock.None?
            && w in s'.phases && s'.phases[w] == Idle
            && forall v :: v != w && v in s.phases ==> v in s'.phases && s'.phases[v] == s.phases[v]
  {
  }

  // ---- Acknowledged records -----------------------------------------------------------

  /** The records reported as successful so far, in order. */
  function Acked<E>(cs: seq<Commit<E>>): seq<(Writer, E)> {
    if cs == [] then []
    else
      var front := Acked(cs[..|cs| - 1]);
      var last := cs[|cs| - 1];
      if last.acked then front + [(last.writer, last.event)] else front
  }

  lemma {:induction false} AckedNext<E(!new)>(cs: seq<Commit<E>>, commit: Commit<E>)
    requires !commit.acked
    ensures Acked(cs + [commit]) == Acked(cs)
  {
    assert (cs + [commit])[..|cs|] == cs;
  }

  lemma {:induction false} AckedLast<E(!new)>(cs: seq<Commit<E>>)
    requires cs != [] && !cs[|cs| - 1].acked
    ensures var last := cs[|cs| - 1];
            Acked(cs[|cs| - 1 := last.(acked := true)]) == Acked(cs) + [(last.writer, last.event)]
  {
    assert cs[|cs| - 1 := cs[|cs| - 1].(acked := true)][..|cs| - 1] == cs[..|cs| - 1];
  }

  /** `now` is `before` with at most acknowledgements and new commits added. */
  predicate Keeps<E(==)>(before: seq<Commit<E>>, now: seq<Commit<E>>) {
    |before| <= |now| && forall i :: 0 <= i < |before| ==> now[i].(acked := before[i].acked) == before[i]
  }

  /** A success acknowledges the writer's own record. */
  lemma {:induction false} AckedByRelease<E(!new)>(c: Codec<E>, s: System<E>, lines: seq<Text>, rest: Text, w: Writer)
    requires OneBusy(c, s, lines, rest) && Enabled(s, Release(w, true))
    ensures Acked(Next(c, s, Release(w, true)).commits) == Acked(s.commits) + [(w, PhaseOf(s, w).event)]
    ensures Keeps(s.commits, Next(c, s, Release(w, true)).commits)
  {
    assert MidWrite(c, s, lines, rest, w, s.phases[w]);
    AckedLast(s.commits);
  }

  lemma {:induction false} NothingAcked<E(!new)>(c: Codec<E>, s: System<E>, step: Step<E>)
    requires Enabled(s, step) && !(step.Release? && step.ok)
    ensures Acked(Next(c, s, step).commits) == Acked(s.commits) && Keeps(s.commits, Next(c, s, step).commits)
  {
    if step.WriteSome? { AckedNext(s.commits, Commit(step.writer, PhaseOf(s, step.writer).event, false)); }
  }

  /** Each success adds exactly its own record to the acknowledged list, no other
      step changes that list, and commits are never taken back. */
  lemma {:induction false} AckedGrows<E(!new)>(c: Codec<E>, initial: seq<Option<E>>, s: System<E>, step: Step<E>)
    requires Good(c, initial, s) && Enabled(s, step)
    ensures Acked(Next(c, s, step).commits)
            == Acked(s.commits)
               + if step.Release? && step.ok then [(step.writer, PhaseOf(s, step.writer).event)] else []
    ensures Keeps(s.commits, Next(c, s, step).commits)
  {
    if step.Release? && step.ok {
      var lines, rest :| OneBusy(c, s, lines, rest);
      AckedByRelease(c, s, lines, rest, step.writer);
    } else {
      NothingAcked(c, s, step);
    }
  }

  // ---- After a torn write ---------------------------------------------------------------

  /** The file ends inside a line and nobody is writing. */
  ghost predicate Torn<E>(s: System<E>) {
    && s.file != "" && s.file[|s.file| - 1] != '\n'
    && forall w :: w in s.phases ==> !s.phases[w].Writing?
  }

  /** After a torn write every later append fails and leaves the bytes unchanged. */
  lemma {:induction false} TornStaysTorn<E(!new)>(c: Codec<E>, states: seq<System<E>>, steps: seq<Step<E>>, i: nat)
    requires IsRun(c, states, steps) && Torn(states[0]) && i <= |steps|
    ensures Torn(states[i]) && states[i].file == states[0].file && states[i].commits == states[0].commits
    ensures i < |steps| ==> !steps[i].WriteSome? && !(steps[i].Release? && steps[i].ok)
  {
    if i > 0 {
      TornStaysTorn(c, states, steps, i - 1);
      TornTailFails(c, states[i - 1].file);
    }
  }
}
