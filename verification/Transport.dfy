/** Bounded newline-delimited frames read from a buffered stream
    (crates/mcp-server/src/transport.rs). */
module Transport {
  import opened Common

  /** A stream: the bytes not consumed yet. How many of them `FillBuf` shows is
      up to the stream. */
  class Reader {
    var rest: Text

    constructor (bytes: Text)
      ensures rest == bytes
    {
      rest := bytes;
    }

    /** `BufRead::fill_buf`: some bytes of the stream, none only at its end. */
    method FillBuf() returns (available: Text)
      ensures available <= rest
      ensures available == "" <==> rest == ""
    {
      var n :| (if rest == "" then 0 else 1) <= n <= |rest|;
      available := rest[..n];
    }

    method Consume(count: nat)
      requires count <= |rest|
      modifies this
      ensures rest == old(rest)[count..]
    {
      rest := rest[count..];
    }
  }

  datatype Outcome = Eof | Line | TooLarge | Unterminated

  /** No newline among the first `n` bytes. */
  ghost predicate Clear(bytes: Text, n: nat) {
    n <= |bytes| && forall i :: 0 <= i < n ==> bytes[i] != '\n'
  }

  /** The offset of the first newline at or after `from`, or the length. */
  function NewlineFrom(bytes: Text, from: nat): (n: nat)
    requires from <= |bytes|
    ensures from <= n <= |bytes| && forall i :: from <= i < n ==> bytes[i] != '\n'
    ensures n < |bytes| ==> bytes[n] == '\n'
    decreases |bytes| - from
  {
    if from == |bytes| || bytes[from] == '\n' then from else NewlineFrom(bytes, from + 1)
  }

  function LineEnd(bytes: Text): (n: nat)
    ensures Clear(bytes, n)
    ensures n < |bytes| ==> bytes[n] == '\n'
  {
    NewlineFrom(bytes, 0)
  }

  /** What reading one frame gives, as a function of the bytes alone. */
  function FrameOutcome(bytes: Text, limit: nat): Outcome {
    if bytes == "" then Eof
    else if LineEnd(bytes) > limit then TooLarge
    else if LineEnd(bytes) < |bytes| then Line
    else Unterminated
  }

  /** What it leaves in the buffer. */
  function FrameBuffer(bytes: Text, limit: nat): Text {
    if LineEnd(bytes) > limit then bytes[..limit + 1] else bytes[..LineEnd(bytes)]
  }

  /** What it leaves in the stream: after an oversized frame the newline right
      after the detection byte may be gone or not. */
  ghost predicate FrameRest(bytes: Text, limit: nat, rest: Text) {
    match FrameOutcome(bytes, limit)
    case Line => rest == bytes[LineEnd(bytes) + 1..]
    case TooLarge =>
      || rest == bytes[limit + 1..]
      || (limit + 2 <= |bytes| && bytes[limit + 1] == '\n' && rest == bytes[limit + 2..])
    case _ => rest == ""
  }

  /** The bytes read so far and the bytes still to read make up the stream, and
      no newline or oversized frame has been seen. */
  ghost predicate Reading(bytes: Text, limit: nat, buf: Text, rest: Text) {
    bytes == buf + rest && Clear(bytes, |buf|) && |buf| <= limit
  }

  /** `take` more bytes of the stream go into the buffer. */
  lemma TakeMore(bytes: Text, buf: Text, rest: Text, take: nat)
    requires bytes == buf + rest && take <= |rest|
    ensures buf + rest[..take] == bytes[..|buf| + take]
    ensures rest[take..] == bytes[|buf| + take..]
    ensures bytes == (buf + rest[..take]) + rest[take..]
    ensures forall i :: 0 <= i < |rest| ==> bytes[|buf| + i] == rest[i]
  {
  }

  /** One read of `bytes` may end like this. */
  ghost predicate FrameRead(bytes: Text, limit: nat, outcome: Outcome, buf: Text, rest: Text) {
    && outcome == FrameOutcome(bytes, limit)
    && buf == FrameBuffer(bytes, limit)
    && FrameRest(bytes, limit, rest)
  }

  /** Appending a shown chunk. */
  lemma {:induction false} ChunkStep(bytes: Text, limit: nat, buf: Text, rest: Text, available: Text, take: nat)
    requires Reading(bytes, limit, buf, rest) && available <= rest && take <= LineEnd(available)
    requires |buf| + take <= limit + 1
    ensures Clear(bytes, |buf| + take) && bytes == (buf + available[..take]) + rest[take..]
  {
    assert available[..take] == rest[..take];
    TakeMore(bytes, buf, rest, take);
    forall i | 0 <= i < |buf| + take ensures bytes[i] != '\n' {
      if i >= |buf| { assert bytes[i] == rest[i - |buf|] == available[i - |buf|]; }
    }
  }

  /** The chunk holds the newline and the buffer has room up to it. */
  lemma {:induction false} NewlineStep(bytes: Text, limit: nat, buf: Text, rest: Text, available: Text, take: nat)
    requires Reading(bytes, limit, buf, rest) && available <= rest && take == LineEnd(available) < |available|
    requires |buf| + take <= limit + 1
    ensures FrameRead(bytes, limit, if |buf| + take > limit then TooLarge else Line, buf + available[..take],
                      rest[take + 1..])
  {
    ChunkStep(bytes, limit, buf, rest, available, take);
    TakeMore(bytes, buf, rest, take);
    TakeMore(bytes, buf, rest, take + 1);
    assert bytes[|buf| + take] == rest[take] == available[take];
    assert LineEnd(bytes) == |buf| + take;
    assert available[..take] == rest[..take];
  }

  /** The buffer is full and no newline has been seen. */
  lemma {:induction false} FullStep(bytes: Text, limit: nat, buf: Text, rest: Text)
    requires bytes == buf + rest && Clear(bytes, |buf|) && |buf| == limit + 1
    ensures FrameRead(bytes, limit, TooLarge, buf, rest)
  {
    assert LineEnd(bytes) >= |buf|;
    assert bytes[..limit + 1] == buf && bytes[limit + 1..] == rest;
  }

  /** One chunk: the frame ends in it, or the buffer is full, or reading goes on. */
  lemma {:induction false} TakeChunk(bytes: Text, limit: nat, buf: Text, rest: Text, available: Text, take: nat)
    requires Reading(bytes, limit, buf, rest) && available <= rest
    requires take == Min(LineEnd(available), limit + 1 - |buf|)
    ensures take == LineEnd(available) < |available| ==>
              FrameRead(bytes, limit, if |buf| + take > limit then TooLarge else Line, buf + available[..take],
                        rest[take + 1..])
    ensures take != LineEnd(available) || take == |available| ==>
              if |buf| + take == limit + 1 then FrameRead(bytes, limit, TooLarge, buf + available[..take], rest[take..])
              else Reading(bytes, limit, buf + available[..take], rest[take..])
  {
    ChunkStep(bytes, limit, buf, rest, available, take);
    if take == LineEnd(available) < |available| {
      NewlineStep(bytes, limit, buf, rest, available, take);
    } else if |buf| + take == limit + 1 {
      FullStep(bytes, limit, buf + available[..take], rest[take..]);
    }
  }

  lemma {:induction false} EndOfStream(bytes: Text, limit: nat, buf: Text)
    requires Reading(bytes, limit, buf, "")
    ensures FrameRead(bytes, limit, if buf == "" then Eof else Unterminated, buf, "")
  {
    assert bytes == buf;
    assert LineEnd(bytes) == |buf|;
  }

  /** One pass of the loop: a chunk goes into the buffer up to its newline or to
      the capacity, and the frame ends or there is more to read. */
  method ReadChunk(reader: Reader, limit: nat, capacity: nat, buf: Text, ghost bytes: Text)
    returns (end: Option<Outcome>, buf': Text)
    requires capacity == limit + 1 || |bytes| < capacity == limit
    requires Reading(bytes, limit, buf, reader.rest)
    modifies reader
    ensures |buf'| <= limit + 1
    ensures end.Some? ==> FrameRead(bytes, limit, end.value, buf', reader.rest)
    ensures end.None? ==> Reading(bytes, limit, buf', reader.rest) && |reader.rest| < |old(reader.rest)|
    ensures end == Some(Line) ==> |reader.rest| < |old(reader.rest)|
  {
    var available := reader.FillBuf();
    if available == "" {
      EndOfStream(bytes, limit, buf);
      return Some(if buf == "" then Eof else Unterminated), buf;
    }
    var index := LineEnd(available);
    var take := Min(index, capacity - |buf|);
    TakeChunk(bytes, limit, buf, reader.rest, available, take);
    buf' := buf + available[..take];
    if index < |available| && take == index {
      reader.Consume(take + 1);
      return Some(if |buf'| > limit then TooLarge else Line), buf';
    }
    reader.Consume(take);
    end := if |buf'| >= capacity then Some(TooLarge) else None;
  }

  /** Chunk independence: however the stream cuts its bytes, one read gives the
      outcome and buffer its bytes determine, never buffers more than one byte
      past the limit, and a complete frame consumes itself and its newline. At
      the largest machine limit this needs a stream shorter than that limit. */
  method ReadFrame(reader: Reader, limit: nat) returns (outcome: Outcome, buf: Text)
    requires limit < U64_MAX || (limit == U64_MAX && |reader.rest| < U64_MAX)
    modifies reader
    ensures FrameRead(old(reader.rest), limit, outcome, buf, reader.rest) && |buf| <= limit + 1
    ensures outcome.Line? ==> |reader.rest| < |old(reader.rest)|
  {
    ghost var bytes := reader.rest;
    var capacity := SaturatingAdd(limit, 1);
    var end;
    end, buf := ReadChunk(reader, limit, capacity, "", bytes);
    while end.None?
      invariant |reader.rest| <= |bytes| && |buf| <= limit + 1
      invariant end.None? ==> Reading(bytes, limit, buf, reader.rest)
      invariant end.Some? ==> FrameRead(bytes, limit, end.value, buf, reader.rest)
      invariant end == Some(Line) ==> |reader.rest| < |bytes|
      decreases end.None?, |reader.rest|
    {
      end, buf := ReadChunk(reader, limit, capacity, buf, bytes);
    }
    outcome := end.value;
  }

  // ---- Serving ------------------------------------------------------------------

  /** What the server does about one frame; blank frames give no event. */
  datatype Event = Dispatch(frame: Text) | NotUtf8 | OverLimit | NotTerminated

  datatype Reply = Answer(text: Text) | Refusal(event: Event)

  predicate IsAsciiWhitespace(c: char) { c as int in {9, 10, 12, 13, 32} }

  predicate Blank(frame: Text) {
    forall i :: 0 <= i < |frame| ==> IsAsciiWhitespace(frame[i])
  }

  function FrameEvents(utf8: Text -> bool, frame: Text): seq<Event> {
    if Blank(frame) then [] else if !utf8(frame) then [NotUtf8] else [Dispatch(frame)]
  }

  /** The events of a whole session, fixed by the bytes alone. */
  function Plan(utf8: Text -> bool, bytes: Text, limit: nat): seq<Event>
    decreases |bytes|
  {
    match FrameOutcome(bytes, limit)
    case Eof => []
    case TooLarge => [OverLimit]
    case Unterminated => [NotTerminated]
    case Line => FrameEvents(utf8, FrameBuffer(bytes, limit)) + Plan(utf8, bytes[LineEnd(bytes) + 1..], limit)
  }

  /** What a request handler does about a request: a notification gets no answer,
      and a failed audit or vault ends the session. */
  datatype Handled = Silent | Answers(text: Text) | Fails

  /** What a session depends on beside its bytes: the request handler, the check of
      UTF-8, and which of its writes the client still takes. */
  datatype Server<!S> = Server(handle: (S, Text) -> (S, Handled), utf8: Text -> bool, writes: nat -> bool)

  /** A session under way: the pipeline state, the replies written, and whether the
      session has ended with an error. */
  datatype Session<S> = Session(state: S, output: seq<Reply>, failed: bool)

  function Write<S>(server: Server<S>, session: Session<S>, reply: Reply): Session<S> {
    if server.writes(|session.output|) then session.(output := session.output + [reply])
    else session.(failed := true)
  }

  /** The session after one more event; an error ends it. */
  function Respond<S>(server: Server<S>, before: Session<S>, event: Event): Session<S> {
    if before.failed then before
    else
      match event
      case Dispatch(frame) =>
        var (after, handled) := server.handle(before.state, frame);
        (match handled
         case Silent => before.(state := after)
         case Answers(text) => Write(server, before.(state := after), Answer(text))
         case Fails => before.(state := after, failed := true))
      case _ => Write(server, before, Refusal(event))
  }

  function Play<S>(server: Server<S>, start: S, events: seq<Event>): Session<S> {
    if events == [] then Session(start, [], false)
    else Respond(server, Play(server, start, events[..|events| - 1]), events[|events| - 1])
  }

  lemma {:induction false} PlayNext<S>(server: Server<S>, start: S, events: seq<Event>, event: Event)
    ensures Play(server, start, events + [event]) == Respond(server, Play(server, start, events), event)
  {
    assert (events + [event])[..|events|] == events;
  }

  /** An error ends the session: whatever was still to come has no effect. */
  lemma {:induction false} FailureEndsSession<S>(server: Server<S>, start: S, events: seq<Event>, later: seq<Event>)
    requires Play(server, start, events).failed
    ensures Play(server, start, events + later) == Play(server, start, events)
  {
    if later == [] {
      assert events + later == events;
    } else {
      var front, last := later[..|later| - 1], later[|later| - 1];
      assert events + later == (events + front) + [last];
      PlayNext(server, start, events + front, last);
      FailureEndsSession(server, start, events, front);
    }
  }

  /** `events` is what the bytes read so far lead to, and has been acted on. */
  ghost predicate Served<S>(server: Server<S>, start: S, limit: nat, bytes: Text, rest: Text, events: seq<Event>,
                            session: Session<S>) {
    && Plan(server.utf8, bytes, limit) == events + Plan(server.utf8, rest, limit)
    && session == Play(server, start, events)
  }

  /** A blank frame. */
  lemma {:induction false} ServeNothing<S>(server: Server<S>, start: S, limit: nat, bytes: Text, rest: Text,
                                           events: seq<Event>, session: Session<S>)
    requires Served(server, start, limit, bytes, rest, events, session)
    requires FrameOutcome(rest, limit) == Line && Blank(FrameBuffer(rest, limit))
    ensures Served(server, start, limit, bytes, rest[LineEnd(rest) + 1..], events, session)
  {
    var later := Plan(server.utf8, rest[LineEnd(rest) + 1..], limit);
    assert [] + later == later;
  }

  /** A frame with an event. */
  lemma {:induction false} ServeFrame<S>(server: Server<S>, start: S, limit: nat, bytes: Text, rest: Text,
                                         events: seq<Event>, session: Session<S>, event: Event)
    requires Served(server, start, limit, bytes, rest, events, session)
    requires FrameOutcome(rest, limit) == Line && FrameEvents(server.utf8, FrameBuffer(rest, limit)) == [event]
    ensures Served(server, start, limit, bytes, rest[LineEnd(rest) + 1..], events + [event],
                   Respond(server, session, event))
  {
    var later := Plan(server.utf8, rest[LineEnd(rest) + 1..], limit);
    assert events + ([event] + later) == (events + [event]) + later;
    PlayNext(server, start, events, event);
  }

  /** The end of the stream, and the refusals that end a session. */
  lemma {:induction false} ServeEnd<S>(server: Server<S>, start: S, limit: nat, bytes: Text, rest: Text,
                                       events: seq<Event>, session: Session<S>)
    requires Served(server, start, limit, bytes, rest, events, session)
    ensures FrameOutcome(rest, limit) == Eof ==> session == Play(server, start, Plan(server.utf8, bytes, limit))
    ensures FrameOutcome(rest, limit) == TooLarge
            ==> Respond(server, session, OverLimit) == Play(server, start, Plan(server.utf8, bytes, limit))
    ensures FrameOutcome(rest, limit) == Unterminated
            ==> Respond(server, session, NotTerminated) == Play(server, start, Plan(server.utf8, bytes, limit))
  {
    assert events + [] == events;
    PlayNext(server, start, events, OverLimit);
    PlayNext(server, start, events, NotTerminated);
  }

  /** An error in the middle. */
  lemma {:induction false} ServeFailed<S>(server: Server<S>, start: S, limit: nat, bytes: Text, rest: Text,
                                          events: seq<Event>, session: Session<S>)
    requires Served(server, start, limit, bytes, rest, events, session) && session.failed
    ensures session == Play(server, start, Plan(server.utf8, bytes, limit))
  {
    FailureEndsSession(server, start, events, Plan(server.utf8, rest, limit));
  }

  /** The session dispatches and refuses what its bytes determine, however the
      stream is cut, until the first failed request or write. */
  method Serve<S>(server: Server<S>, start: S, input: Reader, limit: nat) returns (session: Session<S>)
    requires limit < U64_MAX || (limit == U64_MAX && |input.rest| < U64_MAX)
    modifies input
    ensures session == Play(server, start, Plan(server.utf8, old(input.rest), limit))
  {
    session := Session(start, [], false);
    ghost var bytes := input.rest;
    ghost var events := [];
    assert [] + Plan(server.utf8, bytes, limit) == Plan(server.utf8, bytes, limit);
    while true
      invariant |input.rest| <= |bytes| && !session.failed
      invariant Served(server, start, limit, bytes, input.rest, events, session)
      decreases |input.rest|
    {
      ghost var rest := input.rest;
      var outcome, buf := ReadFrame(input, limit);
      ServeEnd(server, start, limit, bytes, rest, events, session);
      match outcome
      case Eof => return;
      case Line =>
        if Blank(buf) {
          ServeNothing(server, start, limit, bytes, rest, events, session);
          continue;
        }
        ghost var event := if server.utf8(buf) then Dispatch(buf) else NotUtf8;
        ServeFrame(server, start, limit, bytes, rest, events, session, event);
        events := events + [event];
        session := Answering(server, session, buf);
        if session.failed {
          ServeFailed(server, start, limit, bytes, input.rest, events, session);
          return;
        }
      case TooLarge => return Write(server, session, Refusal(OverLimit));
      case Unterminated => return Write(server, session, Refusal(NotTerminated));
    }
  }

  /** One non-blank frame. */
  method Answering<S>(server: Server<S>, before: Session<S>, frame: Text) returns (session: Session<S>)
    requires !before.failed
    ensures session == Respond(server, before, if server.utf8(frame) then Dispatch(frame) else NotUtf8)
  {
    if !server.utf8(frame) { return Write(server, before, Refusal(NotUtf8)); }
    var (after, handled) := server.handle(before.state, frame);
    session := before.(state := after);
    match handled
    case Silent =>
    case Answers(text) => session := Write(server, session, Answer(text));
    case Fails => session := session.(failed := true);
  }

  // ---- What a session dispatches ---------------------------------------------------

  ghost predicate Frames(frames: seq<Text>, limit: nat) {
    forall i :: 0 <= i < |frames| ==> '\n' !in frames[i] && |frames[i]| <= limit
  }

  function AllEvents(utf8: Text -> bool, frames: seq<Text>): seq<Event> {
    if frames == [] then []
    else AllEvents(utf8, frames[..|frames| - 1]) + FrameEvents(utf8, frames[|frames| - 1])
  }

  lemma {:induction false} PlanOfFrame(utf8: Text -> bool, frame: Text, tail: Text, limit: nat)
    requires '\n' !in frame && |frame| <= limit
    ensures Plan(utf8, frame + "\n" + tail, limit) == FrameEvents(utf8, frame) + Plan(utf8, tail, limit)
  {
    var bytes := frame + "\n" + tail;
    assert LineEnd(bytes) == |frame| by {
      assert forall i :: 0 <= i < |frame| ==> bytes[i] == frame[i] && frame[i] in frame;
      assert bytes[|frame|] == '\n';
    }
    assert bytes[..|frame|] == frame && bytes[|frame| + 1..] == tail;
  }

  /** Whole frames are handled one after the other, whatever follows. */
  lemma {:induction false} PlanOfFrames(utf8: Text -> bool, frames: seq<Text>, tail: Text, limit: nat)
    requires Frames(frames, limit)
    ensures Plan(utf8, Join(frames) + tail, limit) == AllEvents(utf8, frames) + Plan(utf8, tail, limit)
  {
    if frames == [] {
      assert Join(frames) + tail == tail;
      assert [] + Plan(utf8, tail, limit) == Plan(utf8, tail, limit);
    } else {
      var front, last := frames[..|frames| - 1], frames[|frames| - 1];
      assert Join(frames) + tail == Join(front) + (last + "\n" + tail);
      PlanOfFrames(utf8, front, last + "\n" + tail, limit);
      PlanOfFrame(utf8, last, tail, limit);
      ConcatThree(AllEvents(utf8, front), FrameEvents(utf8, last), Plan(utf8, tail, limit));
    }
  }

  /** An oversized frame ends the session: nothing from it on is dispatched, and
      nothing after its first `limit + 1` bytes has any effect. */
  lemma {:induction false} OversizedEndsSession(utf8: Text -> bool, frames: seq<Text>, start: Text, after: Text,
                                                limit: nat)
    requires Frames(frames, limit) && '\n' !in start && |start| > limit
    ensures Plan(utf8, Join(frames) + (start + after), limit) == AllEvents(utf8, frames) + [OverLimit]
  {
    PlanOfFrames(utf8, frames, start + after, limit);
    var bytes := start + after;
    assert forall i :: 0 <= i < |start| ==> bytes[i] == start[i] && start[i] in start;
    assert LineEnd(bytes) >= |start|;
  }

  /** A last frame without its newline is refused, never dispatched. */
  lemma {:induction false} UnterminatedEndsSession(utf8: Text -> bool, frames: seq<Text>, tail: Text, limit: nat)
    requires Frames(frames, limit) && '\n' !in tail && 0 < |tail| <= limit
    ensures Plan(utf8, Join(frames) + tail, limit) == AllEvents(utf8, frames) + [NotTerminated]
  {
    PlanOfFrames(utf8, frames, tail, limit);
    assert forall i :: 0 <= i < |tail| ==> tail[i] in tail;
    assert LineEnd(tail) == |tail|;
  }

  /** Every stream is a list of whole bounded frames and a tail that is empty,
      oversized or unterminated; the session is the frames' events and at most
      one refusal for the tail. */
  lemma {:induction false} SessionShape(utf8: Text -> bool, bytes: Text, limit: nat)
    returns (frames: seq<Text>, tail: Text)
    ensures bytes == Join(frames) + tail && Frames(frames, limit)
    ensures tail == "" || '\n' !in tail[..Min(|tail|, limit + 1)]
    ensures Plan(utf8, bytes, limit)
            == AllEvents(utf8, frames)
               + if tail == "" then [] else if |tail| > limit then [OverLimit] else [NotTerminated]
  {
    frames, tail := [], bytes;
    assert bytes == Join(frames) + tail;
    while FrameOutcome(tail, limit) == Line
      invariant bytes == Join(frames) + tail && Frames(frames, limit)
      decreases |tail|
    {
      frames, tail := NextFrame(bytes, frames, tail, limit);
    }
    PlanOfFrames(utf8, frames, tail, limit);
    assert LineEnd(tail) > limit || LineEnd(tail) == |tail|;
  }

  lemma {:induction false} NextFrame(bytes: Text, frames: seq<Text>, tail: Text, limit: nat)
    returns (frames': seq<Text>, tail': Text)
    requires bytes == Join(frames) + tail && Frames(frames, limit) && FrameOutcome(tail, limit) == Line
    ensures bytes == Join(frames') + tail' && Frames(frames', limit) && |tail'| < |tail|
  {
    var n := LineEnd(tail);
    frames', tail' := frames + [tail[..n]], tail[n + 1..];
    assert frames'[..|frames|] == frames;
    assert tail == tail[..n] + "\n" + tail';
  }

  /** Only whole, bounded, non-blank UTF-8 lines ever reach the request handler. */
  lemma {:induction false} DispatchedIsWhole(utf8: Text -> bool, bytes: Text, limit: nat, i: nat)
    requires i < |Plan(utf8, bytes, limit)| && Plan(utf8, bytes, limit)[i].Dispatch?
    ensures var frame := Plan(utf8, bytes, limit)[i].frame;
            |frame| <= limit && '\n' !in frame && utf8(frame) && !Blank(frame)
    decreases |bytes|
  {
    if FrameOutcome(bytes, limit) == Line {
      var k := |FrameEvents(utf8, FrameBuffer(bytes, limit))|;
      if i >= k { DispatchedIsWhole(utf8, bytes[LineEnd(bytes) + 1..], limit, i - k); }
    }
  }

  /** Each frame with a byte other than tab, line feed, form feed, carriage return and
      space gives one event, behind those of the frames before it; the others none. */
  lemma {:induction false} EventOfFrame(utf8: Text -> bool, frames: seq<Text>, i: nat)
    requires i < |frames|
    ensures var before, now := AllEvents(utf8, frames[..i]), AllEvents(utf8, frames[..i + 1]);
            now == if forall k :: 0 <= k < |frames[i]| ==> frames[i][k] as int in {9, 10, 12, 13, 32} then before
                   else before + [if utf8(frames[i]) then Dispatch(frames[i]) else NotUtf8]
  {
    assert frames[..i + 1][..i] == frames[..i];
    assert AllEvents(utf8, frames[..i]) + [] == AllEvents(utf8, frames[..i]);
  }

  // ---- The transcript of a session -------------------------------------------------

  /** What event `i` is answered with when the session is in `state`. */
  function RepliesTo<S>(server: Server<S>, state: S, event: Event): seq<Reply> {
    if !event.Dispatch? then [Refusal(event)]
    else if server.handle(state, event.frame).1.Answers? then [Answer(server.handle(state, event.frame).1.text)]
    else []
  }

  /** The replies to the first `n` events, in order. */
  function Said<S>(server: Server<S>, states: seq<S>, events: seq<Event>, n: nat): seq<Reply>
    requires n <= |events| && n <= |states|
  {
    if n == 0 then [] else Said(server, states, events, n - 1) + RepliesTo(server, states[n - 1], events[n - 1])
  }

  /** The event cannot be dealt with: the handler fails, or the client does not take
      the reply. */
  predicate Breaks<S>(server: Server<S>, state: S, event: Event, written: nat) {
    || (event.Dispatch? && server.handle(state, event.frame).1.Fails?)
    || (RepliesTo(server, state, event) != [] && !server.writes(written))
  }

  /** From state to state: a dispatched request is handled, nothing else changes the
      pipeline. */
  ghost predicate Steps<S>(server: Server<S>, states: seq<S>, events: seq<Event>, n: nat) {
    && n <= |events| && n < |states|
    && forall i, j :: 0 <= i < n && j == i + 1 ==>
         states[j] == if events[i].Dispatch? then server.handle(states[i], events[i].frame).0 else states[i]
  }

  ghost predicate NoneBreaks<S>(server: Server<S>, states: seq<S>, events: seq<Event>, n: nat) {
    && n <= |events| && n <= |states|
    && forall i :: 0 <= i < n ==> !Breaks(server, states[i], events[i], |Said(server, states, events, i)|)
  }

  /** The first `k` events are dealt with one after the other, each dispatched request
      by the handler in the state the one before it left, and each answer and refusal
      is written in order. The session fails if and only if event `k` breaks it, and
      then nothing more is written. */
  ghost predicate Transcript<S>(server: Server<S>, start: S, events: seq<Event>, k: nat, states: seq<S>,
                                session: Session<S>) {
    && k <= |events| && |states| == k + 1 && states[0] == start
    && Steps(server, states, events, k) && NoneBreaks(server, states, events, k)
    && session.output == Said(server, states, events, k)
    && (session.failed <==> k < |events|)
    && (k < |events| ==> Breaks(server, states[k], events[k], |session.output|))
    && session.state == if k < |events| && events[k].Dispatch? then server.handle(states[k], events[k].frame).0
                        else states[k]
  }

  /** Every session has such a transcript. */
  lemma {:induction false} SessionTranscript<S>(server: Server<S>, start: S, events: seq<Event>)
    returns (k: nat, states: seq<S>)
    ensures Transcript(server, start, events, k, states, Play(server, start, events))
  {
    if events == [] {
      k, states := 0, [start];
    } else {
      var front, last := events[..|events| - 1], events[|events| - 1];
      k, states := SessionTranscript(server, start, front);
      SaidPrefix(server, states, states, front, events, k);
      StepsPrefix(server, states, states, front, events, k);
      var before := Play(server, start, front);
      if k < |front| {
        assert Respond(server, before, last) == before;
      } else if Breaks(server, states[k], last, |before.output|) {
        BrokenBy(server, before, last);
      } else {
        states := NextState(server, start, events, states, before);
        k := k + 1;
      }
    }
  }

  /** What the last event does when it breaks the session. */
  lemma {:induction false} BrokenBy<S>(server: Server<S>, before: Session<S>, event: Event)
    requires !before.failed && Breaks(server, before.state, event, |before.output|)
    ensures var after := Respond(server, before, event);
            && after.failed && after.output == before.output
            && after.state == if event.Dispatch? then server.handle(before.state, event.frame).0 else before.state
  {
  }

  /** And when it does not. */
  lemma {:induction false} AnsweredTo<S>(server: Server<S>, before: Session<S>, event: Event)
    requires !before.failed && !Breaks(server, before.state, event, |before.output|)
    ensures var after := Respond(server, before, event);
            && !after.failed && after.output == before.output + RepliesTo(server, before.state, event)
            && after.state == if event.Dispatch? then server.handle(before.state, event.frame).0 else before.state
  {
  }

  lemma {:induction false} NextState<S>(server: Server<S>, start: S, events: seq<Event>, states: seq<S>,
                                        before: Session<S>) returns (more: seq<S>)
    requires events != [] && |states| == |events| && states[0] == start
    requires Steps(server, states, events, |events| - 1) && NoneBreaks(server, states, events, |events| - 1)
    requires before.output == Said(server, states, events, |events| - 1) && !before.failed
    requires before.state == states[|events| - 1]
    requires !Breaks(server, before.state, events[|events| - 1], |before.output|)
    ensures Transcript(server, start, events, |events|, more, Respond(server, before, events[|events| - 1]))
  {
    var k, last := |events| - 1, events[|events| - 1];
    var next := if last.Dispatch? then server.handle(states[k], last.frame).0 else states[k];
    more := states + [next];
    SaidPrefix(server, states, more, events, events, k);
    StepsPrefix(server, states, more, events, events, k);
    AnsweredTo(server, before, last);
  }

  /** More events and states change nothing about the first replies. */
  lemma {:induction false} SaidPrefix<S>(server: Server<S>, states: seq<S>, more: seq<S>, front: seq<Event>,
                                         events: seq<Event>, n: nat)
    requires front <= events && states <= more && n <= |front| && n <= |states|
    ensures Said(server, states, front, n) == Said(server, more, events, n)
  {
    if n > 0 { SaidPrefix(server, states, more, front, events, n - 1); }
  }

  /** Nor about the first steps. */
  lemma {:induction false} StepsPrefix<S>(server: Server<S>, states: seq<S>, more: seq<S>, front: seq<Event>,
                                          events: seq<Event>, n: nat)
    requires front <= events && states <= more && n <= |front| && n < |states|
    requires Steps(server, states, front, n) && NoneBreaks(server, states, front, n)
    ensures Steps(server, more, events, n) && NoneBreaks(server, more, events, n)
  {
    forall i | 0 <= i < n ensures !Breaks(server, more[i], events[i], |Said(server, more, events, i)|) {
      SaidPrefix(server, states, more, front, events, i);
      assert !Breaks(server, states[i], front[i], |Said(server, states, front, i)|);
    }
  }
}
