/**
 * What the client's loop guarantees, stated on Drive: outcomes are
 * delivered in the order the commands were sent, the loop stops only on an
 * incomplete head and then leaves queue and buffer as they were, bytes only
 * accumulate while no command is pending, and, for queues without quit,
 * the outcomes depend only on the concatenation of the chunks received,
 * not on how the stream cut them. Also: the request format, read back as a
 * frame, and the facts of the command table.
 */
module ClientProperties {
  import opened JsBuiltins
  import opened ResponseHandling
  import opened ResponseProperties
  import opened Client

  // Order and progress

  /**
   * Only the head is ever run and a completed head is shifted off, so the
   * k-th outcome delivered belongs to the k-th pending command and what is
   * left is the rest of the queue, its head reset in place.
   */
  lemma {:induction false} DriveInOrder<V>(q: seq<Pending<V>>, buf: Bytes, load: Bytes -> V)
    ensures var d := Drive(q, buf, load);
      && |d.delivered| + |d.queue| == |q|
      && (forall k :: 0 <= k < |d.delivered| ==> d.delivered[k].promise == q[k].promise)
      && (d.queue != [] ==>
            && d.queue[0].promise == q[|d.delivered|].promise
            && d.queue[0].expected == q[|d.delivered|].expected
            && d.queue[1..] == q[|d.delivered| + 1..])
    decreases |q|
  {
    if q != [] {
      var s := ProcessStep(q[0].expected, q[0].state, buf, load);
      if s.state.complete && !OutcomeOf(s.state).Stranded? {
        var rest := Drive(q[1..], NextBuffer(s), load);
        DriveInOrder(q[1..], NextBuffer(s), load);
        var d := Drive(q, buf, load);
        assert d.delivered == [Delivery(q[0].promise, OutcomeOf(s.state))] + rest.delivered;
        assert q[1..][|rest.delivered|..] == q[|d.delivered|..];
      }
    }
  }

  /**
   * How the loop ends: on an empty queue, on an incomplete head (reset, so
   * idle), or on a throw, which only a stranded outcome causes and which
   * comes last.
   */
  lemma {:induction false} DriveEnds<V>(q: seq<Pending<V>>, buf: Bytes, load: Bytes -> V)
    ensures var d := Drive(q, buf, load);
      && (d.threw ==> d.delivered != [] && d.delivered[|d.delivered| - 1].outcome.Stranded?)
      && (forall k :: 0 <= k < |d.delivered| - 1 ==> !d.delivered[k].outcome.Stranded?)
      && (!d.threw && d.queue != [] ==> Idle(d.queue[0].state))
    decreases |q|
  {
    if q != [] {
      var s := ProcessStep(q[0].expected, q[0].state, buf, load);
      if s.state.complete && !OutcomeOf(s.state).Stranded? {
        var rest := Drive(q[1..], NextBuffer(s), load);
        DriveEnds(q[1..], NextBuffer(s), load);
        var d := Drive(q, buf, load);
        assert d.delivered == [Delivery(q[0].promise, OutcomeOf(s.state))] + rest.delivered;
      }
    }
  }

  /**
   * An incomplete head stops the loop: nothing is delivered, the buffer is
   * kept whole and the head, reset, stays in front. A fresh head that the
   * buffer does not stall for good is left exactly as it was.
   */
  lemma IncompleteHeadStops<V>(q: seq<Pending<V>>, buf: Bytes, load: Bytes -> V)
    requires q != []
    requires !ProcessStep(q[0].expected, q[0].state, buf, load).state.complete
    ensures var d := Drive(q, buf, load);
      && d.buffer == buf && d.delivered == [] && !d.threw
      && |d.queue| == |q| && d.queue[1..] == q[1..]
      && d.queue[0].promise == q[0].promise && d.queue[0].expected == q[0].expected
      && Idle(d.queue[0].state)
      && (Idle(q[0].state) && !StallsForever(q[0].expected, buf) ==> d.queue == q)
  {
    var s := ProcessStep(q[0].expected, q[0].state, buf, load);
    IncompleteReturnsInput(q[0].expected, q[0].state, buf, load);
    if Idle(q[0].state) && !StallsForever(q[0].expected, buf) {
      if s.state.remainder != q[0].state.remainder {
        RemainderOnlyWhenStalled(q[0].expected, q[0].state, buf, load);
        assert false;
      }
      assert ResetState(s.state) == q[0].state;
    }
  }

  // Data events

  /** All the chunks received, in order. */
  function Concat(chunks: seq<Bytes>): Bytes {
    if chunks == [] then [] else chunks[0] + Concat(chunks[1..])
  }

  /**
   * A run of data events, one per chunk: each appends its chunk and drives
   * the queue. The outcomes are collected in order; `threw` says whether
   * any event threw.
   */
  function Feed<V>(q: seq<Pending<V>>, buf: Bytes, chunks: seq<Bytes>, load: Bytes -> V): Drained<V>
    decreases |chunks|
  {
    if chunks == [] then Drained(q, buf, [], false)
    else
      var d := Drive(q, buf + chunks[0], load);
      var rest := Feed(d.queue, d.buffer, chunks[1..], load);
      rest.(delivered := d.delivered + rest.delivered, threw := d.threw || rest.threw)
  }

  /** With no command pending, received bytes only accumulate in the buffer. */
  lemma {:induction false} NothingPendingAccumulates<V>(buf: Bytes, chunks: seq<Bytes>, load: Bytes -> V)
    ensures Feed<V>([], buf, chunks, load) == Drained([], buf + Concat(chunks), [], false)
    decreases |chunks|
  {
    if chunks != [] {
      NothingPendingAccumulates<V>(buf + chunks[0], chunks[1..], load);
      AppendAssoc(buf, chunks[0], Concat(chunks[1..]));
    }
  }

  // Settlement

  /**
   * How a fresh head's promise settles once its frame is complete:
   * resolved exactly when the status is the expected token, otherwise
   * rejected with the status word as the error's message.
   */
  lemma HeadOutcome<V>(p: Pending<V>, buf: Bytes, load: Bytes -> V)
    requires Idle(p.state) && IndexOfCrlf(buf).Some?
    requires ProcessStep(p.expected, p.state, buf, load).state.complete
    ensures var s := ProcessStep(p.expected, p.state, buf, load);
      var status := HeaderWords(buf, IndexOfCrlf(buf).value)[0];
      && s.state.args.Some?
      && (OutcomeOf(s.state).Resolved? <==> status == p.expected)
      && (status != p.expected ==> OutcomeOf(s.state) == Rejected(Word(status)))
  {
    var idx := IndexOfCrlf(buf).value;
    StatusDecidesOutcome(p.expected, p.state, buf, load);
    HeaderSplit(p.expected, p.state, buf, load, idx);
    var st2 := ReadHeader(p.expected, p.state, buf, idx);
    match BodyKindOf(HeaderWords(buf, idx)[0])
    case Some(how) =>
      ParseBodyKeepsHeader(st2, how, load);
    case None =>
  }

  /**
   * quit on a buffer without a terminator: its handler completes with args
   * still null, reading args.length throws, the promise never settles and
   * the loop ends there, before any later handler runs.
   */
  lemma QuitStrandsWithoutTerminator<V>(q: seq<Pending<V>>, buf: Bytes, load: Bytes -> V)
    requires q != [] && q[0].expected == NO_RESPONSE && Idle(q[0].state)
    requires IndexOfCrlf(buf).None?
    ensures Drive(q, buf, load) == Drained(q[1..], buf, [Delivery(q[0].promise, Stranded)], true)
  {
    QuitCompletesWithoutData(q[0].state, buf, load);
  }

  // Chunking

  /** No pending command is quit. */
  ghost predicate NoQuit<V>(q: seq<Pending<V>>) {
    forall k :: 0 <= k < |q| ==> q[k].expected != NO_RESPONSE
  }

  /** A queue of new handlers is settled on any buffer. */
  lemma AllNewSettled<V>(q: seq<Pending<V>>, buf: Bytes)
    requires AllNew(q)
    ensures Settled(q, buf)
  {
  }

  /** A fresh handler other than quit completes only once it has read a header, so args is set. */
  lemma CompleteHasArgs<V>(expected: string, st: HandlerState<V>, buf: Bytes, load: Bytes -> V)
    requires Idle(st) && expected != NO_RESPONSE
    requires ProcessStep(expected, st, buf, load).state.complete
    ensures IndexOfCrlf(buf).Some? && ProcessStep(expected, st, buf, load).state.args.Some?
  {
    match IndexOfCrlf(buf)
    case None =>
      WaitsForTerminator(expected, st, buf, load);
    case Some(idx) =>
      var st2 := ReadHeader(expected, st, buf, idx);
      match BodyKindOf(HeaderWords(buf, idx)[0])
      case Some(how) =>
        ParseBodyKeepsHeader(st2, how, load);
      case None =>
  }

  /** Without quit the loop never throws. */
  lemma {:induction false} NeverStrands<V>(q: seq<Pending<V>>, buf: Bytes, load: Bytes -> V)
    requires Settled(q, buf) && NoQuit(q)
    ensures !Drive(q, buf, load).threw
    decreases |q|
  {
    if q != [] {
      var s := ProcessStep(q[0].expected, q[0].state, buf, load);
      if s.state.complete {
        CompleteHasArgs(q[0].expected, q[0].state, buf, load);
        AllNewSettled(q[1..], NextBuffer(s));
        NeverStrands(q[1..], NextBuffer(s), load);
      }
    }
  }

  /**
   * On a buffer that stalls the head for good, the head's fields before the
   * pass do not matter: the pass sets every one of them, the remainder
   * included, and the head stays incomplete.
   */
  lemma StalledStep<V>(expected: string, st1: HandlerState<V>, st2: HandlerState<V>, buf: Bytes, load: Bytes -> V)
    requires Idle(st1) && Idle(st2) && StallsForever(expected, buf)
    ensures ProcessStep(expected, st1, buf, load) == ProcessStep(expected, st2, buf, load)
    ensures !ProcessStep(expected, st1, buf, load).state.complete
  {
    var idx := IndexOfCrlf(buf).value;
    var words := HeaderWords(buf, idx);
    var how := BodyKindOf(words[0]).value;
    var a := ReadHeader(expected, st1, buf, idx);
    var b := ReadHeader(expected, st2, buf, idx);
    assert a == b.(remainder := st1.remainder);
    DeclaredLengthOfWords<V>(Residual(expected, words));
  }

  /**
   * A head left incomplete by a pass and reset reads the grown buffer as a
   * fresh copy of itself would: reset clears everything a pass sets, except
   * a remainder, and a pass only sets one on a buffer that stalls it for
   * good, where the next pass sets it again.
   */
  lemma ResumeAfterIncomplete<V>(expected: string, st: HandlerState<V>, buf: Bytes, b: Bytes, load: Bytes -> V)
    requires Idle(st) && (st.remainder.Some? ==> StallsForever(expected, buf))
    requires !ProcessStep(expected, st, buf, load).state.complete
    ensures var s := ProcessStep(expected, st, buf, load);
      ProcessStep(expected, ResetState(s.state), buf + b, load) == ProcessStep(expected, st, buf + b, load)
  {
    var s := ProcessStep(expected, st, buf, load);
    if s.state.remainder == st.remainder {
      assert ResetState(s.state) == st;
    } else {
      RemainderOnlyWhenStalled(expected, st, buf, load);
      StallsForeverAppend(expected, buf, b);
      StalledStep(expected, ResetState(s.state), st, buf + b, load);
    }
  }

  /**
   * parseBody that completes on a body completes the same way on that body
   * with more bytes after it: same args, and the extra bytes end up at the
   * end of what the client continues with.
   */
  lemma ParseBodyExtends<V>(st: HandlerState<V>, how: BodyKind, load: Bytes -> V, b: Bytes)
    requires st.args.Some? && st.body.Some? && !st.complete && st.remainder.None?
    requires ParseBodyStep(st, how, load).complete
    ensures var r1 := ParseBodyStep(st, how, load);
      var r2 := ParseBodyStep(st.(body := Some(st.body.value + b)), how, load);
      && r2.complete && r2.args == r1.args && r2.success == r1.success
      && (if r2.remainder.Some? then r2.remainder.value else []) == (if r1.remainder.Some? then r1.remainder.value else []) + b
  {
    var n := DeclaredLength(st.args.value).value;
    var all := st.body.value;
    var more := all + b;
    var m := n + 2;
    if m < 0 {
      assert false;
    }
    assert m <= |all|;
    assert Slice(more, 0, m) == more[..m] == all[..m];
    assert more[m..] == all[m..] + b;
    if |all| > m {
      assert Slice(all, 0, m) == all[..m];
      assert Slice(all, m, |all|) == all[m..];
      assert Slice(more, m, |more|) == more[m..];
    } else {
      assert all[..m] == all;
      if b != [] {
        assert Slice(more, m, |more|) == more[m..] == b;
      } else {
        assert more == all;
      }
    }
  }

  /**
   * A head other than quit, fresh and without a remainder, that completes on
   * a buffer completes the same way on that buffer with more bytes after
   * it: same outcome, and the extra bytes follow what the client continues
   * with.
   */
  lemma ExtendCompleted<V>(expected: string, st: HandlerState<V>, buf: Bytes, b: Bytes, load: Bytes -> V)
    requires Idle(st) && st.remainder.None? && expected != NO_RESPONSE
    requires ProcessStep(expected, st, buf, load).state.complete
    ensures var s1 := ProcessStep(expected, st, buf, load);
      var s2 := ProcessStep(expected, st, buf + b, load);
      && s2.state.complete && s2.state.args == s1.state.args && s2.state.success == s1.state.success
      && NextBuffer(s2) == NextBuffer(s1) + b
  {
    CompleteHasArgs(expected, st, buf, load);
    var idx := IndexOfCrlf(buf).value;
    IndexOfCrlfAppend(buf, b);
    AppendCut(buf, b, idx);
    assert HeaderWords(buf + b, idx) == HeaderWords(buf, idx);
    var st2 := ReadHeader(expected, st, buf, idx);
    assert ReadHeader(expected, st, buf + b, idx) == st2.(body := Some(buf[idx + 2..] + b));
    match BodyKindOf(HeaderWords(buf, idx)[0])
    case Some(how) =>
      ParseBodyExtends(st2, how, load, b);
      CompletedBodyReturnsEmpty(expected, st, buf, load, idx);
      CompletedBodyReturnsEmpty(expected, st, buf + b, load, idx);
    case None =>
      FrameWithoutBody(expected, st, buf, load, idx);
      FrameWithoutBody(expected, st, buf + b, load, idx);
  }

  /**
   * Driving after more bytes arrive is driving now, then driving what is
   * left on the buffer left with the new bytes appended.
   */
  lemma {:induction false} Resume<V>(q: seq<Pending<V>>, buf: Bytes, b: Bytes, load: Bytes -> V)
    requires Settled(q, buf) && NoQuit(q)
    ensures var d := Drive(q, buf, load);
      Drive(q, buf + b, load) == Then(d.delivered, Drive(d.queue, d.buffer + b, load))
    decreases |q|
  {
    if q != [] {
      var s := ProcessStep(q[0].expected, q[0].state, buf, load);
      if !s.state.complete {
        IncompleteReturnsInput(q[0].expected, q[0].state, buf, load);
        ResumeAfterIncomplete(q[0].expected, q[0].state, buf, b, load);
        var q2 := [q[0].(state := ResetState(s.state))] + q[1..];
        assert q2[1..] == q[1..];
        assert Drive(q2, buf + b, load) == Drive(q, buf + b, load);
      } else {
        if q[0].state.remainder.Some? {
          StalledStep(q[0].expected, q[0].state, q[0].state, buf, load);
          assert false;
        }
        ExtendCompleted(q[0].expected, q[0].state, buf, b, load);
        CompleteHasArgs(q[0].expected, q[0].state, buf, load);
        var next := NextBuffer(s);
        AllNewSettled(q[1..], next);
        Resume(q[1..], next, b, load);
        var settled := Delivery(q[0].promise, OutcomeOf(s.state));
        var r := Drive(q[1..], next, load);
        ThenThen([settled], r.delivered, Drive(r.queue, r.buffer + b, load));
      }
    }
  }

  /** The queue a drive leaves holds no quit when the queue it started from held none. */
  lemma DriveKeepsNoQuit<V>(q: seq<Pending<V>>, buf: Bytes, load: Bytes -> V)
    requires NoQuit(q)
    ensures NoQuit(Drive(q, buf, load).queue)
  {
    DriveInOrder(q, buf, load);
  }

  /**
   * For a settled queue without quit, any run of data events ends where a
   * single event carrying all their bytes would: same outcomes in the same
   * order, same queue, same buffer, and no throw.
   */
  lemma {:induction false} FeedIsDrive<V>(q: seq<Pending<V>>, buf: Bytes, chunks: seq<Bytes>, load: Bytes -> V)
    requires Settled(q, buf) && NoQuit(q) && chunks != []
    ensures Feed(q, buf, chunks, load) == Drive(q, buf + Concat(chunks), load)
    decreases |chunks|
  {
    var c := chunks[0];
    SettledAppend(q, buf, c);
    NeverStrands(q, buf + c, load);
    var d := Drive(q, buf + c, load);
    AppendAssoc(buf, c, Concat(chunks[1..]));
    if chunks[1..] == [] {
      assert Concat(chunks) == c + [] == c;
      assert d.delivered + [] == d.delivered;
    } else {
      DriveSettled(q, buf + c, load);
      DriveKeepsNoQuit(q, buf + c, load);
      FeedIsDrive(d.queue, d.buffer, chunks[1..], load);
      Resume(q, buf + c, Concat(chunks[1..]), load);
    }
  }

  /** Two ways of cutting the same bytes into chunks give the same outcomes and the same final state. */
  lemma ChunkingIrrelevant<V>(q: seq<Pending<V>>, buf: Bytes, chunks1: seq<Bytes>, chunks2: seq<Bytes>, load: Bytes -> V)
    requires Settled(q, buf) && NoQuit(q) && chunks1 != [] && chunks2 != []
    requires Concat(chunks1) == Concat(chunks2)
    ensures Feed(q, buf, chunks1, load) == Feed(q, buf, chunks2, load)
  {
    FeedIsDrive(q, buf, chunks1, load);
    FeedIsDrive(q, buf, chunks2, load);
  }

  // Pipelined responses

  /** A response as the server writes it: the status, further header words, and the body of a body-bearing status. */
  datatype Frame = Frame(status: string, words: seq<string>, body: Option<Bytes>)

  /** Responses written back to back on the stream. */
  function EncodeAll(frames: seq<Frame>): Bytes {
    if frames == [] then []
    else EncodeFrame(frames[0].status, frames[0].words, frames[0].body) + EncodeAll(frames[1..])
  }

  predicate AllWellFormed(frames: seq<Frame>) {
    forall k :: 0 <= k < |frames| ==> WellFormed(frames[k].status, frames[k].words, frames[k].body)
  }

  /**
   * The outcome of a command expecting `expected` whose response is f: its
   * words and body as args, a success exactly when the status is expected.
   */
  function FrameOutcome<V>(expected: string, f: Frame, load: Bytes -> V): Outcome<V>
    requires WellFormed(f.status, f.words, f.body)
  {
    OutcomeOf(InitialState<V>().(complete := true, success := f.status == expected,
                                 args := Some(FrameArgs(expected, f.status, f.words, f.body, load))))
  }

  /** The k-th command of q settled with the k-th response. */
  function FrameDeliveries<V>(q: seq<Pending<V>>, frames: seq<Frame>, load: Bytes -> V): seq<Delivery<V>>
    requires |q| == |frames| && AllWellFormed(frames)
    decreases |q|
  {
    if q == [] then []
    else
      assert WellFormed(frames[0].status, frames[0].words, frames[0].body);
      [Delivery(q[0].promise, FrameOutcome(q[0].expected, frames[0], load))]
      + FrameDeliveries(q[1..], frames[1..], load)
  }

  /**
   * Pipelining: when the responses to all pending commands arrive back to
   * back, followed by any bytes, the loop settles every command with its
   * own response, in order, empties the queue, never throws, and keeps
   * exactly the following bytes.
   */
  lemma {:induction false} PipelinedFrames<V>(q: seq<Pending<V>>, frames: seq<Frame>, rest: Bytes, load: Bytes -> V)
    requires AllNew(q) && |q| == |frames| && AllWellFormed(frames)
    ensures Drive(q, EncodeAll(frames) + rest, load) == Drained([], rest, FrameDeliveries(q, frames, load), false)
    decreases |q|
  {
    if q == [] {
      assert EncodeAll(frames) + rest == rest;
    } else {
      var f := frames[0];
      var frame := EncodeFrame(f.status, f.words, f.body);
      var tail := EncodeAll(frames[1..]) + rest;
      assert EncodeAll(frames) + rest == frame + tail;
      assert WellFormed(f.status, f.words, f.body);
      ParsesEncodedFrame(q[0].expected, q[0].state, f.status, f.words, f.body, tail, load);
      var s := ProcessStep(q[0].expected, q[0].state, frame + tail, load);
      assert OutcomeOf(s.state) == FrameOutcome(q[0].expected, f, load);
      PipelinedFrames(q[1..], frames[1..], rest, load);
    }
  }

  // Requests

  /** The header words of a request: the name, then the parameters (the payload's length in place of a payload). */
  function RequestWords(c: Command, params: seq<Param>): seq<string>
    requires c.sendsData ==> |params| >= 1
  {
    if c.sendsData then Texts(params[..|params| - 1]) else Texts(params)
  }

  /** The payload of a request, when the command sends one. */
  function Payload(c: Command, params: seq<Param>): Option<Bytes>
    requires c.sendsData ==> |params| >= 1
  {
    if c.sendsData then Some(ParamBytes(params[|params| - 1])) else None
  }

  /**
   * A request is a frame: the command name and its parameters joined by
   * single spaces, the payload's byte length last for a payload command,
   * CRLF, then the payload and CRLF.
   */
  lemma SerializeIsFrame(c: Command, params: seq<Param>)
    requires c.sendsData ==> |params| >= 1
    ensures Serialize(c, params) == EncodeFrame(c.name, RequestWords(c, params), Payload(c, params))
  {
    var args := [Text(c.name)] + params;
    if c.sendsData {
      assert args[..|args| - 1] == [Text(c.name)] + params[..|params| - 1];
      assert Texts(args[..|args| - 1]) == [c.name] + Texts(params[..|params| - 1]);
    } else {
      assert Texts(args) == [c.name] + Texts(params) + [];
    }
  }

  /**
   * Reading a request back as the server does: the first CRLF ends the
   * line, whose words are the name and the parameters, the last of them
   * being the payload's length for a payload command; the payload and CRLF
   * follow, then whatever is written next.
   */
  lemma RequestReadsBack(c: Command, params: seq<Param>, rest: Bytes)
    requires c.sendsData ==> |params| >= 1
    requires Tokens(c.name, RequestWords(c, params))
    ensures var buf := Serialize(c, params) + rest;
      && IndexOfCrlf(buf).Some?
      && var idx := IndexOfCrlf(buf).value;
         match Payload(c, params)
         case Some(data) =>
           && HeaderWords(buf, idx) == [c.name] + RequestWords(c, params) + [Decimal(|data|)]
           && LengthWord(HeaderWords(buf, idx)) == Some(|data|)
           && buf[idx + 2..] == data + CRLF + rest
         case None =>
           && HeaderWords(buf, idx) == [c.name] + RequestWords(c, params)
           && buf[idx + 2..] == rest
  {
    SerializeIsFrame(c, params);
    EncodedFrameHeader(c.name, RequestWords(c, params), Payload(c, params), rest);
    if c.sendsData {
      ParseIntDecimal(|ParamBytes(params[|params| - 1])|);
    }
  }
}
