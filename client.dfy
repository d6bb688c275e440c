/**
 * The beanstalkd client: a FIFO of pending response handlers, one per
 * command sent, and the byte buffer of everything received but not yet
 * consumed. Only the head handler ever reads the buffer; when it completes
 * it is removed and its outcome delivered, and the next one reads what is
 * left.
 *
 * The socket is the byte log `written`, data arrival is the method OnData,
 * and the promises' resolve/reject calls are the log `delivered`. Drive is
 * the pure specification of _tryHandlingResponse over snapshots of the
 * handlers; the class's loop is proved to compute it.
 */
module Client {
  import opened JsBuiltins
  import opened ResponseHandling

  /** What a promise is resolved with: args[0] (undefined when args is empty) or args itself. */
  datatype Value<V> = Undefined | One(arg: Arg<V>) | Many(args: seq<Arg<V>>)

  /**
   * How a completed handler's promise settles. Stranded: args is null, so
   * reading it throws a TypeError out of the data listener and the promise
   * never settles.
   */
  datatype Outcome<V> = Resolved(value: Value<V>) | Rejected(reason: Arg<V>) | Stranded

  /** The outcome of the command with serial number `promise`. */
  datatype Delivery<V> = Delivery(promise: nat, outcome: Outcome<V>)

  /** A snapshot of a pending handler: its command's serial number, its token and its fields. */
  datatype Pending<V> = Pending(promise: nat, expected: string, state: HandlerState<V>)

  /** What is left after the loop: the queue, the buffer, the outcomes delivered, and whether it threw. */
  datatype Drained<V> = Drained(queue: seq<Pending<V>>, buffer: Bytes, delivered: seq<Delivery<V>>, threw: bool)

  /**
   * The settlement of a completed handler: on success args when it has more
   * than one element and args[0] otherwise; on failure an error whose
   * message is args[0] (new Error(undefined) has the empty message).
   */
  function OutcomeOf<V>(st: HandlerState<V>): (o: Outcome<V>)
    ensures o.Stranded? <==> st.args.None?
    ensures o.Resolved? <==> st.args.Some? && st.success
    ensures o.Resolved? && |st.args.value| > 1 ==> o.value == Many(st.args.value)
    ensures o.Resolved? && |st.args.value| == 1 ==> o.value == One(st.args.value[0])
    ensures o.Rejected? && |st.args.value| >= 1 ==> o.reason == st.args.value[0]
  {
    match st.args
    case None => Stranded
    case Some(args) =>
      if st.success then
        Resolved(if |args| > 1 then Many(args) else if |args| == 1 then One(args[0]) else Undefined)
      else
        Rejected(if |args| >= 1 then args[0] else Word(""))
  }

  /**
   * _tryHandlingResponse: the head handler processes the buffer. An
   * incomplete head is reset and the loop stops; a completed one is shifted
   * off, its outcome delivered, and the loop goes on with the remainder, or
   * else with what process returned. A stranded outcome throws, which ends
   * the loop before the remainder is taken.
   */
  function Drive<V>(q: seq<Pending<V>>, buf: Bytes, load: Bytes -> V): Drained<V>
    decreases |q|
  {
    if q == [] then Drained([], buf, [], false)
    else
      var s := ProcessStep(q[0].expected, q[0].state, buf, load);
      if !s.state.complete then
        Drained([q[0].(state := ResetState(s.state))] + q[1..], s.out, [], false)
      else
        var d := Delivery(q[0].promise, OutcomeOf(s.state));
        if d.outcome.Stranded? then Drained(q[1..], s.out, [d], true)
        else
          var rest := Drive(q[1..], NextBuffer(s), load);
          rest.(delivered := [d] + rest.delivered)
  }

  /**
   * The head handler is stuck for good on this buffer: its status carries a
   * body and the declared length is below -2, so no body can ever have the
   * length + 2 bytes parseBody waits for.
   */
  predicate StallsForever(expected: string, buf: Bytes) {
    match IndexOfCrlf(buf)
    case None => false
    case Some(idx) =>
      var words := HeaderWords(buf, idx);
      BodyKindOf(words[0]).Some?
      && match LengthWord(Residual(expected, words))
         case None => false
         case Some(n) => n < -2
  }

  /**
   * The queue between two data events: every handler behind the head is
   * new, and the head has been reset; reset() does not clear remainder, so
   * the head may carry one, but only when the buffer stalls it for good.
   */
  ghost predicate Settled<V>(q: seq<Pending<V>>, buf: Bytes) {
    |q| > 0 ==>
      && Idle(q[0].state)
      && (q[0].state.remainder.Some? ==> StallsForever(q[0].expected, buf))
      && AllNew(q[1..])
  }

  /** Every handler of q is as its constructor left it. */
  ghost predicate AllNew<V>(q: seq<Pending<V>>) {
    q == [] || (q[0].state == InitialState() && AllNew(q[1..]))
  }

  lemma {:induction false} AllNewSnoc<V>(q: seq<Pending<V>>, p: Pending<V>)
    requires AllNew(q) && p.state == InitialState()
    ensures AllNew(q + [p])
  {
    if q != [] {
      AllNewSnoc(q[1..], p);
      assert (q + [p])[1..] == q[1..] + [p];
    }
  }

  /** A command of the table: its name, the token of its success, and whether it sends a payload. */
  datatype Command = Command(name: string, expected: string, sendsData: bool)

  /**
   * The commands of the client, as makeCommand defines them on the
   * prototype: only put sends a payload, and only quit expects no response.
   */
  function Commands(): (table: seq<Command>)
    ensures forall k :: 0 <= k < |table| ==> (table[k].sendsData <==> table[k].name == "put")
    ensures forall k :: 0 <= k < |table| ==> (table[k].expected == NO_RESPONSE <==> table[k].name == "quit")
  {
    [
      Command("use", "USING", false),
      Command("put", "INSERTED", true),
      Command("watch", "WATCHING", false),
      Command("ignore", "WATCHING", false),
      Command("reserve", "RESERVED", false),
      Command("reserve-with-timeout", "RESERVED", false),
      Command("delete", "DELETED", false),
      Command("release", "RELEASED", false),
      Command("bury", "BURIED", false),
      Command("touch", "TOUCHED", false),
      Command("kick", "KICKED", false),
      Command("kick-job", "KICKED", false),
      Command("peek", "FOUND", false),
      Command("peek-ready", "FOUND", false),
      Command("peek-delayed", "FOUND", false),
      Command("peek-buried", "FOUND", false),
      Command("list-tube-used", "USING", false),
      Command("pause-tube", "PAUSED", false),
      Command("list-tubes", "OK", false),
      Command("list-tubes-watched", "OK", false),
      Command("stats-job", "OK", false),
      Command("stats-tube", "OK", false),
      Command("stats", "OK", false),
      Command("quit", NO_RESPONSE, false)
    ]
  }

  /** An argument of a command call: a string, or a Buffer. */
  datatype Param = Text(text: string) | Raw(bytes: Bytes)

  /** How an argument reads in the joined command line (a Buffer is decoded one byte per character). */
  function ParamText(p: Param): string {
    match p
    case Text(s) => s
    case Raw(b) => DecodeHeader(b)
  }

  /** The payload bytes of an argument: a Buffer as is, a string UTF-8 encoded. */
  function ParamBytes(p: Param): Bytes {
    match p
    case Text(s) => Utf8(s)
    case Raw(b) => b
  }

  function Texts(ps: seq<Param>): (ts: seq<string>)
    ensures |ts| == |ps|
    ensures forall k :: 0 <= k < |ps| ==> ts[k] == ParamText(ps[k])
  {
    seq(|ps|, k requires 0 <= k < |ps| => ParamText(ps[k]))
  }

  /**
   * The bytes a command call writes. The argument list is the name followed
   * by the parameters; a payload command pops its last element (the name
   * itself when there are no parameters) as the payload, pushes the
   * payload's byte length in its place, and sends the payload and CRLF
   * after the line.
   */
  function Serialize(c: Command, params: seq<Param>): Bytes {
    var args := [Text(c.name)] + params;
    if c.sendsData then
      var data := ParamBytes(args[|args| - 1]);
      Utf8(Join(Texts(args[..|args| - 1]) + [Decimal(|data|)], ' ')) + CRLF + data + CRLF
    else
      Utf8(Join(Texts(args), ' ')) + CRLF
  }

  /** The result of end(). */
  datatype EndResult = Ended | NeverConnected(message: string)

  /** No handler object occurs twice in the queue. */
  ghost predicate Distinct<V>(hs: seq<ResponseHandler<V>>) {
    forall i, j :: 0 <= i < j < |hs| ==> hs[i] != hs[j]
  }

  /** The result of a drive preceded by deliveries already made. */
  function Then<V>(acc: seq<Delivery<V>>, d: Drained<V>): Drained<V> {
    d.(delivered := acc + d.delivered)
  }

  lemma AppendAssoc<T>(a: seq<T>, b: seq<T>, c: seq<T>)
    ensures (a + b) + c == a + (b + c)
  {
  }

  lemma ThenThen<V>(a: seq<Delivery<V>>, b: seq<Delivery<V>>, d: Drained<V>)
    ensures Then(a, Then(b, d)) == Then(a + b, d)
  {
    assert a + (b + d.delivered) == (a + b) + d.delivered;
  }

  /**
   * One pass over a non-empty queue, described by what the head's process
   * step does, is the first step of Drive.
   */
  lemma DriveByHead<V>(q: seq<Pending<V>>, buf: Bytes, load: Bytes -> V, next: seq<Pending<V>>, out: Bytes,
                       added: seq<Delivery<V>>, more: bool, stranded: bool)
    requires |q| > 0
    requires var s := ProcessStep(q[0].expected, q[0].state, buf, load);
      if !s.state.complete then
        && !more && !stranded && added == []
        && next == [q[0].(state := ResetState(s.state))] + q[1..] && out == s.out
      else
        var settled := Delivery(q[0].promise, OutcomeOf(s.state));
        && added == [settled] && next == q[1..]
        && stranded == settled.outcome.Stranded? && more == !stranded
        && out == (if stranded then s.out else NextBuffer(s))
    ensures Drive(q, buf, load) == if more then Then(added, Drive(next, out, load)) else Drained(next, out, added, stranded)
  {
  }

  /** b ends with a: the handlers left once some were shifted off the front. */
  ghost predicate Suffix<T>(a: seq<T>, b: seq<T>) {
    |a| <= |b| && a == b[|b| - |a|..]
  }

  lemma SuffixTrans<T>(a: seq<T>, b: seq<T>, c: seq<T>)
    requires Suffix(a, b) && Suffix(b, c)
    ensures Suffix(a, c)
  {
    assert c[|c| - |b|..][|b| - |a|..] == c[|c| - |a|..];
  }

  /** Snapshots of a queue's handlers, the first belonging to command number `first`. */
  function QueueOf<V>(hs: seq<ResponseHandler<V>>, first: nat): (q: seq<Pending<V>>)
    reads hs
    ensures |q| == |hs|
  {
    if hs == [] then []
    else [Pending(first, hs[0].expected, hs[0].State())] + QueueOf(hs[1..], first + 1)
  }

  class BeanstalkdClient<V> {
    /** yaml.load, handed to every handler. */
    const load: Bytes -> V
    /** _handlers; the promise of handlers[i] belongs to command number |delivered| + i. */
    var handlers: seq<ResponseHandler<V>>
    /** _buffer */
    var buffer: Bytes
    /** Whether connect() has created the stream. */
    var hasStream: bool
    /** Everything written to the stream. */
    var written: Bytes
    /** The promises settled so far, in the order they were settled. */
    var delivered: seq<Delivery<V>>
    /** The number of commands called so far. */
    var issued: nat

    function Queue(): seq<Pending<V>>
      reads this, handlers
    {
      QueueOf(handlers, |delivered|)
    }

    /**
     * The handler objects are distinct and decode with the client's load;
     * the k-th outcome delivered belongs to the k-th command, and the
     * queue holds the commands after them.
     */
    ghost predicate Valid()
      reads this, handlers
    {
      && Distinct(handlers)
      && (forall i :: 0 <= i < |handlers| ==> handlers[i].load == load)
      && (forall k :: 0 <= k < |delivered| ==> delivered[k].promise == k)
      && |delivered| + |handlers| == issued
    }

    constructor (load: Bytes -> V)
      ensures Valid()
      ensures this.load == load
      ensures handlers == [] && buffer == [] && !hasStream && written == [] && delivered == [] && issued == 0
    {
      this.load := load;
      handlers := [];
      buffer := [];
      hasStream := false;
      written := [];
      delivered := [];
      issued := 0;
    }

    /** connect(): the stream now exists. */
    method Connect()
      modifies this
      ensures hasStream
      ensures handlers == old(handlers) && buffer == old(buffer) && written == old(written)
      ensures delivered == old(delivered) && issued == old(issued)
    {
      hasStream := true;
    }

    /** end(): fails on a client that never connected. */
    method End() returns (r: EndResult)
      ensures r.NeverConnected? <==> !hasStream
      ensures r.NeverConnected? ==> r.message == "Never connected!"
    {
      if !hasStream {
        return NeverConnected("Never connected!");
      }
      return Ended;
    }

    /** The data listener: the chunk is appended to the buffer, then the queue is driven. */
    method OnData(chunk: Bytes) returns (threw: bool)
      requires Valid()
      modifies this, handlers
      ensures Valid() && Suffix(handlers, old(handlers))
      ensures Settled(old(Queue()), old(buffer)) ==> Settled(Queue(), buffer)
      ensures var d := Drive(old(Queue()), old(buffer) + chunk, load);
        && Queue() == d.queue && buffer == d.buffer && threw == d.threw
        && delivered == old(delivered) + d.delivered
      ensures hasStream == old(hasStream) && written == old(written) && issued == old(issued)
    {
      ghost var q := Queue();
      buffer := buffer + chunk;
      threw := TryHandlingResponse();
      if Settled(q, old(buffer)) {
        SettledAppend(q, old(buffer), chunk);
        DriveSettled(q, old(buffer) + chunk, load);
      }
    }

    /** _tryHandlingResponse, its tail call written as a loop. */
    method TryHandlingResponse() returns (threw: bool)
      requires Valid()
      modifies this, handlers
      ensures Valid() && Suffix(handlers, old(handlers))
      ensures var d := Drive(old(Queue()), old(buffer), load);
        && Queue() == d.queue && buffer == d.buffer && threw == d.threw
        && delivered == old(delivered) + d.delivered
      ensures hasStream == old(hasStream) && written == old(written) && issued == old(issued)
    {
      ghost var goal := Drive(Queue(), buffer, load);
      ghost var acc: seq<Delivery<V>> := [];
      while |handlers| > 0
        invariant Valid() && Suffix(handlers, old(handlers))
        invariant delivered == old(delivered) + acc
        invariant goal == Then(acc, Drive(Queue(), buffer, load))
        invariant hasStream == old(hasStream) && written == old(written) && issued == old(issued)
        decreases |handlers|
      {
        ghost var before := delivered;
        ghost var mid := handlers;
        var more, stranded := Advance();
        SuffixTrans(handlers, mid, old(handlers));
        ghost var added := delivered[|before|..];
        AppendAssoc(old(delivered), acc, added);
        if !more {
          acc := acc + added;
          return stranded;
        }
        ThenThen(acc, added, Drive(Queue(), buffer, load));
        acc := acc + added;
      }
      return false;
    }

    /**
     * One pass of _tryHandlingResponse, stated as one step of Drive: the
     * outcomes it delivers, then (when it goes on) a drive of what is left.
     */
    method Advance() returns (more: bool, stranded: bool)
      requires Valid() && |handlers| > 0
      modifies this, handlers[0]
      ensures Valid() && Suffix(handlers, old(handlers)) && (more ==> |handlers| < |old(handlers)|)
      ensures |delivered| >= |old(delivered)| && delivered == old(delivered) + delivered[|old(delivered)|..]
      ensures var added := delivered[|old(delivered)|..];
        Drive(old(Queue()), old(buffer), load)
          == if more then Then(added, Drive(Queue(), buffer, load)) else Drained(Queue(), buffer, added, stranded)
      ensures hasStream == old(hasStream) && written == old(written) && issued == old(issued)
    {
      ghost var q := Queue();
      ghost var b := buffer;
      ghost var before := delivered;
      more, stranded := HandleHead();
      ghost var added := delivered[|before|..];
      assert delivered == before + added;
      DriveByHead(q, b, load, Queue(), buffer, added, more, stranded);
    }

    /**
     * One pass of _tryHandlingResponse over a non-empty queue: the head
     * processes the buffer; incomplete, it is reset and the pass stops;
     * complete, it is shifted off and settled, and the buffer becomes its
     * remainder or what process returned. `more` says whether the loop goes
     * on; `stranded` whether settling threw.
     */
    method HandleHead() returns (more: bool, stranded: bool)
      requires Valid() && |handlers| > 0
      modifies this, handlers[0]
      ensures Valid() && Suffix(handlers, old(handlers))
      ensures var q := old(Queue());
        var s := ProcessStep(q[0].expected, q[0].state, old(buffer), load);
        if !s.state.complete then
          && !more && !stranded && delivered == old(delivered) && handlers == old(handlers)
          && Queue() == [q[0].(state := ResetState(s.state))] + q[1..] && buffer == s.out
        else
          var settled := Delivery(q[0].promise, OutcomeOf(s.state));
          && delivered == old(delivered) + [settled]
          && handlers == old(handlers)[1..] && Queue() == q[1..]
          && stranded == settled.outcome.Stranded? && more == !stranded
          && buffer == (if stranded then s.out else NextBuffer(s))
      ensures hasStream == old(hasStream) && written == old(written) && issued == old(issued)
    {
      ghost var q := Queue();
      var handler := handlers[0];
      var done := RunHead();
      assert handler !in handlers[1..];
      assert QueueOf(handlers[1..], |delivered| + 1) == q[1..];
      if !done {
        return false, false;
      }
      stranded := Settle();
      more := !stranded;
    }

    /**
     * A completed head is shifted off and its promise settled; unless that
     * throws, the buffer becomes the head's remainder when it has one.
     */
    method Settle() returns (stranded: bool)
      requires Valid() && |handlers| > 0
      modifies this
      ensures Valid() && handlers == old(handlers)[1..]
      ensures var h := old(handlers[0].State());
        var settled := Delivery(|old(delivered)|, OutcomeOf(h));
        && delivered == old(delivered) + [settled]
        && stranded == settled.outcome.Stranded?
        && buffer == if !stranded && h.remainder.Some? then h.remainder.value else old(buffer)
      ensures hasStream == old(hasStream) && written == old(written) && issued == old(issued)
    {
      var handler := handlers[0];
      handlers := handlers[1..];
      var outcome := OutcomeOf(handler.State());
      delivered := delivered + [Delivery(|delivered|, outcome)];
      if outcome.Stranded? {
        return true;
      }
      if handler.remainder.Some? {
        buffer := handler.remainder.value;
      }
      return false;
    }

    /**
     * The head processes the buffer, and the buffer becomes what process
     * returned; an incomplete head is reset.
     */
    method RunHead() returns (done: bool)
      requires |handlers| > 0
      modifies this`buffer, handlers[0]
      ensures var s := ProcessStep(handlers[0].expected, old(handlers[0].State()), old(buffer), handlers[0].load);
        && done == s.state.complete && buffer == s.out
        && handlers[0].State() == if done then s.state else ResetState(s.state)
    {
      var handler := handlers[0];
      buffer := handler.Process(buffer);
      done := handler.complete;
      if !done {
        handler.Reset();
      }
    }

    /**
     * A command call: one handler is pushed onto the end of the queue, then
     * the request is written; without a stream the write throws, after the
     * handler was pushed. `promise` is the serial number of the call.
     */
    method Call(c: Command, params: seq<Param>) returns (promise: nat, threw: bool)
      requires Valid()
      modifies this
      ensures Valid()
      ensures promise == old(issued) && issued == old(issued) + 1
      ensures |handlers| == |old(handlers)| + 1
      ensures handlers[..|handlers| - 1] == old(handlers) && fresh(handlers[|handlers| - 1])
      ensures Queue() == old(Queue()) + [Pending(promise, c.expected, InitialState())]
      ensures Settled(old(Queue()), old(buffer)) ==> Settled(Queue(), buffer)
      ensures threw == !hasStream
      ensures written == if hasStream then old(written) + Serialize(c, params) else old(written)
      ensures buffer == old(buffer) && delivered == old(delivered) && hasStream == old(hasStream)
    {
      var bytes := Request(c, params);
      promise := Push(c.expected);
      threw := Write(bytes);
      if Settled(old(Queue()), old(buffer)) {
        SettledPush(old(Queue()), buffer, Pending(promise, c.expected, InitialState()));
      }
    }

    /** this._handlers.push: a new handler for `expected` joins the end of the queue. */
    method Push(expected: string) returns (promise: nat)
      requires Valid()
      modifies this
      ensures Valid()
      ensures promise == old(issued) && issued == old(issued) + 1
      ensures |handlers| == |old(handlers)| + 1
      ensures handlers[..|handlers| - 1] == old(handlers) && fresh(handlers[|handlers| - 1])
      ensures Queue() == old(Queue()) + [Pending(promise, expected, InitialState())]
      ensures written == old(written) && buffer == old(buffer) && delivered == old(delivered) && hasStream == old(hasStream)
    {
      var handler := new ResponseHandler(expected, load);
      QueueOfSnoc(handlers, |delivered|, handler);
      handlers := handlers + [handler];
      promise := issued;
      issued := issued + 1;
      assert handlers[..|handlers| - 1] == old(handlers);
    }

    /** this._stream.write: throws when there is no stream, appends to the written bytes otherwise. */
    method Write(bytes: Bytes) returns (threw: bool)
      modifies this
      ensures threw == !hasStream
      ensures written == if hasStream then old(written) + bytes else old(written)
      ensures handlers == old(handlers) && buffer == old(buffer) && delivered == old(delivered)
      ensures hasStream == old(hasStream) && issued == old(issued)
    {
      if !hasStream {
        return true;
      }
      written := written + bytes;
      return false;
    }
  }

  /**
   * The request of a command call, built as makeCommand builds it: the
   * argument list is the name and the parameters; a payload command pops
   * the payload off its end and pushes the payload's length; the list is
   * joined with spaces and followed by CRLF, then by the payload and CRLF.
   */
  method Request(c: Command, params: seq<Param>) returns (bytes: Bytes)
    ensures bytes == Serialize(c, params)
  {
    var args := [Text(c.name)] + params;
    var data: Option<Bytes> := None;
    if c.sendsData {
      var last := args[|args| - 1];
      args := args[..|args| - 1];
      var payload := ParamBytes(last);
      data := Some(payload);
      args := args + [Text(Decimal(|payload|))];
      assert Texts(args) == Texts(([Text(c.name)] + params)[..|params|]) + [Decimal(|payload|)];
    }
    var line := Utf8(Join(Texts(args), ' '));
    bytes := if data.Some? then line + CRLF + data.value + CRLF else line + CRLF;
  }

  lemma {:induction false} QueueOfSnoc<V>(hs: seq<ResponseHandler<V>>, first: nat, h: ResponseHandler<V>)
    ensures QueueOf(hs + [h], first) == QueueOf(hs, first) + [Pending(first + |hs|, h.expected, h.State())]
  {
    if hs != [] {
      QueueOfSnoc(hs[1..], first + 1, h);
      assert (hs + [h])[1..] == hs[1..] + [h];
    }
  }

  /** A new command joins a settled queue and keeps it settled. */
  lemma SettledPush<V>(q: seq<Pending<V>>, buf: Bytes, p: Pending<V>)
    requires Settled(q, buf) && p.state == InitialState()
    ensures Settled(q + [p], buf)
  {
    if q != [] {
      AllNewSnoc(q[1..], p);
      assert (q + [p])[1..] == q[1..] + [p];
    }
  }

  /** Appending received bytes keeps the queue settled: the header already read does not change. */
  lemma SettledAppend<V>(q: seq<Pending<V>>, buf: Bytes, chunk: Bytes)
    requires Settled(q, buf)
    ensures Settled(q, buf + chunk)
  {
    if |q| > 0 && q[0].state.remainder.Some? {
      StallsForeverAppend(q[0].expected, buf, chunk);
    }
  }

  /** A stalled head stays stalled whatever bytes arrive. */
  lemma StallsForeverAppend(expected: string, buf: Bytes, chunk: Bytes)
    requires StallsForever(expected, buf)
    ensures StallsForever(expected, buf + chunk)
  {
    var idx := IndexOfCrlf(buf).value;
    IndexOfCrlfAppend(buf, chunk);
    assert (buf + chunk)[..idx] == buf[..idx];
  }

  /** The loop leaves a settled queue behind. */
  lemma DriveSettled<V>(q: seq<Pending<V>>, buf: Bytes, load: Bytes -> V)
    requires Settled(q, buf)
    ensures var d := Drive(q, buf, load); Settled(d.queue, d.buffer)
    decreases |q|
  {
    if q != [] {
      var s := ProcessStep(q[0].expected, q[0].state, buf, load);
      if !s.state.complete {
        IncompleteReturnsInput(q[0].expected, q[0].state, buf, load);
        if s.state.remainder != q[0].state.remainder {
          RemainderOnlyWhenStalled(q[0].expected, q[0].state, buf, load);
        }
      } else if !OutcomeOf(s.state).Stranded? {
        DriveSettled(q[1..], NextBuffer(s), load);
      }
    }
  }

  /** An incomplete handler hands the buffer back unchanged. */
  lemma IncompleteReturnsInput<V>(expected: string, st: HandlerState<V>, buf: Bytes, load: Bytes -> V)
    requires !ProcessStep(expected, st, buf, load).state.complete
    ensures ProcessStep(expected, st, buf, load).out == buf
  {
  }

  /**
   * process leaves a fresh handler incomplete with a remainder it did not
   * have only when the buffer stalls it for good: a body of length + 2
   * bytes with surplus after it would have completed the frame.
   */
  lemma RemainderOnlyWhenStalled<V>(expected: string, st: HandlerState<V>, buf: Bytes, load: Bytes -> V)
    requires Idle(st)
    requires var s := ProcessStep(expected, st, buf, load);
      !s.state.complete && s.state.remainder != st.remainder
    ensures StallsForever(expected, buf)
  {
    var idx := IndexOfCrlf(buf).value;
    var words := HeaderWords(buf, idx);
    var residual := Residual(expected, words);
    var st2 := ReadHeader(expected, st, buf, idx);
    DeclaredLengthOfWords<V>(residual);
    var n := LengthWord(residual).value;
    if n >= -2 {
      assert false;
    }
  }
}
