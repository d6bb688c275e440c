/**
 * The response handler of the beanstalkd client: it reads one response
 * frame from the front of the byte buffer. A frame is a header line
 * ending in CRLF; for the statuses RESERVED, FOUND and OK the header's
 * last word declares the length of a body that follows, itself ended by
 * CRLF.
 *
 * HandlerState is a snapshot of a handler's fields; ProcessStep and
 * ParseBodyStep say what process() and parseBody() do to them, and the
 * class ResponseHandler updates its fields in place as the program does.
 * The YAML decoder is the parameter `load`, about which nothing is assumed.
 */
module ResponseHandling {
  import opened JsBuiltins

  /** One element of a handler's args: a header word, a raw body, or a decoded YAML body. */
  datatype Arg<V> = Word(text: string) | Data(bytes: Bytes) | Doc(value: V)

  /** How a body is delivered: passed through as bytes, or decoded as YAML. */
  datatype BodyKind = Passthrough | Yaml

  /**
   * The names a plain object literal inherits from Object.prototype. Looking
   * one of them up in RESPONSES_REQUIRING_BODY yields a function or an
   * object, which is truthy.
   */
  const INHERITED_KEYS: seq<string> := [
    "toString", "valueOf", "constructor", "hasOwnProperty", "isPrototypeOf",
    "propertyIsEnumerable", "toLocaleString", "__proto__", "__defineGetter__",
    "__defineSetter__", "__lookupGetter__", "__lookupSetter__"]

  /**
   * RESPONSES_REQUIRING_BODY[status] as the program reads it: the statuses
   * followed by a body. The lookup is a plain object lookup, so an inherited
   * name also counts as body-bearing, and since its value is neither
   * "yaml" nor "passthrough" parseBody takes its default, passthrough branch.
   */
  function BodyKindOf(status: string): (r: Option<BodyKind>)
    ensures r == Some(Yaml) <==> status == "OK"
    ensures status == "RESERVED" || status == "FOUND" ==> r == Some(Passthrough)
  {
    if status == "RESERVED" || status == "FOUND" then Some(Passthrough)
    else if status == "OK" then Some(Yaml)
    else if status in INHERITED_KEYS then Some(Passthrough)
    else None
  }

  /** The token expected by commands that get no response (quit). */
  const NO_RESPONSE: string := ""

  /** The fields of a handler; None stands for null (or a field never assigned). */
  datatype HandlerState<V> = HandlerState(
    complete: bool,
    success: bool,
    args: Option<seq<Arg<V>>>,
    header: Option<string>,
    body: Option<Bytes>,
    remainder: Option<Bytes>)

  /** The state of a new handler: reset() has run and remainder was never assigned. */
  function InitialState<V>(): HandlerState<V> {
    HandlerState(false, false, None, None, None, None)
  }

  /** reset(): every field but remainder is cleared. */
  function ResetState<V>(st: HandlerState<V>): HandlerState<V> {
    st.(complete := false, success := false, args := None, header := None, body := None)
  }

  /** The state reset() leaves, whatever the remainder. */
  predicate Idle<V>(st: HandlerState<V>) {
    !st.complete && !st.success && st.args.None? && st.header.None? && st.body.None?
  }

  /** The header words as args, one Word each. */
  function Words<V>(ws: seq<string>): (args: seq<Arg<V>>)
    ensures |args| == |ws|
  {
    if ws == [] then [] else [Word(ws[0])] + Words(ws[1..])
  }

  /**
   * parseInt(args[args.length - 1], 10): the declared body length. When
   * parseBody runs, args holds header words only; an empty args reads
   * undefined, which parses as NaN (None).
   */
  function DeclaredLength<V>(args: seq<Arg<V>>): Option<int> {
    if |args| == 0 then None
    else match args[|args| - 1]
      case Word(text) => ParseInt(text)
      case _ => None
  }

  /** The declared length of a list of header words: its last word, parsed. */
  function LengthWord(words: seq<string>): Option<int> {
    if words == [] then None else ParseInt(words[|words| - 1])
  }

  /** Read off the header words, the declared length is their last word, parsed. */
  lemma DeclaredLengthOfWords<V>(words: seq<string>)
    ensures DeclaredLength<V>(Words(words)) == LengthWord(words)
  {
  }

  /**
   * The first step of parseBody once the length n is known: when more than
   * n + 2 bytes follow the header, the surplus becomes the remainder and the
   * body keeps the first n + 2.
   */
  function SplitSurplus<V>(st: HandlerState<V>, n: int): HandlerState<V>
    requires st.body.Some?
  {
    var all := st.body.value;
    if |all| > n + 2
    then st.(remainder := Some(Slice(all, n + 2, |all|)), body := Some(Slice(all, 0, n + 2)))
    else st
  }

  /**
   * The second step: a body of exactly n + 2 bytes completes the frame; the
   * length word is replaced by the first n bytes, raw or decoded.
   */
  function TakeBody<V>(st: HandlerState<V>, n: int, how: BodyKind, load: Bytes -> V): HandlerState<V>
    requires st.body.Some? && st.args.Some? && |st.args.value| > 0
  {
    if |st.body.value| == n + 2 then
      var args := st.args.value;
      st.(args := Some(args[..|args| - 1] + [BodyArg(how, Slice(st.body.value, 0, n), load)]), complete := true)
    else st
  }

  /** The element pushed for a body: the bytes themselves, or what yaml.load makes of them. */
  function BodyArg<V>(how: BodyKind, content: Bytes, load: Bytes -> V): Arg<V> {
    match how
    case Yaml => Doc(load(content))
    case Passthrough => Data(content)
  }

  /** What parseBody(how) does to the handler's fields. */
  function ParseBodyStep<V>(st: HandlerState<V>, how: BodyKind, load: Bytes -> V): HandlerState<V>
    requires st.args.Some?
  {
    if st.body.None? then st
    else match DeclaredLength(st.args.value)
      case None => st
      case Some(n) => TakeBody(SplitSurplus(st, n), n, how, load)
  }

  /** The handler's fields after process(buf), and the buffer process returns. */
  datatype Step<V> = Step(state: HandlerState<V>, out: Bytes)

  /** The words of the header line that ends at idx, split on single spaces. */
  function HeaderWords(buf: Bytes, idx: nat): (words: seq<string>)
    requires idx <= |buf|
    ensures |words| >= 1
  {
    Split(DecodeHeader(buf[..idx]), ' ')
  }

  /** The header words left in args: without the status on success, all of them otherwise. */
  function Residual(expected: string, words: seq<string>): seq<string>
    requires |words| >= 1
  {
    if words[0] == expected then words[1..] else words
  }

  /**
   * The fields once the header line ending at idx has been read: header,
   * the bytes after the terminator as body, the residual words as args, and
   * success set when the status is the expected token.
   */
  function ReadHeader<V>(expected: string, st: HandlerState<V>, buf: Bytes, idx: nat): HandlerState<V>
    requires idx + 2 <= |buf|
  {
    var words := HeaderWords(buf, idx);
    st.(header := Some(DecodeHeader(buf[..idx])), body := Some(buf[idx + 2..]),
        args := Some(Words(Residual(expected, words))),
        success := st.success || words[0] == expected)
  }

  /**
   * What process(buf) does, for a handler expecting the status token
   * `expected`: nothing without a terminator (except for quit, which then
   * completes); otherwise the header is read and, for a body-bearing status,
   * the body is parsed. A completed body-bearing frame returns the empty
   * buffer, an incomplete one the whole input; a frame without a body
   * returns what follows its header.
   */
  function ProcessStep<V>(expected: string, st: HandlerState<V>, buf: Bytes, load: Bytes -> V): Step<V> {
    match IndexOfCrlf(buf)
    case Some(idx) =>
      var st2 := ReadHeader(expected, st, buf, idx);
      (match BodyKindOf(HeaderWords(buf, idx)[0])
       case Some(how) =>
         var st3 := ParseBodyStep(st2, how, load);
         Step(st3, if st3.complete then [] else buf)
       case None =>
         Step(st2.(complete := true), buf[idx + 2..]))
    case None =>
      Step(if expected == NO_RESPONSE then st.(success := true, complete := true) else st, buf)
  }

  /**
   * The buffer the client continues with after a completed frame: the
   * handler's remainder when one was split off, otherwise what process
   * returned.
   */
  function NextBuffer<V>(s: Step<V>): Bytes {
    if s.state.remainder.Some? then s.state.remainder.value else s.out
  }

  class ResponseHandler<V> {
    const expected: string
    /** yaml.load, the decoder for OK bodies. */
    const load: Bytes -> V

    var complete: bool
    var success: bool
    var args: Option<seq<Arg<V>>>
    var header: Option<string>
    var body: Option<Bytes>
    var remainder: Option<Bytes>

    function State(): HandlerState<V>
      reads this
    {
      HandlerState(complete, success, args, header, body, remainder)
    }

    constructor (expected: string, load: Bytes -> V)
      ensures this.expected == expected && this.load == load
      ensures State() == InitialState()
    {
      this.expected := expected;
      this.load := load;
      remainder := None;
      new;
      Reset();
    }

    method Reset()
      modifies this
      ensures State() == ResetState(old(State()))
    {
      complete := false;
      success := false;
      args := None;
      header := None;
      body := None;
    }

    method Process(buf: Bytes) returns (out: Bytes)
      modifies this
      ensures Step(State(), out) == ProcessStep(expected, old(State()), buf, load)
    {
      ghost var st0 := State();
      var found := IndexOfCrlf(buf);
      if found.Some? {
        var idx := found.value;
        var text := DecodeHeader(buf[..idx]);
        header := Some(text);
        body := Some(Slice(buf, idx + 2, |buf|));
        var words := Split(text, ' ');
        args := Some(Words(words));
        var response := words[0];
        assert words == HeaderWords(buf, idx);

        if response == expected {
          success := true;
          args := Some(args.value[1..]);
          assert args.value == Words(words[1..]);
        }
        assert buf[idx + 2..|buf|] == buf[idx + 2..];
        assert args == Some(Words(Residual(expected, words)));
        assert success == (st0.success || words[0] == expected);
        assert State() == ReadHeader(expected, st0, buf, idx);

        var how := BodyKindOf(response);
        if how.Some? {
          ParseBody(how.value);
          if complete {
            // the start lies past the end of buf whatever its contents
            var sliceStart := idx + 2 + |buf| + 2;
            if sliceStart >= |buf| {
              return [];
            }
            return Slice(buf, sliceStart, |buf|);
          }
        } else {
          complete := true;
          var sliceStart := idx + 2;
          if sliceStart >= |buf| {
            assert buf[idx + 2..] == [];
            return [];
          }
          return Slice(buf, idx + 2, |buf|);
        }
      } else {
        if expected == NO_RESPONSE {
          success := true;
          complete := true;
        }
      }
      return buf;
    }

    method ParseBody(how: BodyKind)
      requires args.Some?
      modifies this
      ensures State() == ParseBodyStep(old(State()), how, load)
    {
      if body.Some? {
        var expectedLength := DeclaredLength(args.value);
        if expectedLength.Some? {
          ghost var st0 := State();
          var n := expectedLength.value;
          var all := body.value;
          if |all| > n + 2 {
            // the body holds more than this frame: split off the rest
            remainder := Some(Slice(all, n + 2, |all|));
            body := Some(Slice(all, 0, n + 2));
          }
          assert State() == SplitSurplus(st0, n);
          ghost var st1 := State();
          if |body.value| == n + 2 {
            var words := args.value;
            var content := Slice(body.value, 0, n);
            complete := true;
            args := Some(words[..|words| - 1] + [BodyArg(how, content, load)]);
          }
          assert State() == TakeBody(st1, n, how, load);
          assert State() == ParseBodyStep(st0, how, load);
        }
      }
    }
  }
}
