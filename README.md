# beanstalkd client framing, in Dafny

This project models the core of a promise-based Node.js client for the
beanstalkd work queue. The client writes commands to a TCP stream as text
lines ending in CRLF. A `put` command also sends a payload. Responses come
back as frames on the same stream, in the order the commands were sent.

The model covers two source files.

- `lib/response-handler.js`: one `ResponseHandler` per command reads one
  response frame from the front of a byte buffer. A frame is a header line
  ending in CRLF. For the statuses `RESERVED`, `FOUND` and `OK`, the last
  header word declares the length of a body that follows, itself ended by
  CRLF. The status table is a plain object, so a status that names a
  property every object inherits (`toString`, `__proto__` and ten others)
  is body-bearing too, with its body passed through as bytes. The handler records whether the frame is complete, whether its
  status is the token the command expects, its args, and any bytes past
  the frame (the remainder).
- `lib/client.js`: `BeanstalkdClient` keeps a FIFO of pending handlers and
  a buffer of received bytes. Each data event appends its chunk and runs
  `_tryHandlingResponse`. That method hands the buffer to the head handler.
  A completed head is shifted off and its promise settled, and the method
  goes on with what is left. `makeCommand` builds the request bytes,
  queues a new handler and writes the request. The command table maps each
  beanstalkd command to its success token.

How the model is built:

- **Pure specifications.** `ProcessStep` and `ParseBodyStep` are pure
  functions over a snapshot of a handler's fields. `Drive` is the same for
  the client's loop over snapshots of the queue.
- **Imperative classes.** `ResponseHandler` and `BeanstalkdClient` update
  their fields in place, as the source does. Each method is proved to
  compute its specification function.
- **Properties.** The lemmas state the promised properties on those
  functions:
  - waiting for the terminator;
  - header splitting and success;
  - body lengths and the remainder;
  - the round trip from an encoded frame to the handler's args;
  - FIFO delivery;
  - responses to several commands arriving back to back;
  - the state kept between data events;
  - independence from how the stream cuts its chunks.

Environment stand-ins:

- **YAML decoder:** the parameter `load`, about which nothing is assumed.
- **Socket:** the byte log `written`.
- **Promise settlements:** the log `delivered`.
- **Exceptions:** a `threw` result.

Where the code does something a reader of the protocol would not expect,
the model follows the code:

- **Completed body frame returns an empty buffer.** On completion,
  `process` computes its slice start as `idx + 2 + buf.length + 2`, which
  always lies past the end of the buffer. The bytes after the frame reach
  the client only through `handler.remainder`.
- **Unparsable length word.** A declared length that does not parse (NaN)
  never completes, whatever arrives later.
- **Lengths of -2 and -1.** A declared length of -2 completes at once
  with an empty body, and whatever follows the header becomes the
  remainder. A declared length of -1 completes only once at least one byte
  follows the header. It then takes that one byte as the body, delivers an
  empty body, and leaves the bytes after it as the remainder.
- **Lengths below -2.** These never complete, yet set a remainder. `reset()`
  leaves that remainder in place.
- **quit before the connection closes.** Without a terminator, `quit`
  completes with `args` still null. Settling it then throws a TypeError out
  of the data listener, so its promise never settles (outcome `Stranded`).

## Model

| member | source | states |
|---|---|---|
| ResponseHandling.ResponseHandler.constructor | lib/response-handler.js:12-16 | a new handler keeps its expected token and starts with every field cleared and no remainder |
| ResponseHandling.ResponseHandler.Reset | lib/response-handler.js:18-24 | complete, success, args, header and body are cleared; remainder is kept |
| ResponseHandling.ResponseHandler.Process | lib/response-handler.js:26-69 | the new fields and the returned buffer are exactly what ProcessStep specifies for the old fields and the input buffer |
| ResponseHandling.ResponseHandler.ParseBody | lib/response-handler.js:81-110 | the new fields are what ParseBodyStep specifies: surplus split off as remainder, then completion on a body of exactly length + 2 bytes |
| ResponseHandling.BodyKindOf | lib/response-handler.js:3-7 | RESPONSES_REQUIRING_BODY as line 41 looks it up: RESERVED and FOUND pass the body through and exactly OK decodes it as YAML; the definition also lets the inherited Object.prototype names through as passthrough, and gives no other status a body |
| ResponseHandling.ProcessStep | lib/response-handler.js:26-69 | the specification of process(buf); its properties are the ResponseProperties lemmas |
| ResponseHandling.ParseBodyStep | lib/response-handler.js:81-110 | the specification of parseBody(how); ParseBodyWaits, ParseBodyTakes and ParseBodyNegativeLength state what it does |
| ResponseProperties.WaitsForTerminator | lib/response-handler.js:27-28 | without CRLF in the buffer, a handler for any command but quit changes nothing and returns the buffer whole |
| ResponseProperties.QuitCompletesWithoutData | lib/response-handler.js:60-66 | for quit, a buffer without CRLF completes and succeeds at once, with args still null and the buffer returned |
| ResponseProperties.HeaderSplit | lib/response-handler.js:27-39 | the header is the text before the first CRLF and its words joined by spaces give it back; success holds exactly when the first word is the expected token |
| ResponseProperties.ParseBodyKeepsHeader | lib/response-handler.js:81-110 | parseBody keeps header and success, completes only when the length word parses, and changes at most the last element of args |
| ResponseProperties.FrameWithoutBody | lib/response-handler.js:51-59 | a status without a body completes at once and returns exactly the bytes after the first CRLF |
| ResponseHandling.DeclaredLengthOfWords | lib/response-handler.js:86 | the length parseBody reads is the last residual header word, parsed |
| ResponseProperties.ParseBodyWaits | lib/response-handler.js:88-94 | a body shorter than length + 2 bytes leaves every field as it was |
| ResponseProperties.ParseBodyTakes | lib/response-handler.js:88-108 | a body of at least length + 2 bytes completes: the length word becomes the first length bytes (raw or decoded), and the surplus becomes the remainder |
| ResponseProperties.ParseBodyNegativeLength | lib/response-handler.js:86-108 | a declared length of -2 or -1 waits until length + 2 bytes (none, or one) follow the header, then completes with an empty body, keeping what follows those bytes as the remainder |
| ResponseProperties.ShortBodyWaits | lib/response-handler.js:41-50 | with too few bytes after the header, the frame stays incomplete, keeps its header words and returns the buffer whole |
| ResponseProperties.FullBodyCompletes | lib/response-handler.js:41-50 | with enough bytes after the header, the frame completes and succeeds when the status is expected; its body is cut by length alone; the bytes after body + 2 are the remainder; the returned buffer is empty |
| ResponseProperties.FrameReassembles | lib/response-handler.js:31-50 | for a completed body-bearing frame, the header line, CRLF, the handler's body field (length + 2 bytes) and its remainder field put together give the input buffer back |
| ResponseProperties.UnparsableLengthNeverCompletes | lib/response-handler.js:86-94 | a body-bearing status whose length word does not parse never completes, and the buffer comes back whole |
| ResponseProperties.CompletedBodyReturnsEmpty | lib/response-handler.js:44-49 | a completed body-bearing frame always returns the empty buffer, whatever followed it |
| ResponseProperties.BodyStatusHasNoDigits | lib/response-handler.js:3-7 | no body-bearing status word, inherited names included, parses as a number |
| ResponseProperties.StatusDecidesOutcome | lib/response-handler.js:26-69 | success holds exactly when the first header word is the expected token (or, with no CRLF, when the command is quit); a completed failure keeps the status word as args[0] |
| ResponseProperties.WordsAppend | lib/response-handler.js:33 | splitting the header into args maps each word separately |
| ResponseProperties.DecimalIsToken | lib/client.js:96 | a length in decimal is a header token |
| ResponseProperties.JoinTokens | lib/client.js:103 | tokens joined by spaces hold no CR and are ASCII |
| ResponseProperties.EncodedHeader | lib/response-handler.js:27-33 | in an encoded frame, the first CRLF ends the header line, its words are the frame's words, and the body and CRLF follow |
| ResponseProperties.EncodedFrameHeader | lib/response-handler.js:27-33 | the same holds with arbitrary bytes after the frame |
| ResponseProperties.ParsesFrameWithoutBody | lib/response-handler.js:26-59 | a fresh handler reads a frame without a body: it completes, succeeds exactly on the expected status, and leaves the bytes after the frame |
| ResponseProperties.ReadsHeaderOnly | lib/response-handler.js:51-59 | the same, stated on the header words the handler finds |
| ResponseProperties.FrameWithBodyPieces | lib/response-handler.js:86-96 | in a buffer holding a frame with a body, the length word parses to the body's length and the body and rest sit where parseBody cuts |
| ResponseProperties.ReadsBody | lib/response-handler.js:41-50 | a fresh handler reading a body-bearing frame completes, with the body as its last arg, and leaves the bytes after the frame |
| ResponseProperties.ParsesFrameWithBody | lib/response-handler.js:41-50 | the same, for a frame given by its status, words and body |
| ResponseProperties.ParsesEncodedFrame | lib/response-handler.js:26-110 | round trip: a fresh handler reading any well-formed encoded frame followed by any bytes completes, succeeds exactly on the expected status, ends with the frame's words and body as args, and leaves exactly the following bytes |
| JsBuiltins.IndexOfCrlf | lib/response-handler.js:27 | the result is the first position of CRLF, and None means there is none |
| JsBuiltins.IndexOfCrlfAppend | lib/response-handler.js:27 | bytes appended after a CRLF do not move the first CRLF |
| JsBuiltins.IndexOfCrlfAfter | lib/client.js:103 | a CRLF-free line followed by CRLF has its first CRLF right after the line |
| JsBuiltins.RelativeIndex | lib/response-handler.js:90-96 | slice bounds: negative indices count from the end, and everything is clamped to the length |
| JsBuiltins.Slice | lib/response-handler.js:32 | in-range bounds give the subsequence; the result is never longer than the input |
| JsBuiltins.DecodeHeader | lib/response-handler.js:31 | each header byte becomes one character |
| JsBuiltins.Utf8 | lib/client.js:103 | encoding ASCII text gives one byte per character, with the same code |
| JsBuiltins.Utf8Append | lib/client.js:103 | encoding distributes over concatenation |
| JsBuiltins.DecodeUtf8Ascii | lib/response-handler.js:31 | decoding the encoding of ASCII text gives the text back |
| JsBuiltins.Split | lib/response-handler.js:33 | split gives at least one part and no part holds the separator |
| JsBuiltins.JoinSplit | lib/response-handler.js:33 | joining the parts of a split gives the text back |
| JsBuiltins.SplitJoin | lib/client.js:103 | splitting parts joined by a separator they do not hold gives the parts back |
| JsBuiltins.ParseIntDecimal | lib/response-handler.js:86 | parseInt reads back the decimal text of every non-negative integer |
| JsBuiltins.ParseInt | lib/response-handler.js:86 | parseInt(s, 10) after leading white space and one sign; a number is read only from a text that holds a digit, and NaN (None) otherwise |
| JsBuiltins.Join | lib/client.js:103 | args.join(" "): the parts with the separator between neighbours; its properties are JoinSplit and SplitJoin, which make it the inverse of split |
| JsBuiltins.Decimal | lib/client.js:96 | the decimal text of a length is non-empty and all digits |
| Client.OutcomeOf | lib/client.js:61-65 | a completed handler resolves exactly when it succeeded and has args: with args when more than one, with args[0] when one; it rejects with args[0]; null args strand the promise |
| Client.Drive | lib/client.js:45-72 | the specification of _tryHandlingResponse on snapshots of the queue; DriveInOrder, DriveEnds and PipelinedFrames state its properties |
| Client.Serialize | lib/client.js:86-104 | the bytes a command call writes; SerializeIsFrame and RequestReadsBack state its properties |
| Client.DriveByHead | lib/client.js:45-72 | one pass over the head, described by its process step, is the first step of Drive |
| Client.BeanstalkdClient.constructor | lib/client.js:8-14 | a new client has an empty queue and buffer and no stream |
| Client.BeanstalkdClient.Connect | lib/client.js:16-17 | connecting creates the stream and changes nothing else |
| Client.BeanstalkdClient.End | lib/client.js:38-43 | end() fails with "Never connected!" exactly when there is no stream |
| Client.BeanstalkdClient.OnData | lib/client.js:18-21 | the chunk is appended and the queue driven: the new queue, buffer, deliveries and throw are those of Drive on old buffer + chunk; a settled queue stays settled |
| Client.BeanstalkdClient.TryHandlingResponse | lib/client.js:45-72 | the loop computes Drive: queue, buffer and throw as Drive leaves them, Drive's outcomes appended to the deliveries, the handlers a suffix of the old ones |
| Client.BeanstalkdClient.Advance | lib/client.js:45-72 | one pass is one step of Drive: its deliveries, then (when it goes on) a drive of what is left |
| Client.BeanstalkdClient.HandleHead | lib/client.js:50-69 | an incomplete head is reset and stays; a complete head is shifted off, its outcome delivered, and the buffer becomes its remainder or what process returned |
| Client.BeanstalkdClient.Settle | lib/client.js:60-69 | the head is shifted off, its promise settled by OutcomeOf, and the buffer replaced by the remainder unless settling threw |
| Client.BeanstalkdClient.RunHead | lib/client.js:50-56 | the head processes the buffer, which becomes what process returned; an incomplete head is reset |
| Client.BeanstalkdClient.Call | lib/client.js:86-108 | one handler for the command's token joins the end of the queue before the request is written; the bytes written are Serialize; with no stream the write throws after the push |
| Client.BeanstalkdClient.Push | lib/client.js:99-100 | a fresh handler joins the end of the queue, and nothing else changes |
| Client.BeanstalkdClient.Write | lib/client.js:106 | the request is appended to the stream, or the call throws when there is none |
| Client.Request | lib/client.js:87-104 | the request bytes built step by step equal Serialize |
| Client.SettledPush | lib/client.js:99-100 | a new handler joining the queue keeps it settled |
| Client.SettledAppend | lib/client.js:19 | appending received bytes keeps the queue settled |
| Client.StallsForeverAppend | lib/response-handler.js:86-94 | a head stalled for good by a length below -2 stays stalled whatever arrives |
| Client.DriveSettled | lib/client.js:45-72 | the loop leaves a settled queue: a reset head (with a remainder only when stalled for good) and new handlers behind it |
| Client.IncompleteReturnsInput | lib/response-handler.js:44-68 | an incomplete handler returns its input buffer |
| Client.RemainderOnlyWhenStalled | lib/response-handler.js:88-94 | a fresh handler left incomplete gains a remainder only when its length word is below -2 |
| ClientProperties.DriveInOrder | lib/client.js:50-71 | FIFO: the k-th outcome delivered belongs to the k-th pending command, and what is left is the rest of the queue |
| ClientProperties.DriveEnds | lib/client.js:53-71 | the loop ends on an empty queue, on an incomplete (reset) head, or on a throw, which only a stranded outcome causes and which comes last |
| ClientProperties.IncompleteHeadStops | lib/client.js:51-56 | an incomplete head delivers nothing, keeps the buffer whole and stays in front, reset; a fresh head not stalled for good is left exactly as it was |
| ClientProperties.NothingPendingAccumulates | lib/client.js:19-48 | with no command pending, every chunk only accumulates in the buffer |
| ClientProperties.HeadOutcome | lib/client.js:61-65 | a completed fresh head resolves exactly when its status is the expected token, and otherwise rejects with the status word |
| ClientProperties.QuitStrandsWithoutTerminator | lib/client.js:61-65 | quit on a buffer without CRLF is shifted off stranded, the loop throws, and no later handler runs |
| ClientProperties.AllNewSettled | lib/client.js:99-100 | a queue of new handlers is settled on any buffer |
| ClientProperties.CompleteHasArgs | lib/response-handler.js:28-59 | a fresh handler other than quit completes only after reading a header, so args is set |
| ClientProperties.NeverStrands | lib/client.js:61-65 | without quit the loop never throws |
| ClientProperties.StalledStep | lib/response-handler.js:86-94 | on a buffer that stalls the head for good, the head's earlier fields do not matter and it stays incomplete |
| ClientProperties.ResumeAfterIncomplete | lib/client.js:53-56 | a head left incomplete and reset reads a grown buffer as a fresh handler would |
| ClientProperties.ParseBodyExtends | lib/response-handler.js:88-108 | a body that completes still completes with more bytes after it, with the same args, and the extra bytes end the remainder |
| ClientProperties.ExtendCompleted | lib/response-handler.js:26-69 | a frame that completes completes the same way with more bytes after it, and those bytes follow what the client continues with |
| ClientProperties.Resume | lib/client.js:18-72 | without quit, driving after more bytes arrive equals driving now, then driving what is left on the kept buffer plus the new bytes |
| ClientProperties.DriveKeepsNoQuit | lib/client.js:45-72 | the loop only removes handlers, so it adds no quit |
| ClientProperties.FeedIsDrive | lib/client.js:18-21 | without quit, a run of data events ends where one event carrying all their bytes would |
| ClientProperties.ChunkingIrrelevant | lib/client.js:18-21 | without quit, two ways of cutting the same bytes into chunks give the same outcomes and final state |
| ClientProperties.SerializeIsFrame | lib/client.js:86-104 | a request is a frame: the name and parameters joined by spaces (the payload length last for put), CRLF, then the payload and CRLF |
| ClientProperties.RequestReadsBack | lib/client.js:86-104 | read back as the server does, a request's first CRLF ends its line, whose words are the name and parameters (and the payload length, which parses back); the payload, CRLF and the next request follow |
| Client.Commands | lib/client.js:129-159 | the table of the 24 commands with their success tokens; only put sends a payload, and only quit expects no response |
| ClientProperties.Feed | lib/client.js:18-21 | a run of data events, each appending its chunk and driving the queue; FeedIsDrive and ChunkingIrrelevant are its properties |
| ClientProperties.PipelinedFrames | lib/client.js:45-72 | responses to every pending command arriving back to back, followed by any bytes: each command is settled with its own response's words and body, in order, resolving exactly when its status is the expected token; the queue empties, nothing throws, and exactly the following bytes are kept |

## Left out

- The TCP socket, `EventEmitter`, and the `connect`, `close` and `error` listeners with their promise are not modelled. When the stream closes or fails, pending handlers are not failed in the source either.
- Host and port defaults, `DEFAULT_HOST`, `DEFAULT_PORT`, `LOWEST_PRIORITY` and the `ResponseHandler` export carry no behaviour of the core.
- The YAML decoder (`js-yaml`) is the uninterpreted parameter `load`. Its exceptions are not modelled.
- JsBuiltins.DecodeHeader: decodes one byte per character instead of UTF-8. The two agree on the ASCII headers beanstalkd sends.
- Client.Serialize: a Buffer parameter other than the payload is decoded one byte per character (as `DecodeHeader` does) instead of as UTF-8 before `join` and `new Buffer` re-encode it. The bytes written agree with the source when that Buffer is ASCII, as beanstalkd tube names and job ids are; a Buffer parameter holding bytes of 0x80 and above is written with two bytes for each such byte, where the source writes its valid UTF-8 bytes back unchanged.
- JsBuiltins.Decimal: renders every natural in decimal; JavaScript uses exponent form from 1e21 on, and no payload is that long.
- JsBuiltins.ParseInt: exact on unbounded integers; JavaScript loses precision from 2^53 on.
- Numeric command arguments are not modelled, only strings and Buffers. Numbers are joined as their decimal text; a numeric payload makes `new Buffer(n)` allocate n zero bytes.
- Promise settlement is a log of outcomes, not callbacks run later. A JavaScript exception is a `threw` result: the source lets it escape the data listener.
- The command table is the sequence `Commands()`, not methods installed on the prototype. The `defineProperty` that names each method is not modelled.
- Client.BeanstalkdClient.OnData: keeps the queue settled only when it was settled before, as a conditional ensures rather than a class invariant. The constructor and Call keep it the same way.
- ClientProperties.ChunkingIrrelevant: stated only for queues without quit. With quit pending, a chunk that ends before a CRLF strands quit, so chunk boundaries do matter there.
- ClientProperties.RequestReadsBack: not stated for put called without arguments, where the command name itself is popped as the payload. Serialize models that case.
- ResponseProperties.ParsesEncodedFrame: stated for frames whose words are ASCII tokens without spaces or CR, as beanstalkd writes them.
- ClientProperties.PipelinedFrames: stated for well-formed token frames, as ParsesEncodedFrame is, and for a queue of handlers that have read nothing yet.
