/**
 * What process() guarantees about one response frame, stated on
 * ProcessStep, and the round trip from a frame the server writes to what
 * the handler reads out of it.
 */
module ResponseProperties {
  import opened JsBuiltins
  import opened ResponseHandling

  /** Without a terminator the handler waits: nothing changes and the buffer comes back whole. */
  lemma WaitsForTerminator<V>(expected: string, st: HandlerState<V>, buf: Bytes, load: Bytes -> V)
    requires IndexOfCrlf(buf).None?
    requires expected != NO_RESPONSE
    ensures ProcessStep(expected, st, buf, load) == Step(st, buf)
  {
  }

  /**
   * A handler that expects no response (quit) completes successfully on a
   * buffer without a terminator; args stays null.
   */
  lemma QuitCompletesWithoutData<V>(st: HandlerState<V>, buf: Bytes, load: Bytes -> V)
    requires IndexOfCrlf(buf).None?
    requires Idle(st)
    ensures var r := ProcessStep(NO_RESPONSE, st, buf, load);
      r.state.complete && r.state.success && r.state.args.None? && r.out == buf
  {
  }

  /**
   * The header is the text before the first terminator, and its words
   * joined by single spaces give it back. The frame succeeds exactly when
   * its first word is the expected token; on success that word leaves args.
   */
  lemma HeaderSplit<V>(expected: string, st: HandlerState<V>, buf: Bytes, load: Bytes -> V, idx: nat)
    requires Idle(st)
    requires IndexOfCrlf(buf) == Some(idx)
    ensures var r := ProcessStep(expected, st, buf, load);
      var words := HeaderWords(buf, idx);
      && Join(words, ' ') == DecodeHeader(buf[..idx])
      && r.state.header == Some(DecodeHeader(buf[..idx]))
      && r.state.body.Some?
      && r.state.success == (words[0] == expected)
      && (BodyKindOf(words[0]).None? ==> r.state.args == Some(Words(Residual(expected, words))))
  {
    JoinSplit(DecodeHeader(buf[..idx]), ' ');
    var r := ProcessStep(expected, st, buf, load);
    var st2 := ReadHeader(expected, st, buf, idx);
    match BodyKindOf(HeaderWords(buf, idx)[0])
    case Some(how) =>
      ParseBodyKeepsHeader(st2, how, load);
    case None =>
  }

  /**
   * parseBody changes neither header nor success, leaves a body in place,
   * completes only on a declared length that parses, and at most replaces
   * the last element of args.
   */
  lemma ParseBodyKeepsHeader<V>(st: HandlerState<V>, how: BodyKind, load: Bytes -> V)
    requires st.args.Some?
    ensures var st3 := ParseBodyStep(st, how, load);
      && st3.header == st.header && st3.success == st.success && st3.body.Some? == st.body.Some?
      && (st3.complete ==> st.complete || DeclaredLength(st.args.value).Some?)
      && st3.args.Some? && |st3.args.value| == |st.args.value|
      && (forall k :: 0 <= k < |st.args.value| - 1 ==> st3.args.value[k] == st.args.value[k])
  {
  }

  /**
   * A status without a body completes at once; process returns exactly
   * the bytes after the first terminator (the empty buffer when there are
   * none), and the client continues with them.
   */
  lemma FrameWithoutBody<V>(expected: string, st: HandlerState<V>, buf: Bytes, load: Bytes -> V, idx: nat)
    requires IndexOfCrlf(buf) == Some(idx)
    requires BodyKindOf(HeaderWords(buf, idx)[0]).None?
    ensures var r := ProcessStep(expected, st, buf, load);
      r.state.complete && r.out == buf[idx + 2..] && r.state.remainder == st.remainder
  {
  }

  /**
   * parseBody on a body shorter than the declared length plus its
   * terminator changes nothing: the handler waits for more bytes.
   */
  lemma ParseBodyWaits<V>(st: HandlerState<V>, how: BodyKind, load: Bytes -> V, n: int)
    requires st.args.Some? && st.body.Some?
    requires DeclaredLength(st.args.value) == Some(n)
    requires |st.body.value| < n + 2
    ensures ParseBodyStep(st, how, load) == st
  {
  }

  /**
   * parseBody on a body of at least n + 2 bytes, n the declared length:
   * the frame completes, the length word is replaced by the first n bytes
   * (raw, or decoded for OK), the two bytes after them are dropped
   * unchecked, and whatever follows becomes the remainder.
   */
  lemma ParseBodyTakes<V>(st: HandlerState<V>, how: BodyKind, load: Bytes -> V, n: nat)
    requires st.args.Some? && st.body.Some?
    requires DeclaredLength(st.args.value) == Some(n)
    requires |st.body.value| >= n + 2
    ensures var args, b := st.args.value, st.body.value;
      && |args| >= 1
      && ParseBodyStep(st, how, load) ==
           st.(complete := true,
               args := Some(args[..|args| - 1] + [BodyArg(how, b[..n], load)]),
               body := Some(b[..n + 2]),
               remainder := if |b| > n + 2 then Some(b[n + 2..]) else st.remainder)
  {
    var b := st.body.value;
    var st1 := SplitSurplus(st, n);
    if |b| > n + 2 {
      assert b[n + 2..|b|] == b[n + 2..];
      assert st1 == st.(remainder := Some(b[n + 2..]), body := Some(b[..n + 2]));
    } else {
      assert b[..n + 2] == b;
      assert st1 == st;
    }
    assert b[..n + 2][..n] == b[..n];
    assert ParseBodyStep(st, how, load) == TakeBody(st1, n, how, load);
  }

  /**
   * parseBody for a declared length of -2 or -1: nothing happens until
   * n + 2 bytes (none, or one) follow the header; then the frame completes,
   * the body delivered is empty, because slice(0, n) counts from the end of
   * n + 2 bytes, and whatever follows those n + 2 bytes becomes the remainder.
   */
  lemma ParseBodyNegativeLength<V>(st: HandlerState<V>, how: BodyKind, load: Bytes -> V, n: int)
    requires st.args.Some? && st.body.Some?
    requires DeclaredLength(st.args.value) == Some(n)
    requires n == -2 || n == -1
    ensures |st.body.value| < n + 2 ==> ParseBodyStep(st, how, load) == st
    ensures var args, b := st.args.value, st.body.value;
      |b| >= n + 2 ==>
        && |args| >= 1
        && ParseBodyStep(st, how, load) ==
             st.(complete := true,
                 args := Some(args[..|args| - 1] + [BodyArg(how, [], load)]),
                 body := Some(b[..n + 2]),
                 remainder := if |b| > n + 2 then Some(b[n + 2..]) else st.remainder)
  {
    var b := st.body.value;
    var st1 := SplitSurplus(st, n);
    if |b| > n + 2 {
      assert b[n + 2..|b|] == b[n + 2..];
      assert st1 == st.(remainder := Some(b[n + 2..]), body := Some(b[..n + 2]));
    } else if |b| == n + 2 {
      assert b[..n + 2] == b;
      assert st1 == st;
    }
    if |b| >= n + 2 {
      assert Slice(b[..n + 2], 0, n) == [];
      assert ParseBodyStep(st, how, load) == TakeBody(st1, n, how, load);
    }
  }

  /**
   * Fewer than n + 2 bytes after the header of a body-bearing status: the
   * handler stays incomplete, the length word stays in args, and process
   * returns the buffer unchanged.
   */
  lemma ShortBodyWaits<V>(expected: string, st: HandlerState<V>, buf: Bytes, load: Bytes -> V, idx: nat, n: int)
    requires IndexOfCrlf(buf) == Some(idx)
    requires BodyKindOf(HeaderWords(buf, idx)[0]).Some?
    requires LengthWord(Residual(expected, HeaderWords(buf, idx))) == Some(n)
    requires |buf| - (idx + 2) < n + 2
    ensures var r := ProcessStep(expected, st, buf, load);
      && !r.state.complete == !st.complete
      && r.state.args == Some(Words(Residual(expected, HeaderWords(buf, idx))))
      && r.out == (if st.complete then [] else buf)
  {
    var st2 := ReadHeader(expected, st, buf, idx);
    DeclaredLengthOfWords<V>(Residual(expected, HeaderWords(buf, idx)));
    ParseBodyWaits(st2, BodyKindOf(HeaderWords(buf, idx)[0]).value, load, n);
  }

  /**
   * At least n + 2 bytes after the header of a body-bearing status: the
   * frame completes (succeeding when the status is the expected token)
   * with the n bytes after the header as its body, the
   * bytes after the body's terminator become the remainder (exactly when
   * there are any), and process returns the empty buffer. The body is cut
   * by its length alone, so a terminator inside it does not shorten it.
   */
  lemma FullBodyCompletes<V>(expected: string, st: HandlerState<V>, buf: Bytes, load: Bytes -> V, idx: nat, n: nat)
    requires IndexOfCrlf(buf) == Some(idx)
    requires BodyKindOf(HeaderWords(buf, idx)[0]).Some?
    requires LengthWord(Residual(expected, HeaderWords(buf, idx))) == Some(n)
    requires |buf| >= idx + 2 + n + 2
    ensures var r := ProcessStep(expected, st, buf, load);
      var words := HeaderWords(buf, idx);
      var residual := Residual(expected, words);
      var content := buf[idx + 2..idx + 2 + n];
      var rest := buf[idx + 2 + n + 2..];
      && |residual| >= 1
      && r.state.complete
      && r.state.success == (st.success || words[0] == expected)
      && r.state.args == Some(Words(residual[..|residual| - 1]) + [BodyArg(BodyKindOf(words[0]).value, content, load)])
      && r.state.remainder == (if rest == [] then st.remainder else Some(rest))
      && r.out == []
  {
    var words := HeaderWords(buf, idx);
    var residual := Residual(expected, words);
    var st2 := ReadHeader(expected, st, buf, idx);
    var how := BodyKindOf(words[0]).value;
    DeclaredLengthOfWords<V>(residual);
    ParseBodyTakes(st2, how, load, n);
    var after := buf[idx + 2..];
    assert after[..n] == buf[idx + 2..idx + 2 + n];
    assert after[n + 2..] == buf[idx + 2 + n + 2..];
    WordsAppend<V>(residual[..|residual| - 1], [residual[|residual| - 1]]);
    assert residual[..|residual| - 1] + [residual[|residual| - 1]] == residual;
  }

  /** Words maps each word on its own, so it distributes over concatenation. */
  lemma {:induction false} WordsAppend<V>(a: seq<string>, b: seq<string>)
    ensures Words<V>(a + b) == Words<V>(a) + Words<V>(b)
  {
    if a != [] {
      WordsAppend<V>(a[1..], b);
      assert (a + b)[1..] == a[1..] + b;
      assert Words<V>(a + b) == [Word(a[0])] + Words<V>(a[1..] + b);
    } else {
      assert a + b == b;
    }
  }

  /**
   * Nothing of a completed body-bearing frame is lost or read twice: the
   * header line, CRLF, the handler's body (the n body bytes and the two
   * after them) and its remainder put together give the input back.
   */
  lemma FrameReassembles<V>(expected: string, st: HandlerState<V>, buf: Bytes, load: Bytes -> V, idx: nat, n: nat)
    requires IndexOfCrlf(buf) == Some(idx)
    requires BodyKindOf(HeaderWords(buf, idx)[0]).Some?
    requires LengthWord(Residual(expected, HeaderWords(buf, idx))) == Some(n)
    requires |buf| >= idx + 2 + n + 2
    requires st.remainder.None?
    ensures var r := ProcessStep(expected, st, buf, load);
      && r.state.header == Some(DecodeHeader(buf[..idx]))
      && r.state.body.Some?
      && |r.state.body.value| == n + 2
      && buf == buf[..idx] + CRLF + r.state.body.value + (if r.state.remainder.Some? then r.state.remainder.value else [])
  {
    FullBodyFields(expected, st, buf, load, idx, n);
    FullBodyCompletes(expected, st, buf, load, idx, n);
    FramePieces(buf, idx, n);
  }

  /** The header and body fields a completed body-bearing frame leaves. */
  lemma FullBodyFields<V>(expected: string, st: HandlerState<V>, buf: Bytes, load: Bytes -> V, idx: nat, n: nat)
    requires IndexOfCrlf(buf) == Some(idx)
    requires BodyKindOf(HeaderWords(buf, idx)[0]).Some?
    requires LengthWord(Residual(expected, HeaderWords(buf, idx))) == Some(n)
    requires |buf| >= idx + 2 + n + 2
    ensures var r := ProcessStep(expected, st, buf, load);
      && r.state.header == Some(DecodeHeader(buf[..idx]))
      && r.state.body == Some(buf[idx + 2..idx + 2 + n + 2])
  {
    var st2 := ReadHeader(expected, st, buf, idx);
    var how := BodyKindOf(HeaderWords(buf, idx)[0]).value;
    DeclaredLengthOfWords<V>(Residual(expected, HeaderWords(buf, idx)));
    ParseBodyTakes(st2, how, load, n);
    assert buf[idx + 2..][..n + 2] == buf[idx + 2..idx + 2 + n + 2];
  }

  /** A buffer cut at a CRLF and n + 2 bytes after it. */
  lemma FramePieces(buf: Bytes, idx: nat, n: nat)
    requires CrlfAt(buf, idx) && idx + 2 + n + 2 <= |buf|
    ensures var rest := buf[idx + 2 + n + 2..];
      buf == buf[..idx] + CRLF + buf[idx + 2..idx + 2 + n + 2] + (if rest == [] then [] else rest)
  {
    assert buf[idx..idx + 2] == CRLF;
    assert buf == buf[..idx] + buf[idx..idx + 2] + buf[idx + 2..idx + 2 + n + 2] + buf[idx + 2 + n + 2..];
  }

  /** A declared length that is not a number (NaN) never completes the frame. */
  lemma UnparsableLengthNeverCompletes<V>(expected: string, st: HandlerState<V>, buf: Bytes, load: Bytes -> V, idx: nat)
    requires IndexOfCrlf(buf) == Some(idx)
    requires BodyKindOf(HeaderWords(buf, idx)[0]).Some?
    requires LengthWord(Residual(expected, HeaderWords(buf, idx))).None?
    requires Idle(st)
    ensures var r := ProcessStep(expected, st, buf, load);
      !r.state.complete && r.out == buf
  {
    DeclaredLengthOfWords<V>(Residual(expected, HeaderWords(buf, idx)));
  }

  /** Whenever a body-bearing frame completes on a fresh handler, process returns the empty buffer. */
  lemma CompletedBodyReturnsEmpty<V>(expected: string, st: HandlerState<V>, buf: Bytes, load: Bytes -> V, idx: nat)
    requires IndexOfCrlf(buf) == Some(idx)
    requires BodyKindOf(HeaderWords(buf, idx)[0]).Some?
    ensures var r := ProcessStep(expected, st, buf, load);
      r.state.complete ==> r.out == []
  {
  }

  /**
   * Every body-bearing status, beanstalkd's or an inherited name, starts
   * with a letter or an underscore, so a lone status is no length.
   */
  lemma BodyStatusHasNoDigits(status: string)
    requires BodyKindOf(status).Some?
    ensures ParseInt(status).None?
  {
    assert status[0] in "RFOtvchip_";
    ParseIntWordStart(status);
  }

  /**
   * How the outcome is decided: a fresh handler succeeds only on a frame
   * whose status is the expected token, or, for quit, on no frame at all;
   * a completed frame that failed keeps its status word as the first arg.
   */
  lemma StatusDecidesOutcome<V>(expected: string, st: HandlerState<V>, buf: Bytes, load: Bytes -> V)
    requires Idle(st)
    ensures var r := ProcessStep(expected, st, buf, load);
      && (r.state.success <==>
            match IndexOfCrlf(buf)
            case Some(idx) => HeaderWords(buf, idx)[0] == expected
            case None => expected == NO_RESPONSE)
      && (r.state.complete && !r.state.success ==>
            IndexOfCrlf(buf).Some?
            && r.state.args.Some? && |r.state.args.value| >= 1
            && r.state.args.value[0] == Word(HeaderWords(buf, IndexOfCrlf(buf).value)[0]))
  {
    var r := ProcessStep(expected, st, buf, load);
    match IndexOfCrlf(buf)
    case None =>
    case Some(idx) =>
      var words := HeaderWords(buf, idx);
      HeaderSplit(expected, st, buf, load, idx);
      if BodyKindOf(words[0]).Some? && r.state.complete && !r.state.success {
        var st2 := ReadHeader(expected, st, buf, idx);
        ParseBodyKeepsHeader(st2, BodyKindOf(words[0]).value, load);
        assert Residual(expected, words) == words;
        DeclaredLengthOfWords<V>(words);
        if |words| == 1 {
          BodyStatusHasNoDigits(words[0]);
          assert false;
        }
      }
  }

  // The round trip: a frame as the server writes it, and what process reads out of it.

  /** A header word as beanstalkd writes it: ASCII, with neither a space nor a CR. */
  predicate IsToken(w: string) {
    IsAscii(w) && ' ' !in w && '\r' !in w
  }

  /** The header line of a frame: status, words and, for a body, its length in bytes. */
  function FrameHeader(status: string, words: seq<string>, body: Option<Bytes>): seq<string> {
    [status] + words + (if body.Some? then [Decimal(|body.value|)] else [])
  }

  /**
   * A frame, in either direction: the header line, CRLF and, when there is a
   * body, the body and CRLF. Responses and payload-carrying requests share it.
   */
  function EncodeFrame(status: string, words: seq<string>, body: Option<Bytes>): Bytes {
    Utf8(Join(FrameHeader(status, words, body), ' ')) + CRLF + (if body.Some? then body.value + CRLF else [])
  }

  /** A header line made of tokens. */
  predicate Tokens(status: string, words: seq<string>) {
    IsToken(status) && forall k :: 0 <= k < |words| ==> IsToken(words[k])
  }

  /** A frame beanstalkd can send: tokens for words, and a body exactly when the status carries one. */
  predicate WellFormed(status: string, words: seq<string>, body: Option<Bytes>) {
    Tokens(status, words) && (body.Some? <==> BodyKindOf(status).Some?)
  }

  /** The args a handler expecting `expected` ends with on a well-formed frame. */
  function FrameArgs<V>(expected: string, status: string, words: seq<string>, body: Option<Bytes>, load: Bytes -> V): seq<Arg<V>>
    requires body.Some? ==> BodyKindOf(status).Some?
  {
    Words(if status == expected then words else [status] + words)
    + (if body.Some? then [BodyArg(BodyKindOf(status).value, body.value, load)] else [])
  }

  lemma {:induction false} DecimalIsToken(n: nat)
    ensures IsToken(Decimal(n))
  {
    var s := Decimal(n);
    assert forall k :: 0 <= k < |s| ==> IsDigit(s[k]);
    assert ' ' !in s && '\r' !in s by {
      forall k | 0 <= k < |s| ensures s[k] != ' ' && s[k] != '\r' {
        assert IsDigit(s[k]);
      }
    }
  }

  lemma {:induction false} JoinTokens(ws: seq<string>)
    requires |ws| >= 1
    requires forall k :: 0 <= k < |ws| ==> IsToken(ws[k])
    ensures IsAscii(Join(ws, ' ')) && '\r' !in Join(ws, ' ')
    decreases |ws|
  {
    if |ws| > 1 {
      JoinTokens(ws[1..]);
      assert IsToken(ws[0]);
      var j := Join(ws, ' ');
      assert j == ws[0] + [' '] + Join(ws[1..], ' ');
      forall i | 0 <= i < |j| ensures j[i] as int < 0x80 && j[i] != '\r' {
        if i < |ws[0]| {
          assert j[i] == ws[0][i];
        } else if i > |ws[0]| {
          assert j[i] == Join(ws[1..], ' ')[i - |ws[0]| - 1];
        }
      }
    } else {
      assert IsToken(ws[0]);
    }
  }

  /** Where the header of an encoded frame ends, and what it reads as. */
  lemma EncodedHeader(status: string, words: seq<string>, body: Option<Bytes>)
    requires Tokens(status, words)
    ensures var h := FrameHeader(status, words, body);
      var line := Utf8(Join(h, ' '));
      var buf := EncodeFrame(status, words, body);
      && IndexOfCrlf(buf) == Some(|line|)
      && buf[|line| + 2..] == (if body.Some? then body.value + CRLF else [])
      && DecodeHeader(buf[..|line|]) == Join(h, ' ')
      && Split(Join(h, ' '), ' ') == h
  {
    var h := FrameHeader(status, words, body);
    forall k | 0 <= k < |h| ensures IsToken(h[k]) {
      if k > 0 && k <= |words| {
        assert h[k] == words[k - 1];
      } else if k > |words| {
        DecimalIsToken(|body.value|);
      }
    }
    JoinTokens(h);
    var text := Join(h, ' ');
    var line := Utf8(text);
    Utf8NoCr(text);
    IndexOfCrlfAfter(line, if body.Some? then body.value + CRLF else []);
    var buf := EncodeFrame(status, words, body);
    assert buf[..|line|] == line;
    DecodeUtf8Ascii(text);
    assert forall k :: 0 <= k < |h| ==> ' ' !in h[k];
    SplitJoin(h, ' ');
  }

  /** An encoded frame followed by any bytes: where its header ends, its words, and what follows the header. */
  lemma EncodedFrameHeader(status: string, words: seq<string>, body: Option<Bytes>, rest: Bytes)
    requires Tokens(status, words)
    ensures var buf := EncodeFrame(status, words, body) + rest;
      var idx := |Utf8(Join(FrameHeader(status, words, body), ' '))|;
      && IndexOfCrlf(buf) == Some(idx)
      && HeaderWords(buf, idx) == FrameHeader(status, words, body)
      && buf[idx + 2..] == (if body.Some? then body.value + CRLF else []) + rest
  {
    var frame := EncodeFrame(status, words, body);
    var buf := frame + rest;
    var line := Utf8(Join(FrameHeader(status, words, body), ' '));
    EncodedHeader(status, words, body);
    IndexOfCrlfAppend(frame, rest);
    AppendCut(frame, rest, |line|);
    assert HeaderWords(buf, |line|) == Split(DecodeHeader(frame[..|line|]), ' ');
  }

  lemma AppendCut(a: Bytes, b: Bytes, k: nat)
    requires k + 2 <= |a|
    ensures (a + b)[..k] == a[..k] && (a + b)[k + 2..] == a[k + 2..] + b
  {
  }

  /** A frame without a body, as read by a fresh handler. */
  lemma ParsesFrameWithoutBody<V>(expected: string, st: HandlerState<V>, status: string, words: seq<string>,
                                  buf: Bytes, idx: nat, rest: Bytes, load: Bytes -> V)
    requires Idle(st) && st.remainder.None?
    requires BodyKindOf(status).None?
    requires IndexOfCrlf(buf) == Some(idx)
    requires HeaderWords(buf, idx) == FrameHeader(status, words, None)
    requires buf[idx + 2..] == rest
    ensures var r := ProcessStep(expected, st, buf, load);
      && r.state.complete
      && r.state.success == (status == expected)
      && r.state.args == Some(FrameArgs(expected, status, words, None, load))
      && NextBuffer(r) == rest
  {
    var h := FrameHeader(status, words, None);
    assert h[0] == status;
    var residual := Residual(expected, h);
    assert residual == if status == expected then words else [status] + words;
    assert FrameArgs(expected, status, words, None, load) == Words(residual) + [] == Words(residual);
    ReadsHeaderOnly(expected, st, buf, idx, status, rest, FrameArgs(expected, status, words, None, load), load);
  }

  /** A frame without a body, described by its first word and residual words, as read by a fresh handler. */
  lemma ReadsHeaderOnly<V>(expected: string, st: HandlerState<V>, buf: Bytes, idx: nat, status: string,
                           rest: Bytes, args: seq<Arg<V>>, load: Bytes -> V)
    requires Idle(st) && st.remainder.None?
    requires IndexOfCrlf(buf) == Some(idx)
    requires BodyKindOf(status).None? && HeaderWords(buf, idx)[0] == status
    requires Words(Residual(expected, HeaderWords(buf, idx))) == args
    requires buf[idx + 2..] == rest
    ensures var r := ProcessStep(expected, st, buf, load);
      && r.state.complete
      && r.state.success == (status == expected)
      && r.state.args == Some(args)
      && NextBuffer(r) == rest
  {
    FrameWithoutBody(expected, st, buf, load, idx);
    HeaderSplit(expected, st, buf, load, idx);
  }

  /** The pieces of a buffer holding a header with a declared length, the body, CRLF and more bytes. */
  lemma FrameWithBodyPieces<V>(expected: string, status: string, words: seq<string>,
                               body: Bytes, buf: Bytes, idx: nat, rest: Bytes, load: Bytes -> V)
    requires BodyKindOf(status).Some?
    requires idx + 2 <= |buf|
    requires HeaderWords(buf, idx) == FrameHeader(status, words, Some(body))
    requires buf[idx + 2..] == body + CRLF + rest
    ensures var residual := Residual(expected, HeaderWords(buf, idx));
      var n := |body|;
      && HeaderWords(buf, idx)[0] == status
      && |residual| >= 1
      && LengthWord(residual) == Some(n)
      && |buf| >= idx + 2 + n + 2
      && buf[idx + 2..idx + 2 + n] == body
      && buf[idx + 2 + n + 2..] == rest
      && Words<V>(residual[..|residual| - 1]) + [BodyArg(BodyKindOf(status).value, body, load)]
         == FrameArgs(expected, status, words, Some(body), load)
  {
    var h := FrameHeader(status, words, Some(body));
    var residual := Residual(expected, h);
    var n := |body|;
    ParseIntDecimal(n);
    assert residual[|residual| - 1] == Decimal(n);
    var after := buf[idx + 2..];
    assert buf[idx + 2..idx + 2 + n] == after[..n] == body;
    assert buf[idx + 2 + n + 2..] == after[n + 2..] == rest;
    assert residual[..|residual| - 1] == if status == expected then words else [status] + words;
  }

  /** A frame with a body, as read by a fresh handler. */
  lemma ParsesFrameWithBody<V>(expected: string, st: HandlerState<V>, status: string, words: seq<string>,
                               body: Bytes, buf: Bytes, idx: nat, rest: Bytes, load: Bytes -> V)
    requires Idle(st) && st.remainder.None?
    requires BodyKindOf(status).Some?
    requires IndexOfCrlf(buf) == Some(idx)
    requires HeaderWords(buf, idx) == FrameHeader(status, words, Some(body))
    requires buf[idx + 2..] == body + CRLF + rest
    ensures var r := ProcessStep(expected, st, buf, load);
      && r.state.complete
      && r.state.success == (status == expected)
      && r.state.args == Some(FrameArgs(expected, status, words, Some(body), load))
      && NextBuffer(r) == rest
  {
    FrameWithBodyPieces(expected, status, words, body, buf, idx, rest, load);
    ReadsBody(expected, st, buf, idx, status, body, rest, FrameArgs(expected, status, words, Some(body), load), load);
  }

  /** A body-bearing frame, described by the pieces FrameWithBodyPieces finds, as read by a fresh handler. */
  lemma ReadsBody<V>(expected: string, st: HandlerState<V>, buf: Bytes, idx: nat, status: string,
                     body: Bytes, rest: Bytes, args: seq<Arg<V>>, load: Bytes -> V)
    requires Idle(st) && st.remainder.None?
    requires IndexOfCrlf(buf) == Some(idx)
    requires BodyKindOf(status).Some? && HeaderWords(buf, idx)[0] == status
    requires var residual := Residual(expected, HeaderWords(buf, idx));
      && |residual| >= 1
      && LengthWord(residual) == Some(|body|)
      && Words<V>(residual[..|residual| - 1]) + [BodyArg(BodyKindOf(status).value, body, load)] == args
    requires |buf| >= idx + 2 + |body| + 2
    requires buf[idx + 2..idx + 2 + |body|] == body && buf[idx + 2 + |body| + 2..] == rest
    ensures var r := ProcessStep(expected, st, buf, load);
      && r.state.complete
      && r.state.success == (status == expected)
      && r.state.args == Some(args)
      && NextBuffer(r) == rest
  {
    FullBodyCompletes(expected, st, buf, load, idx, |body|);
  }

  /**
   * The round trip: a fresh handler reading a well-formed frame followed by
   * any bytes completes, succeeds exactly when the status is the expected
   * token, ends with the frame's words and body as its args, and leaves the
   * client exactly the bytes that followed the frame.
   */
  lemma ParsesEncodedFrame<V>(expected: string, st: HandlerState<V>, status: string, words: seq<string>,
                              body: Option<Bytes>, rest: Bytes, load: Bytes -> V)
    requires WellFormed(status, words, body)
    requires Idle(st) && st.remainder.None?
    ensures var r := ProcessStep(expected, st, EncodeFrame(status, words, body) + rest, load);
      && r.state.complete
      && r.state.success == (status == expected)
      && r.state.args == Some(FrameArgs(expected, status, words, body, load))
      && NextBuffer(r) == rest
  {
    var buf := EncodeFrame(status, words, body) + rest;
    var idx := |Utf8(Join(FrameHeader(status, words, body), ' '))|;
    EncodedFrameHeader(status, words, body, rest);
    if body.None? {
      ParsesFrameWithoutBody(expected, st, status, words, buf, idx, rest, load);
    } else {
      ParsesFrameWithBody(expected, st, status, words, body.value, buf, idx, rest, load);
    }
  }
}
