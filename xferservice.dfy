/**
 * The data-transfer service over TCPMessageHandler
 * (DataXferTCPMessageHandlerService): on each accepted connection it answers
 * requests until one fails. A request is a header frame equal to the
 * service's header string ignoring case, then a JSON frame naming
 * "transferSize"; the answer is the okay string, then that many zero bytes
 * in frames of at most 1000 bytes.
 */
module XferService {
  import opened Wrappers
  import opened Bytes
  import opened Json
  import opened Framing

  /** The largest data frame the service sends. */
  const ChunkSize: nat := 1000

  function Sum(c: seq<int>): int
  {
    if c == [] then 0 else c[0] + Sum(c[1..])
  }

  /** The sizes of the data frames sent once `sent` of `total` bytes have gone. */
  function ChunkSizes(total: int, sent: int): (c: seq<int>)
    // every frame carries between one byte and a full chunk
    ensures forall i :: 0 <= i < |c| ==> 1 <= c[i] <= ChunkSize
    decreases total - sent
  {
    if sent >= total then []
    else
      var n := Min(ChunkSize, total - sent);
      [n] + ChunkSizes(total, sent + n)
  }

  /**
   * Every data frame but the last is full, and together they carry exactly
   * the bytes still to send.
   */
  lemma {:induction false} ChunkSizesCover(total: int, sent: int)
    ensures var c := ChunkSizes(total, sent);
            && (forall i :: 0 <= i < |c| - 1 ==> c[i] == ChunkSize)
            && Sum(c) == (if sent < total then total - sent else 0)
            && (c == [] <==> sent >= total)
    decreases total - sent
  {
    if sent < total {
      var n := Min(ChunkSize, total - sent);
      ChunkSizesCover(total, sent + n);
      var c := ChunkSizes(total, sent);
      assert c[1..] == ChunkSizes(total, sent + n);
    }
  }

  predicate ChunkBounded(sizes: seq<int>)
  {
    forall i :: 0 <= i < |sizes| ==> 0 <= sizes[i] <= ChunkSize
  }

  /** The frames of zero bytes of the given sizes, one after the other. */
  function ZeroFrames(sizes: seq<int>): seq<byte>
    requires ChunkBounded(sizes)
  {
    if sizes == [] then [] else Frame(Zeros(sizes[0])) + ZeroFrames(sizes[1..])
  }

  /** What one request makes the service write, and the bytes left unread after it. */
  datatype Answer = Answer(written: seq<byte>, rest: seq<byte>)

  /**
   * One request on a connection, read by a new handler and so with the
   * default maximum message length. None when the request ends the
   * connection: a negative socket timeout, a bad header, an unparsable
   * request or one without an int "transferSize".
   */
  function Request(s: seq<byte>, socketTimeout: int32, parse: seq<byte> -> Option<Object>,
                   headerStr: seq<byte>, okayStr: seq<byte>): (r: Option<Answer>)
    requires |headerStr| > 0 && |okayStr| <= Int32Max
    // a request that is answered consumes input, so the loop ends
    ensures r.Some? ==> |r.value.rest| < |s|
  {
    ReadFrameAtEndOfStream(DefaultMaxMsgLen);
    if socketTimeout < 0 then None
    else
      var header := ReadFrame(s, DefaultMaxMsgLen);
      if header.result.Err? || !EqualsIgnoreCaseBytes(header.result.value, headerStr) then None
      else
        var request := ReadJson(header.rest, DefaultMaxMsgLen, parse);
        if request.result.Err? then None
        else
          var size := GetInt(request.result.value, "transferSize");
          if size.Err? then None
          else
            Some(Answer(Frame(okayStr) + ZeroFrames(ChunkSizes(size.value as int, 0)), request.rest))
  }

  /** What the service writes on a connection whose client sent s: requests are answered until one fails. */
  function Serve(s: seq<byte>, socketTimeout: int32, parse: seq<byte> -> Option<Object>,
                 headerStr: seq<byte>, okayStr: seq<byte>): seq<byte>
    requires |headerStr| > 0 && |okayStr| <= Int32Max
    decreases |s|
  {
    match Request(s, socketTimeout, parse, headerStr, okayStr)
    case None => []
    case Some(a) => a.written + Serve(a.rest, socketTimeout, parse, headerStr, okayStr)
  }

  /** Answering one more request extends what the connection has written so far. */
  lemma ServeStep(written: seq<byte>, rest: seq<byte>, a: Answer,
                  socketTimeout: int32, parse: seq<byte> -> Option<Object>,
                  headerStr: seq<byte>, okayStr: seq<byte>)
    requires |headerStr| > 0 && |okayStr| <= Int32Max
    requires Request(rest, socketTimeout, parse, headerStr, okayStr) == Some(a)
    ensures written + Serve(rest, socketTimeout, parse, headerStr, okayStr) ==
              (written + a.written) + Serve(a.rest, socketTimeout, parse, headerStr, okayStr)
  {
  }

  /**
   * A well-formed request is answered with the okay string and then the
   * requested number of zero bytes, after which the next request is served.
   */
  lemma ServeRequest(header: seq<byte>, request: seq<byte>, rest: seq<byte>, size: int32,
                     socketTimeout: int32, parse: seq<byte> -> Option<Object>,
                     headerStr: seq<byte>, okayStr: seq<byte>)
    requires |headerStr| > 0 && |okayStr| <= Int32Max && socketTimeout >= 0
    requires EqualsIgnoreCaseBytes(header, headerStr) && |header| <= DefaultMaxMsgLen as int
    requires |request| <= DefaultMaxMsgLen as int
    requires parse(request).Some? && GetInt(parse(request).value, "transferSize") == Ok(size)
    ensures Serve(Frame(header) + Frame(request) + rest, socketTimeout, parse, headerStr, okayStr) ==
              Frame(okayStr) + ZeroFrames(ChunkSizes(size as int, 0)) + Serve(rest, socketTimeout, parse, headerStr, okayStr)
  {
    assert Frame(header) + Frame(request) + rest == Frame(header) + (Frame(request) + rest);
    ReadFrameOfFrame(header, Frame(request) + rest, DefaultMaxMsgLen);
    ReadFrameOfFrame(request, rest, DefaultMaxMsgLen);
  }

  /** A first frame that is not the header string ends the connection before anything is sent. */
  lemma BadHeaderSendsNothing(header: seq<byte>, rest: seq<byte>, socketTimeout: int32,
                              parse: seq<byte> -> Option<Object>, headerStr: seq<byte>, okayStr: seq<byte>)
    requires |headerStr| > 0 && |okayStr| <= Int32Max
    requires !EqualsIgnoreCaseBytes(header, headerStr) && |header| <= DefaultMaxMsgLen as int
    ensures Serve(Frame(header) + rest, socketTimeout, parse, headerStr, okayStr) == []
  {
    ReadFrameOfFrame(header, rest, DefaultMaxMsgLen);
  }

  /**
   * A header that matches followed by a request that does not parse as a
   * JSON object, or that has no int "transferSize", ends the connection
   * before anything is sent.
   */
  lemma BadRequestSendsNothing(header: seq<byte>, request: seq<byte>, rest: seq<byte>, socketTimeout: int32,
                               parse: seq<byte> -> Option<Object>, headerStr: seq<byte>, okayStr: seq<byte>)
    requires |headerStr| > 0 && |okayStr| <= Int32Max
    requires |header| <= DefaultMaxMsgLen as int && |request| <= DefaultMaxMsgLen as int
    requires parse(request).None? || GetInt(parse(request).value, "transferSize").Err?
    ensures Serve(Frame(header) + Frame(request) + rest, socketTimeout, parse, headerStr, okayStr) == []
  {
    assert Frame(header) + Frame(request) + rest == Frame(header) + (Frame(request) + rest);
    ReadFrameOfFrame(header, Frame(request) + rest, DefaultMaxMsgLen);
    ReadFrameOfFrame(request, rest, DefaultMaxMsgLen);
  }

  /** At end of stream the header reads as empty, which is not the header string: the connection ends. */
  lemma ServeEndOfStream(socketTimeout: int32, parse: seq<byte> -> Option<Object>,
                         headerStr: seq<byte>, okayStr: seq<byte>)
    requires |headerStr| > 0 && |okayStr| <= Int32Max
    ensures Serve([], socketTimeout, parse, headerStr, okayStr) == []
  {
    ReadFrameAtEndOfStream(DefaultMaxMsgLen);
  }

  /** The zeros still to send are a frame of the next chunk's size, then the rest. */
  lemma ZeroFramesFirst(total: int, sent: int)
    requires sent < total
    ensures ZeroFrames(ChunkSizes(total, sent)) ==
              Frame(Zeros(Min(ChunkSize, total - sent))) + ZeroFrames(ChunkSizes(total, sent + Min(ChunkSize, total - sent)))
  {
    var n := Min(ChunkSize, total - sent);
    var c := ChunkSizes(total, sent);
    assert c == [n] + ChunkSizes(total, sent + n);
    assert c[1..] == ChunkSizes(total, sent + n);
  }

  /**
   * Sending the next chunk moves one frame from the zeros still to send to
   * the output written so far.
   */
  lemma ZeroFramesStep(written: seq<byte>, total: int, sent: int)
    requires sent < total
    ensures written + ZeroFrames(ChunkSizes(total, sent)) ==
              (written + Frame(Zeros(Min(ChunkSize, total - sent)))) + ZeroFrames(ChunkSizes(total, sent + Min(ChunkSize, total - sent)))
  {
    ZeroFramesFirst(total, sent);
  }

  /** The chunking loop: frames of zeros until transferSize bytes have been sent. */
  method SendZeros(h: MessageHandler, transferSize: int)
    modifies h`output
    ensures h.output == old(h.output) + ZeroFrames(ChunkSizes(transferSize, 0))
  {
    var amtXferred := 0;
    while amtXferred < transferSize
      invariant 0 <= amtXferred
      invariant old(h.output) + ZeroFrames(ChunkSizes(transferSize, 0)) ==
                  h.output + ZeroFrames(ChunkSizes(transferSize, amtXferred))
      decreases transferSize - amtXferred
    {
      var msgSize := ChunkSize;
      if transferSize - amtXferred < ChunkSize {
        msgSize := transferSize - amtXferred;
      }
      ZeroFramesStep(h.output, transferSize, amtXferred);
      h.SendMessage(Zeros(msgSize));
      amtXferred := amtXferred + msgSize;
    }
  }

  /** The answer to a request: the okay string, then the requested zeros. */
  method Respond(h: MessageHandler, okayStr: seq<byte>, transferSize: int)
    requires |okayStr| <= Int32Max
    modifies h`output
    ensures h.output == old(h.output) + (Frame(okayStr) + ZeroFrames(ChunkSizes(transferSize, 0)))
  {
    h.SendMessage(okayStr);
    SendZeros(h, transferSize);
  }

  /** A request whose reads all succeed is answered. */
  lemma RequestAnswered(s: seq<byte>, socketTimeout: int32, parse: seq<byte> -> Option<Object>,
                        headerStr: seq<byte>, okayStr: seq<byte>,
                        header: seq<byte>, request: Object, size: int32, rest: seq<byte>)
    requires |headerStr| > 0 && |okayStr| <= Int32Max && socketTimeout >= 0
    requires var h := ReadFrame(s, DefaultMaxMsgLen);
             && h.result == Ok(header)
             && ReadJson(h.rest, DefaultMaxMsgLen, parse) == Read(Ok(request), rest)
    requires EqualsIgnoreCaseBytes(header, headerStr)
    requires GetInt(request, "transferSize") == Ok(size)
    ensures Request(s, socketTimeout, parse, headerStr, okayStr) ==
              Some(Answer(Frame(okayStr) + ZeroFrames(ChunkSizes(size as int, 0)), rest))
  {
  }

  /**
   * One pass of the per-connection loop, on a new handler over the unread
   * bytes: `served` when a whole request was answered, otherwise the
   * handler is closed and nothing was written.
   */
  method ServeOne(rest: seq<byte>, socketTimeout: int32, parse: seq<byte> -> Option<Object>,
                  headerStr: seq<byte>, okayStr: seq<byte>)
    returns (h: MessageHandler, served: bool)
    requires |headerStr| > 0 && |okayStr| <= Int32Max
    ensures served <==> Request(rest, socketTimeout, parse, headerStr, okayStr).Some?
    ensures served ==> Request(rest, socketTimeout, parse, headerStr, okayStr).value == Answer(h.output, h.input)
    ensures !served ==> h.closed && h.output == []
  {
    h := new MessageHandler(rest);
    var prev := h.SetTimeout(socketTimeout);
    if prev.Err? {
      h.Close();
      return h, false;
    }
    var header := h.ReadMessageAsBytes();
    if header.Err? || !EqualsIgnoreCaseBytes(header.value, headerStr) {
      h.Close();
      return h, false;
    }
    var request := h.ReadMessageAsJson(parse);
    if request.Err? {
      h.Close();
      return h, false;
    }
    var size := GetInt(request.value, "transferSize");
    if size.Err? {
      h.Close();
      return h, false;
    }
    RequestAnswered(rest, socketTimeout, parse, headerStr, okayStr, header.value, request.value, size.value, h.input);
    Respond(h, okayStr, size.value as int);
    assert h.output == Frame(okayStr) + ZeroFrames(ChunkSizes(size.value as int, 0));
    served := true;
  }

  /**
   * The per-connection loop: a new handler for each request until one
   * fails, and that last handler closed. Returns every byte written by
   * every handler, the failing one included.
   */
  method ServeConnection(input: seq<byte>, socketTimeout: int32, parse: seq<byte> -> Option<Object>,
                         headerStr: seq<byte>, okayStr: seq<byte>)
    returns (output: seq<byte>, last: MessageHandler)
    requires |headerStr| > 0 && |okayStr| <= Int32Max
    ensures output == Serve(input, socketTimeout, parse, headerStr, okayStr)
    ensures last.closed
  {
    output := [];
    var rest := input;
    while true
      invariant Serve(input, socketTimeout, parse, headerStr, okayStr) ==
                  output + Serve(rest, socketTimeout, parse, headerStr, okayStr)
      decreases |rest|
    {
      var h, served := ServeOne(rest, socketTimeout, parse, headerStr, okayStr);
      if !served {
        output := output + h.output;
        assert output + [] == output;
        return output, h;
      }
      var answer := Answer(h.output, h.input);
      ServeStep(output, rest, answer, socketTimeout, parse, headerStr, okayStr);
      output := output + answer.written;
      rest := answer.rest;
    }
  }
}
