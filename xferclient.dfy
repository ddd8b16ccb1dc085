/**
 * The data-transfer client over TCPMessageHandler
 * (DataXferTCPMessageHandler.DataXfer): it sends the header string and a
 * JSON request naming the transfer size, expects the okay string back, then
 * reassembles the data frames into one array of the requested length.
 */
module XferClient {
  import opened Wrappers
  import opened Bytes
  import opened Json
  import opened Framing
  import opened XferService

  /** The JSON request: {"transferSize": xferLength}. */
  function SizeRequest(xferLength: int32): (o: Object)
    ensures GetInt(o, "transferSize") == Ok(xferLength)
  {
    map["transferSize" := JInt(xferLength as int)]
  }

  /** Puts a prefix in front of a successful result; an error passes through. */
  function Prefixed(p: seq<byte>, r: Result<seq<byte>>): Result<seq<byte>>
  {
    if r.Ok? then Ok(p + r.value) else r
  }

  /**
   * The receive loop: frames are read and appended until `need` more bytes
   * have arrived. A frame that would overrun the array fails; at end of
   * stream each read returns an empty frame and the loop never ends, which
   * is Stalled here.
   */
  function Reassemble(s: seq<byte>, maxMsgLen: int32, need: int): (r: Read<seq<byte>>)
    // a result is exactly as long as was still needed
    ensures r.result.Ok? ==> |r.result.value| == if need < 0 then 0 else need
    ensures |r.rest| <= |s|
    decreases |s|, 1
  {
    if need <= 0 then Read(Ok([]), s)
    else if s == [] then Read(Err(Stalled), s)
    else ReassembleFrom(s, maxMsgLen, need)
  }

  /** One pass of the receive loop on a stream that has not ended, then the rest of the loop. */
  function ReassembleFrom(s: seq<byte>, maxMsgLen: int32, need: int): (r: Read<seq<byte>>)
    requires need > 0 && s != []
    ensures r.result.Ok? ==> |r.result.value| == need
    ensures |r.rest| <= |s|
    decreases |s|, 0
  {
    var f := ReadFrame(s, maxMsgLen);
    if f.result.Err? then Read(Err(f.result.error), f.rest)
    else if |f.result.value| > need then Read(Err(IndexOutOfBounds), f.rest)
    else
      var more := Reassemble(f.rest, maxMsgLen, need - |f.result.value|);
      Read(Prefixed(f.result.value, more.result), more.rest)
  }

  /**
   * What DataXfer returns when the server sent s: the array is allocated
   * before the socket is configured, and the first frame must be exactly
   * the okay string.
   */
  function Transfer(s: seq<byte>, timeout: int32, xferLength: int32, okayStr: seq<byte>): (r: Result<seq<byte>>)
    // the array handed back always has the requested length
    ensures r.Ok? ==> |r.value| == xferLength as int
  {
    if xferLength < 0 then Err(NegativeArraySize)
    else if timeout < 0 then Err(IllegalArgument)
    else
      var okay := ReadFrame(s, DefaultMaxMsgLen);
      if okay.result.Err? then Err(okay.result.error)
      else if okay.result.value != okayStr then Err(BadHeader)
      else Reassemble(okay.rest, DefaultMaxMsgLen, xferLength as int).result
  }

  /**
   * A transfer succeeds only after a first frame that is exactly the okay
   * string, and is then the receive loop on what follows that frame.
   */
  lemma TransferChecksOkay(s: seq<byte>, timeout: int32, xferLength: int32, okayStr: seq<byte>)
    ensures Transfer(s, timeout, xferLength, okayStr).Ok? ==>
              && xferLength >= 0 && timeout >= 0
              && ReadFrame(s, DefaultMaxMsgLen).result == Ok(okayStr)
              && Transfer(s, timeout, xferLength, okayStr) ==
                   Reassemble(ReadFrame(s, DefaultMaxMsgLen).rest, DefaultMaxMsgLen, xferLength as int).result
  {
  }

  /** A first reply frame other than the okay string is refused. */
  lemma WrongOkayRefused(p: seq<byte>, rest: seq<byte>, timeout: int32, xferLength: int32, okayStr: seq<byte>)
    requires xferLength >= 0 && timeout >= 0
    requires |p| <= DefaultMaxMsgLen as int && p != okayStr
    ensures Transfer(Frame(p) + rest, timeout, xferLength, okayStr) == Err(BadHeader)
  {
    ReadFrameOfFrame(p, rest, DefaultMaxMsgLen);
  }

  /** What DataXfer writes: the header frame and the request frame, once the timeout is set. */
  function Requested(header: seq<byte>, timeout: int32, xferLength: int32, serialize: Object -> seq<byte>): seq<byte>
    requires |header| <= Int32Max && |serialize(SizeRequest(xferLength))| <= Int32Max
  {
    if xferLength < 0 || timeout < 0 then []
    else Frame(header) + Frame(serialize(SizeRequest(xferLength)))
  }

  /** One pass of the receive loop: a frame is read and copied in at the current offset. */
  method ReceiveFrame(h: MessageHandler, receivedBytes: array<byte>, amtXferred: nat)
    returns (r: Result<nat>)
    requires amtXferred <= receivedBytes.Length
    modifies h`input, receivedBytes
    ensures var f := ReadFrame(old(h.input), h.maxMsgLen);
            && h.input == f.rest
            && (f.result.Err? ==> r == Err(f.result.error))
            && (f.result.Ok? && amtXferred + |f.result.value| > receivedBytes.Length ==> r == Err(IndexOutOfBounds))
            && (f.result.Ok? && amtXferred + |f.result.value| <= receivedBytes.Length ==>
                  && r == Ok(amtXferred + |f.result.value|)
                  && receivedBytes[..r.value] == old(receivedBytes[..amtXferred]) + f.result.value)
  {
    var receiveBuf := h.ReadMessageAsBytes();
    if receiveBuf.Err? {
      return Err(receiveBuf.error);
    }
    if amtXferred + |receiveBuf.value| > receivedBytes.Length {
      return Err(IndexOutOfBounds);
    }
    ghost var prefix := receivedBytes[..amtXferred];
    ghost var after := receivedBytes[amtXferred + |receiveBuf.value|..];
    CopyInto(receivedBytes, amtXferred, receiveBuf.value);
    var total := amtXferred + |receiveBuf.value|;
    assert receivedBytes[..] == prefix + receiveBuf.value + after;
    assert (prefix + receiveBuf.value + after)[..total] == prefix + receiveBuf.value;
    assert receivedBytes[..total] == receivedBytes[..][..total];
    r := Ok(total);
  }

  lemma PrefixedEmpty(r: Result<seq<byte>>)
    ensures Prefixed([], r) == r
  {
    if r.Ok? {
      assert [] + r.value == r.value;
    }
  }

  lemma PrefixedAppend(a: seq<byte>, b: seq<byte>, r: Result<seq<byte>>)
    ensures Prefixed(a, Prefixed(b, r)) == Prefixed(a + b, r)
  {
    if r.Ok? {
      assert a + (b + r.value) == (a + b) + r.value;
    }
  }

  /** One pass of the receive loop, on a stream that has not ended. */
  lemma ReassembleStep(s: seq<byte>, maxMsgLen: int32, need: int)
    requires need > 0 && s != []
    ensures var f := ReadFrame(s, maxMsgLen);
            && (f.result.Err? ==> Reassemble(s, maxMsgLen, need).result == Err(f.result.error))
            && (f.result.Ok? && |f.result.value| > need ==> Reassemble(s, maxMsgLen, need).result == Err(IndexOutOfBounds))
            && (f.result.Ok? && |f.result.value| <= need ==>
                  Reassemble(s, maxMsgLen, need).result ==
                    Prefixed(f.result.value, Reassemble(f.rest, maxMsgLen, need - |f.result.value|).result))
  {
  }

  /**
   * The receive loop: frames are copied into the array until it is full,
   * and the array is returned.
   */
  /** One iteration of the copy loop, stated against Reassemble. */
  method ReceiveNext(h: MessageHandler, receivedBytes: array<byte>, amtXferred: nat) returns (r: Result<nat>)
    requires h.maxMsgLen == DefaultMaxMsgLen && h.input != [] && amtXferred < receivedBytes.Length
    modifies h`input, receivedBytes
    ensures var need := receivedBytes.Length - amtXferred;
            r.Err? ==> Reassemble(old(h.input), DefaultMaxMsgLen, need).result == Err(r.error)
    ensures r.Ok? ==>
              && amtXferred <= r.value <= receivedBytes.Length
              && |h.input| < |old(h.input)|
              && Prefixed(old(receivedBytes[..amtXferred]),
                          Reassemble(old(h.input), DefaultMaxMsgLen, receivedBytes.Length - amtXferred).result)
                 == Prefixed(receivedBytes[..r.value],
                             Reassemble(h.input, DefaultMaxMsgLen, receivedBytes.Length - r.value).result)
  {
    ghost var s := h.input;
    ghost var before := receivedBytes[..amtXferred];
    ghost var f := ReadFrame(s, DefaultMaxMsgLen);
    r := ReceiveFrame(h, receivedBytes, amtXferred);
    if r.Ok? {
      ReassembleAdvance(s, DefaultMaxMsgLen, receivedBytes.Length - amtXferred, before, f.result.value, f.rest);
    } else {
      ReassembleStep(s, DefaultMaxMsgLen, receivedBytes.Length - amtXferred);
    }
  }

  /** A frame that fits moves from the stream to the end of what was copied. */
  lemma ReassembleAdvance(s: seq<byte>, maxMsgLen: int32, need: int, before: seq<byte>, p: seq<byte>, rest: seq<byte>)
    requires need > 0 && s != []
    requires ReadFrame(s, maxMsgLen) == Read(Ok(p), rest) && |p| <= need
    ensures |rest| < |s|
    ensures Prefixed(before, Reassemble(s, maxMsgLen, need).result) ==
              Prefixed(before + p, Reassemble(rest, maxMsgLen, need - |p|).result)
  {
    var more := Reassemble(rest, maxMsgLen, need - |p|).result;
    ReassembleFits(s, maxMsgLen, need, p, rest);
    PrefixedAppend(before, p, more);
  }

  lemma ReassembleFits(s: seq<byte>, maxMsgLen: int32, need: int, p: seq<byte>, rest: seq<byte>)
    requires need > 0 && s != []
    requires ReadFrame(s, maxMsgLen) == Read(Ok(p), rest) && |p| <= need
    ensures Reassemble(s, maxMsgLen, need).result == Prefixed(p, Reassemble(rest, maxMsgLen, need - |p|).result)
  {
  }


  method ReceiveAll(h: MessageHandler, receivedBytes: array<byte>) returns (r: Result<seq<byte>>)
    requires h.maxMsgLen == DefaultMaxMsgLen
    modifies h`input, receivedBytes
    ensures r == Reassemble(old(h.input), DefaultMaxMsgLen, receivedBytes.Length).result
  {
    ghost var start := h.input;
    ghost var need := receivedBytes.Length;
    var amtXferred: nat := 0;
    PrefixedEmpty(Reassemble(start, DefaultMaxMsgLen, need).result);
    assert receivedBytes[..0] == [];
    while amtXferred < receivedBytes.Length
      invariant amtXferred <= need
      invariant h.maxMsgLen == DefaultMaxMsgLen
      invariant Reassemble(start, DefaultMaxMsgLen, need).result ==
                  Prefixed(receivedBytes[..amtXferred], Reassemble(h.input, DefaultMaxMsgLen, need - amtXferred).result)
      decreases |h.input|
    {
      if h.input == [] {
        return Err(Stalled);
      }
      var next := ReceiveNext(h, receivedBytes, amtXferred);
      if next.Err? {
        return Err(next.error);
      }
      amtXferred := next.value;
    }
    r := Ok(receivedBytes[..]);
    assert receivedBytes[..] == receivedBytes[..amtXferred] + [];
  }


  /**
   * DataXfer on a connection whose server sends `input`: returns what the
   * call returns and every byte it wrote.
   */
  method DataXfer(input: seq<byte>, header: seq<byte>, timeout: int32, xferLength: int32,
                  okayStr: seq<byte>, serialize: Object -> seq<byte>)
    returns (r: Result<seq<byte>>, sent: seq<byte>)
    requires |header| <= Int32Max && |serialize(SizeRequest(xferLength))| <= Int32Max
    ensures r == Transfer(input, timeout, xferLength, okayStr)
    ensures sent == Requested(header, timeout, xferLength, serialize)
  {
    if xferLength < 0 {
      return Err(NegativeArraySize), [];
    }
    var receivedBytes := new byte[xferLength](_ => 0);
    var h := new MessageHandler(input);
    var prev := h.SetTimeout(timeout);
    if prev.Err? {
      return Err(prev.error), [];
    }
    h.SendMessage(header);
    assert h.output == Frame(header);
    h.SendJson(SizeRequest(xferLength), serialize);
    sent := h.output;
    var okay := h.ReadMessageAsBytes();
    if okay.Err? {
      return Err(okay.error), sent;
    }
    if okay.value != okayStr {
      return Err(BadHeader), sent;
    }
    r := ReceiveAll(h, receivedBytes);
  }

  /** A frame that fits is taken whole, and the loop goes on for the rest. */
  lemma ReassembleFrame(p: seq<byte>, tail: seq<byte>, maxMsgLen: int32, need: int)
    requires |p| <= maxMsgLen as int && |p| <= need && need > 0
    ensures var more := Reassemble(tail, maxMsgLen, need - |p|);
            Reassemble(Frame(p) + tail, maxMsgLen, need) == Read(Prefixed(p, more.result), more.rest)
  {
    ReadFrameOfFrame(p, tail, maxMsgLen);
  }

  /** A frame of n zeros in front of a stream that yields m zeros yields n + m zeros. */
  lemma ReassembleZeroFrame(n: nat, m: nat, tail: seq<byte>, rest: seq<byte>, maxMsgLen: int32)
    requires 0 < n <= maxMsgLen as int
    requires Reassemble(tail, maxMsgLen, m) == Read(Ok(Zeros(m)), rest)
    ensures Reassemble(Frame(Zeros(n)) + tail, maxMsgLen, n + m) == Read(Ok(Zeros(n + m)), rest)
  {
    ReassembleFrame(Zeros(n), tail, maxMsgLen, n + m);
    ZerosAppend(n, m);
  }

  /**
   * The receive loop reassembles frames of zeros, each non-empty and within
   * the maximum, into as many zeros as they carry, leaving what follows them
   * unread.
   */
  lemma {:induction false} ReassembleZeroFrames(sizes: seq<int>, rest: seq<byte>, maxMsgLen: int32)
    requires forall i :: 0 <= i < |sizes| ==> 1 <= sizes[i] <= ChunkSize
    requires maxMsgLen as int >= ChunkSize
    ensures Sum(sizes) >= 0
    ensures Reassemble(ZeroFrames(sizes) + rest, maxMsgLen, Sum(sizes)) == Read(Ok(Zeros(Sum(sizes))), rest)
  {
    if sizes == [] {
      assert ZeroFrames(sizes) + rest == rest;
    } else {
      var tail := ZeroFrames(sizes[1..]) + rest;
      ZeroFramesCons(sizes, rest);
      ReassembleZeroFrames(sizes[1..], rest, maxMsgLen);
      ReassembleZeroFrame(sizes[0], Sum(sizes[1..]), tail, rest, maxMsgLen);
    }
  }

  lemma ZeroFramesCons(sizes: seq<int>, rest: seq<byte>)
    requires sizes != [] && forall i :: 0 <= i < |sizes| ==> 1 <= sizes[i] <= ChunkSize
    ensures ZeroFrames(sizes) + rest == Frame(Zeros(sizes[0])) + (ZeroFrames(sizes[1..]) + rest)
    ensures Sum(sizes) == sizes[0] + Sum(sizes[1..])
  {
    var f := Frame(Zeros(sizes[0]));
    var z := ZeroFrames(sizes[1..]);
    assert ZeroFrames(sizes) == f + z;
    AppendAssoc(f, z, rest);
  }

  lemma AppendAssoc(a: seq<byte>, b: seq<byte>, c: seq<byte>)
    ensures (a + b) + c == a + (b + c)
  {
  }

  /**
   * The client turns the okay string followed by the service's zero frames
   * for xferLength bytes into xferLength zero bytes.
   */
  lemma TransferOfZeroFrames(okayStr: seq<byte>, tail: seq<byte>, timeout: int32, xferLength: int32)
    requires xferLength >= 0 && timeout >= 0 && |okayStr| <= DefaultMaxMsgLen as int
    ensures Transfer(Frame(okayStr) + ZeroFrames(ChunkSizes(xferLength as int, 0)) + tail, timeout, xferLength, okayStr) ==
              Ok(Zeros(xferLength as int))
  {
    var sizes := ChunkSizes(xferLength as int, 0);
    var s := ZeroFrames(sizes) + tail;
    AppendAssoc(Frame(okayStr), ZeroFrames(sizes), tail);
    TransferAfterOkay(okayStr, s, timeout, xferLength);
    ChunkSizesCover(xferLength as int, 0);
    ReassembleZeroFrames(sizes, tail, DefaultMaxMsgLen);
  }

  /** After the okay frame, the transfer is the receive loop on what follows. */
  lemma TransferAfterOkay(okayStr: seq<byte>, s: seq<byte>, timeout: int32, xferLength: int32)
    requires xferLength >= 0 && timeout >= 0 && |okayStr| <= DefaultMaxMsgLen as int
    ensures Transfer(Frame(okayStr) + s, timeout, xferLength, okayStr) ==
              Reassemble(s, DefaultMaxMsgLen, xferLength as int).result
  {
    ReadFrameOfFrame(okayStr, s, DefaultMaxMsgLen);
  }

  /**
   * Client and service together: the service answers the client's request
   * with the okay string and the requested zero bytes, and the client
   * returns exactly that many zero bytes.
   */
  lemma TransferDeliversZeros(header: seq<byte>, xferLength: int32, timeout: int32, socketTimeout: int32,
                              serialize: Object -> seq<byte>, parse: seq<byte> -> Option<Object>,
                              headerStr: seq<byte>, okayStr: seq<byte>, more: seq<byte>)
    requires xferLength >= 0 && timeout >= 0 && socketTimeout >= 0
    requires |headerStr| > 0 && |okayStr| <= DefaultMaxMsgLen as int
    requires EqualsIgnoreCaseBytes(header, headerStr) && |header| <= DefaultMaxMsgLen as int
    requires |serialize(SizeRequest(xferLength))| <= DefaultMaxMsgLen as int
    requires parse(serialize(SizeRequest(xferLength))) == Some(SizeRequest(xferLength))
    ensures var reply := Serve(Requested(header, timeout, xferLength, serialize) + more, socketTimeout, parse, headerStr, okayStr);
            Transfer(reply, timeout, xferLength, okayStr) == Ok(Zeros(xferLength as int))
  {
    var request := serialize(SizeRequest(xferLength));
    ServeRequest(header, request, more, xferLength, socketTimeout, parse, headerStr, okayStr);
    TransferOfZeroFrames(okayStr, Serve(more, socketTimeout, parse, headerStr, okayStr), timeout, xferLength);
  }
}
