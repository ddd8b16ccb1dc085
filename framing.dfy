/**
 * The message framing layer (TCPMessageHandler): every message travels as a
 * 4-byte little-endian length followed by that many payload bytes.
 *
 * A stream is the sequence of bytes the peer has sent and this side has not
 * read yet, all of them already arrived: one `read` of n bytes returns the
 * first min(n, available) of them, and at end of stream it returns nothing.
 */
module Framing {
  import opened Wrappers
  import opened Bytes
  import opened Json

  const HeaderSize: nat := 4
  /** Default of the configuration entry "tcpmessagehandler.maxmsglength". */
  const DefaultMaxMsgLen: int32 := 2097148
  /** Default of the configuration entry "net.timeout.socket", in milliseconds. */
  const DefaultTimeout: int32 := 15000

  /** intToByte: the little-endian encoding of i, low-order byte at index 0. */
  function IntToBytes(i: int32): (b: seq<byte>)
    ensures |b| == 4
    ensures b[0] as int == ToUnsigned(i) % 256
    ensures FromLittleEndian(b) == ToUnsigned(i)
  {
    Pow256Four();
    FromToLittleEndian(ToUnsigned(i), 4);
    ToLittleEndian(ToUnsigned(i), 4)
  }

  /**
   * byteToInt: the first four bytes of buf read as a little-endian int;
   * ByteBuffer.getInt underflows on fewer than four bytes.
   */
  function BytesToInt(buf: seq<byte>): (r: Result<int32>)
    ensures r.Ok? <==> |buf| >= 4
    ensures r.Ok? ==> ToUnsigned(r.value) == FromLittleEndian(buf[..4])
  {
    if |buf| < 4 then Err(Underflow)
    else
      Pow256Four();
      Ok(ToSigned(FromLittleEndian(buf[..4])))
  }

  /** byteToInt inverts intToByte for every int. */
  lemma IntBytesRoundTrip(i: int32)
    ensures BytesToInt(IntToBytes(i)) == Ok(i)
  {
    var b := IntToBytes(i);
    assert b[..4] == b;
    SignedUnsigned(i);
  }

  /** intToByte inverts byteToInt for every 4-byte array. */
  lemma BytesIntRoundTrip(b: seq<byte>)
    requires |b| == 4
    ensures BytesToInt(b).Ok? && IntToBytes(BytesToInt(b).value) == b
  {
    assert b[..4] == b;
    ToFromLittleEndian(b);
    Pow256Four();
  }

  /** What sendMessage(buf) writes: the length prefix, then the payload. */
  function Frame(buf: seq<byte>): (f: seq<byte>)
    requires |buf| <= Int32Max
    ensures |f| == HeaderSize + |buf| && f[HeaderSize..] == buf
    ensures BytesToInt(f[..HeaderSize]) == Ok(|buf| as int32)
  {
    var prefix := IntToBytes(|buf| as int32);
    IntBytesRoundTrip(|buf| as int32);
    assert (prefix + buf)[..HeaderSize] == prefix;
    prefix + buf
  }

  /** The result of reading from a stream: what was read, and what is left unread. */
  datatype Read<+T> = Read(result: Result<T>, rest: seq<byte>)

  /** How many bytes the header read takes from s: one read of four bytes. */
  function HeaderTaken(s: seq<byte>): nat { Min(HeaderSize, |s|) }

  /**
   * The length that readMessageAsBytes decodes from s. The count of the
   * header read is ignored, so header bytes the stream lacks stay zero.
   */
  function DeclaredLength(s: seq<byte>): int32
  {
    var got := s[..HeaderTaken(s)];
    BytesToInt(got + Zeros(HeaderSize - |got|)).value
  }

  /**
   * readMessageAsBytes: one read for the header, a bounds check against
   * maxMsgLen, then one read for the payload, which must return the whole of it.
   */
  function ReadFrame(s: seq<byte>, maxMsgLen: int32): (r: Read<seq<byte>>)
    // it consumes at least one byte of a non-empty s
    ensures |r.rest| <= |s|
    ensures s != [] ==> |r.rest| < |s|
    // a bad length is rejected after the header and before any payload byte is read
    ensures r.result.Err? && r.result.error.BadLength? <==> DeclaredLength(s) < 0 || DeclaredLength(s) > maxMsgLen
    // a short payload is an error, never a short result
    ensures r.result.Err? && r.result.error.ShortPayload? <==>
              0 <= DeclaredLength(s) <= maxMsgLen && |s| - HeaderTaken(s) < DeclaredLength(s) as int
    ensures r.result.Err? ==> r.result.error.BadLength? || r.result.error.ShortPayload?
    // a payload is exactly the declared length
    ensures r.result.Ok? ==> |r.result.value| == DeclaredLength(s) as int
  {
    var h := HeaderTaken(s);
    var len := DeclaredLength(s);
    var body := s[h..];
    if len < 0 || len > maxMsgLen then Read(Err(BadLength(len as int)), body)
    else if |body| < len as int then Read(Err(ShortPayload(len as int)), [])
    else
      assert s == s[..h] + body[..len] + body[len..];
      Read(Ok(body[..len]), body[len..])
  }

  /**
   * readMessageAsBytes consumes a prefix of the stream: after a bad length
   * just the header, and a payload is read right after the header.
   */
  lemma ReadFrameConsumes(s: seq<byte>, maxMsgLen: int32)
    ensures var r := ReadFrame(s, maxMsgLen);
            && r.rest == s[|s| - |r.rest|..]
            && (r.result.Err? && r.result.error.BadLength? ==> r.rest == s[HeaderTaken(s)..])
            && (r.result.Ok? ==> s == s[..HeaderTaken(s)] + r.result.value + r.rest)
  {
    var h := HeaderTaken(s);
    var len := DeclaredLength(s);
    if 0 <= len <= maxMsgLen && |s[h..]| >= len as int {
      assert s == s[..h] + s[h..][..len] + s[h..][len..];
    }
  }

  /** Reading a stream that starts with a frame within the maximum gives back its payload. */
  lemma ReadFrameOfFrame(p: seq<byte>, rest: seq<byte>, maxMsgLen: int32)
    requires |p| <= maxMsgLen as int
    ensures ReadFrame(Frame(p) + rest, maxMsgLen) == Read(Ok(p), rest)
  {
    var s := Frame(p) + rest;
    assert s[..HeaderTaken(s)] + Zeros(0) == Frame(p)[..HeaderSize];
    assert DeclaredLength(s) as int == |p|;
    assert s[HeaderSize..] == p + rest;
    assert (p + rest)[..|p|] == p && (p + rest)[|p|..] == rest;
  }

  /**
   * At end of stream the header read returns nothing, the length decodes
   * as zero, and readMessageAsBytes returns an empty payload instead of failing.
   */
  lemma ReadFrameAtEndOfStream(maxMsgLen: int32)
    requires maxMsgLen >= 0
    ensures ReadFrame([], maxMsgLen) == Read(Ok([]), [])
  {
    var zero := Zeros(HeaderSize);
    assert [][..HeaderTaken([])] + Zeros(HeaderSize) == zero;
    assert zero[..4] == zero;
    assert FromLittleEndian(zero) == 0 by {
      assert zero[1..] == Zeros(3) && Zeros(3)[1..] == Zeros(2) && Zeros(2)[1..] == Zeros(1) && Zeros(1)[1..] == [];
    }
  }

  /** readMessageAsInt: a frame whose payload is decoded by byteToInt. */
  function ReadInt(s: seq<byte>, maxMsgLen: int32): Read<int32>
  {
    var f := ReadFrame(s, maxMsgLen);
    match f.result
    case Err(e) => Read(Err(e), f.rest)
    case Ok(p) => Read(BytesToInt(p), f.rest)
  }

  /** sendMessage(int) followed by readMessageAsInt yields the int sent. */
  lemma IntMessageRoundTrip(v: int32, rest: seq<byte>, maxMsgLen: int32)
    requires maxMsgLen >= 4
    ensures ReadInt(Frame(IntToBytes(v)) + rest, maxMsgLen) == Read(Ok(v), rest)
  {
    ReadFrameOfFrame(IntToBytes(v), rest, maxMsgLen);
    IntBytesRoundTrip(v);
  }

  /** readMessageAsJSONObject: a frame whose payload parses as a JSON object. */
  function ReadJson(s: seq<byte>, maxMsgLen: int32, parse: seq<byte> -> Option<Object>): Read<Object>
  {
    var f := ReadFrame(s, maxMsgLen);
    match f.result
    case Err(e) => Read(Err(e), f.rest)
    case Ok(p) => Read(if parse(p).Some? then Ok(parse(p).value) else Err(Malformed), f.rest)
  }

  /**
   * One TCPMessageHandler over a connected socket. Strings travel as their
   * bytes, so sendMessage(String) and readMessageAsString are SendMessage and
   * ReadMessageAsBytes.
   */
  class MessageHandler {
    /** Bytes the peer has sent that have not been read yet. */
    var input: seq<byte>
    /** Every byte written to the socket so far. */
    var output: seq<byte>
    var maxMsgLen: int32
    /** The socket's read timeout, in milliseconds. */
    var timeout: int32
    var closed: bool

    constructor (input: seq<byte>)
      ensures this.input == input && output == []
      ensures maxMsgLen == DefaultMaxMsgLen && timeout == DefaultTimeout && !closed
    {
      this.input := input;
      output := [];
      maxMsgLen := DefaultMaxMsgLen;
      timeout := DefaultTimeout;
      closed := false;
    }

    function GetMaxReadLength(): int32
      reads this
    {
      maxMsgLen
    }

    /** setMaxReadLength: returns the previous maximum; the new one reads back. */
    method SetMaxReadLength(maxLen: int32) returns (prev: int32)
      modifies this`maxMsgLen
      ensures prev == old(GetMaxReadLength()) && GetMaxReadLength() == maxLen
    {
      prev := maxMsgLen;
      maxMsgLen := maxLen;
    }

    /** setTimeout: returns the previous timeout; the socket refuses a negative one. */
    method SetTimeout(t: int32) returns (r: Result<int32>)
      modifies this`timeout
      ensures t < 0 ==> r == Err(IllegalArgument) && timeout == old(timeout)
      ensures t >= 0 ==> r == Ok(old(timeout)) && timeout == t
    {
      var prev := timeout;
      if t < 0 {
        return Err(IllegalArgument);
      }
      timeout := t;
      r := Ok(prev);
    }

    method Close()
      modifies this`closed
      ensures closed
    {
      closed := true;
    }

    /** sendMessage(byte[]): appends exactly the frame of buf to the output. */
    method SendMessage(buf: seq<byte>)
      requires |buf| <= Int32Max
      modifies this`output
      ensures output == old(output) + Frame(buf)
    {
      output := output + IntToBytes(|buf| as int32);
      output := output + buf;
    }

    /** sendMessage(int): the frame of the int's 4-byte encoding. */
    method SendInt(value: int32)
      modifies this`output
      ensures output == old(output) + Frame(IntToBytes(value))
    {
      SendMessage(IntToBytes(value));
    }

    /** sendMessage(JSONObject): the frame of the object's text. */
    method SendJson(obj: Object, serialize: Object -> seq<byte>)
      requires |serialize(obj)| <= Int32Max
      modifies this`output
      ensures output == old(output) + Frame(serialize(obj))
    {
      SendMessage(serialize(obj));
    }

    /** readMessageAsBytes, step by step. */
    method ReadMessageAsBytes() returns (r: Result<seq<byte>>)
      modifies this`input
      ensures Read(r, input) == ReadFrame(old(input), maxMsgLen)
    {
      var taken := Min(HeaderSize, |input|);
      var b := input[..taken] + Zeros(HeaderSize - taken);
      input := input[taken..];
      var payloadLength := BytesToInt(b).value;
      if payloadLength < 0 || payloadLength > maxMsgLen {
        return Err(BadLength(payloadLength as int));
      }
      var res := Min(payloadLength as int, |input|);
      var payload := input[..res];
      input := input[res..];
      if res != payloadLength as int {
        return Err(ShortPayload(payloadLength as int));
      }
      r := Ok(payload);
    }

    /** readMessageAsInt. */
    method ReadMessageAsInt() returns (r: Result<int32>)
      modifies this`input
      ensures Read(r, input) == ReadInt(old(input), maxMsgLen)
    {
      var b := ReadMessageAsBytes();
      if b.Err? {
        return Err(b.error);
      }
      r := BytesToInt(b.value);
    }

    /** readMessageAsJSONObject, with the parser as a parameter. */
    method ReadMessageAsJson(parse: seq<byte> -> Option<Object>) returns (r: Result<Object>)
      modifies this`input
      ensures Read(r, input) == ReadJson(old(input), maxMsgLen, parse)
    {
      var b := ReadMessageAsBytes();
      if b.Err? {
        return Err(b.error);
      }
      var obj := parse(b.value);
      if obj.None? {
        return Err(Malformed);
      }
      r := Ok(obj.value);
    }
  }
}
