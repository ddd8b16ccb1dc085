/**
 * The raw-socket data-transfer client (DataXferRaw): over UDP it sends the
 * header in one datagram and copies the payload of every reply datagram into
 * the result; over TCP it sends the header, reads a response header of fixed
 * length, then copies whatever each read returns.
 */
module XferRaw {
  import opened Wrappers
  import opened Bytes
  import opened XferClient

  /** PAYLOAD_SIZE: the data bytes a reply carries at most. */
  const PayloadSize: nat := 1000

  // ---------------------------------------------------------------- TCP

  /**
   * InputStream.read(buf) with buf of length n, on a stream whose unread
   * bytes are s, all already arrived: -1 at end of stream, otherwise as many
   * bytes as fit.
   */
  function ReadCount(s: seq<byte>, n: nat): (k: int)
    ensures n == 0 ==> k == 0
    ensures n > 0 && s == [] ==> k == -1
    ensures n > 0 && s != [] ==> 1 <= k <= n && k <= |s|
  {
    if n == 0 then 0 else if s == [] then -1 else Min(n, |s|)
  }

  /**
   * The TCP receive loop: each read of up to bufLen bytes is copied in at
   * the current offset until `need` bytes have arrived.
   */
  function TcpReceive(s: seq<byte>, need: int, bufLen: nat): (r: Result<seq<byte>>)
    requires bufLen > 0
    ensures r.Ok? ==> |r.value| == if need < 0 then 0 else need
    decreases |s|
  {
    if need <= 0 then Ok([])
    else if s == [] then Err(EndOfStream)
    else
      var k := ReadCount(s, bufLen);
      if k > need then Err(IndexOutOfBounds)
      else Prefixed(s[..k], TcpReceive(s[k..], need - k, bufLen))
  }

  lemma MulAtLeast(k: int, b: int)
    requires k >= 1 && b > 0
    ensures k * b >= b
  {
    assert k * b == (k - 1) * b + b;
    if k > 1 {
      MulAtLeast(k - 1, b);
    }
  }

  /** Euclidean remainders are unique. */
  lemma ModUnique(a: int, b: int, q: int, r: int)
    requires b > 0 && 0 <= r < b && a == q * b + r
    ensures a % b == r
  {
    var q' := a / b;
    assert a == q' * b + a % b;
    assert (q - q') * b == q * b - q' * b;
    if q > q' {
      MulAtLeast(q - q', b);
    } else if q < q' {
      assert (q' - q) * b == q' * b - q * b;
      MulAtLeast(q' - q, b);
    }
  }

  lemma ModShift(need: int, b: int)
    requires b > 0 && need >= b
    ensures (need - b) % b == need % b
  {
    var q := need / b;
    assert need == q * b + need % b;
    assert (q - 1) * b == q * b - b;
    ModUnique(need - b, b, q - 1, need % b);
  }

  /** The remainder by repeated subtraction, which the receive loop follows one read at a time. */
  function Rem(n: nat, b: nat): nat
    requires b > 0
    decreases n
  {
    if n < b then n else Rem(n - b, b)
  }

  lemma {:induction false} RemIsMod(n: nat, b: nat)
    requires b > 0
    ensures Rem(n, b) == n % b
    decreases n
  {
    if n < b {
      ModUnique(n, b, 0, n);
    } else {
      RemIsMod(n - b, b);
      ModShift(n, b);
    }
  }

  lemma {:induction false} TcpReceiveByReads(s: seq<byte>, need: nat, bufLen: nat)
    requires bufLen > 0
    ensures TcpReceive(s, need, bufLen).Ok? <==>
              need == 0 || (|s| >= need && (Rem(need, bufLen) == 0 || |s| == need))
    ensures TcpReceive(s, need, bufLen).Ok? ==> TcpReceive(s, need, bufLen).value == s[..need]
    decreases |s|
  {
    if need > 0 && s != [] {
      var k := ReadCount(s, bufLen);
      if k <= need {
        TcpReceiveByReads(s[k..], need - k, bufLen);
        var more := TcpReceive(s[k..], need - k, bufLen);
        if more.Ok? {
          assert s[..k] + s[k..][..need - k] == s[..need];
        }
      }
    }
  }

  /**
   * The TCP receive loop succeeds exactly when the stream holds the bytes
   * needed and the last read does not overrun them: either the need is a
   * whole number of reads, or the stream ends right after it. What it
   * returns is then the stream's first `need` bytes.
   */
  lemma TcpReceiveExact(s: seq<byte>, need: int, bufLen: nat)
    requires bufLen > 0 && need >= 0
    ensures TcpReceive(s, need, bufLen).Ok? <==>
              need == 0 || (|s| >= need && (need % bufLen == 0 || |s| == need))
    ensures TcpReceive(s, need, bufLen).Ok? ==> TcpReceive(s, need, bufLen).value == s[..need]
  {
    TcpReceiveByReads(s, need, bufLen);
    RemIsMod(need, bufLen);
  }

  /**
   * What tcpDataXfer returns when the server sends s: the response header
   * must arrive whole in one read and equal the okay string ignoring case.
   */
  function TcpTransfer(s: seq<byte>, socketTimeout: int32, xferLength: int32,
                       headerLen: nat, okayStr: seq<byte>): (r: Result<seq<byte>>)
    ensures r.Ok? ==> |r.value| == xferLength as int
  {
    if xferLength < 0 then Err(NegativeArraySize)
    else if socketTimeout < 0 then Err(IllegalArgument)
    else
      var len := ReadCount(s, headerLen);
      if len != headerLen then Err(BadLength(len))
      else if !EqualsIgnoreCaseBytes(s[..headerLen], okayStr) then Err(BadHeader)
      else TcpReceive(s[headerLen..], xferLength as int, PayloadSize + headerLen)
  }

  /**
   * The response header is checked before any data is read: a stream
   * shorter than the header is a bad length (-1 at end of stream), and a
   * header that differs from the okay string ignoring case is refused.
   */
  lemma TcpTransferChecksHeader(s: seq<byte>, socketTimeout: int32, xferLength: int32,
                                headerLen: nat, okayStr: seq<byte>)
    requires xferLength >= 0 && socketTimeout >= 0
    ensures |s| < headerLen ==>
              TcpTransfer(s, socketTimeout, xferLength, headerLen, okayStr) == Err(BadLength(if s == [] then -1 else |s|))
    ensures |s| >= headerLen && !EqualsIgnoreCaseBytes(s[..headerLen], okayStr) ==>
              TcpTransfer(s, socketTimeout, xferLength, headerLen, okayStr) == Err(BadHeader)
    ensures TcpTransfer(s, socketTimeout, xferLength, headerLen, okayStr).Ok? ==>
              |s| >= headerLen && EqualsIgnoreCaseBytes(s[..headerLen], okayStr)
  {
  }

  /** The TCP receive loop over the array. */
  method TcpReceiveAll(input: seq<byte>, receivedBytes: array<byte>, bufLen: nat) returns (r: Result<seq<byte>>)
    requires bufLen > 0
    modifies receivedBytes
    ensures r == TcpReceive(input, receivedBytes.Length, bufLen)
  {
    var stream := input;
    var need := receivedBytes.Length;
    var amtXferred: nat := 0;
    PrefixedEmpty(TcpReceive(input, need, bufLen));
    assert receivedBytes[..0] == [];
    while amtXferred < receivedBytes.Length
      invariant amtXferred <= need == receivedBytes.Length
      invariant TcpReceive(input, need, bufLen) ==
                  Prefixed(receivedBytes[..amtXferred], TcpReceive(stream, need - amtXferred, bufLen))
      decreases |stream|
    {
      var len := ReadCount(stream, bufLen);
      if len == -1 {
        return Err(EndOfStream);
      }
      var receiveBuf := stream[..len];
      stream := stream[len..];
      if amtXferred + len > receivedBytes.Length {
        return Err(IndexOutOfBounds);
      }
      ghost var before := receivedBytes[..amtXferred];
      ghost var after := receivedBytes[amtXferred + len..];
      CopyInto(receivedBytes, amtXferred, receiveBuf);
      assert receivedBytes[..] == before + receiveBuf + after;
      assert receivedBytes[..amtXferred + len] == (before + receiveBuf + after)[..amtXferred + len] == before + receiveBuf;
      PrefixedAppend(before, receiveBuf, TcpReceive(stream, need - amtXferred - len, bufLen));
      amtXferred := amtXferred + len;
    }
    r := Ok(receivedBytes[..]);
    assert receivedBytes[..] == receivedBytes[..amtXferred] + [];
  }

  /**
   * tcpDataXfer against a server that sends `input`: returns what the call
   * returns and what it writes before shutting its output down.
   */
  method TcpDataXfer(input: seq<byte>, header: seq<byte>, socketTimeout: int32, xferLength: int32,
                     headerLen: nat, okayStr: seq<byte>)
    returns (r: Result<seq<byte>>, written: seq<byte>)
    ensures r == TcpTransfer(input, socketTimeout, xferLength, headerLen, okayStr)
    ensures written == if xferLength < 0 || socketTimeout < 0 then [] else header
    // the header checks
    ensures xferLength >= 0 && socketTimeout >= 0 && |input| < headerLen ==>
              r == Err(BadLength(if input == [] then -1 else |input|))
    ensures (xferLength >= 0 && socketTimeout >= 0 && |input| >= headerLen &&
             !EqualsIgnoreCaseBytes(input[..headerLen], okayStr)) ==> r == Err(BadHeader)
    ensures r.Ok? ==> |r.value| == xferLength as int
  {
    if xferLength >= 0 && socketTimeout >= 0 {
      TcpTransferChecksHeader(input, socketTimeout, xferLength, headerLen, okayStr);
    }
    written := [];
    if xferLength < 0 {
      return Err(NegativeArraySize), written;
    }
    var receivedBytes := new byte[xferLength](_ => 0);
    if socketTimeout < 0 {
      return Err(IllegalArgument), written;
    }
    written := header;
    var len := ReadCount(input, headerLen);
    if len != headerLen {
      return Err(BadLength(len)), written;
    }
    var headerBuf := input[..headerLen];
    if !EqualsIgnoreCaseBytes(headerBuf, okayStr) {
      return Err(BadHeader), written;
    }
    r := TcpReceiveAll(input[headerLen..], receivedBytes, PayloadSize + headerLen);
  }

  /**
   * A server that sends the okay string and then exactly the requested
   * bytes, in one write or many, is read back to the very bytes it sent.
   */
  lemma TcpTransferDelivers(okayStr: seq<byte>, data: seq<byte>, socketTimeout: int32)
    requires socketTimeout >= 0 && |data| < 0x8000_0000
    ensures TcpTransfer(okayStr + data, socketTimeout, |data| as int32, |okayStr|, okayStr) == Ok(data)
  {
    var s := okayStr + data;
    assert s[..|okayStr|] == okayStr;
    assert s[|okayStr|..] == data;
    if okayStr != [] && data == [] {
      assert ReadCount(s, |okayStr|) == |okayStr|;
    }
    TcpReceiveExact(data, |data|, PayloadSize + |okayStr|);
    assert data[..|data|] == data;
  }

  // ---------------------------------------------------------------- UDP

  /** DatagramSocket.receive into a buffer of n bytes: a longer datagram is cut to n. */
  function Truncate(p: seq<byte>, n: nat): (q: seq<byte>)
    ensures |q| == Min(|p|, n) && q == p[..|q|]
  {
    if |p| <= n then p else p[..n]
  }

  /** The first headerLen bytes of the receive buffer, which is zero past the datagram. */
  function PacketHeader(p: seq<byte>, headerLen: nat): (h: seq<byte>)
    ensures |h| == headerLen
  {
    if |p| >= headerLen then p[..headerLen] else p + Zeros(headerLen - |p|)
  }

  /**
   * The UDP receive loop: buf is the array's contents and amt the offset of
   * the next copy, which moves by the datagram's length less the header and
   * so backwards for a datagram shorter than the header. It ends once amt
   * reaches the array's length; with no datagram left the receive times out.
   */
  function UdpReceive(packets: seq<seq<byte>>, buf: seq<byte>, amt: int,
                      headerLen: nat, okayStr: seq<byte>): (r: Result<seq<byte>>)
    ensures r.Ok? ==> |r.value| == |buf|
    decreases |packets|
  {
    if amt >= |buf| then Ok(buf)
    else if packets == [] then Err(Timeout)
    else
      var p := Truncate(packets[0], PayloadSize + headerLen);
      if !EqualsIgnoreCaseBytes(PacketHeader(p, headerLen), okayStr) then Err(BadHeader)
      else
        var n := |p| - headerLen;
        if n > 0 && (amt < 0 || amt + n > |buf|) then Err(IndexOutOfBounds)
        else
          var buf' := if n > 0 then buf[..amt] + p[headerLen..] + buf[amt + n..] else buf;
          UdpReceive(packets[1..], buf', amt + n, headerLen, okayStr)
  }

  /** One datagram of the UDP receive loop that is copied without error. */
  lemma UdpReceiveStep(packets: seq<seq<byte>>, buf: seq<byte>, amt: int, headerLen: nat, okayStr: seq<byte>)
    requires amt < |buf| && packets != []
    requires var p := Truncate(packets[0], PayloadSize + headerLen);
             && EqualsIgnoreCaseBytes(PacketHeader(p, headerLen), okayStr)
             && (|p| > headerLen ==> 0 <= amt && amt + |p| - headerLen <= |buf|)
    ensures var p := Truncate(packets[0], PayloadSize + headerLen);
            var n := |p| - headerLen;
            UdpReceive(packets, buf, amt, headerLen, okayStr) ==
              UdpReceive(packets[1..], if n > 0 then buf[..amt] + p[headerLen..] + buf[amt + n..] else buf,
                         amt + n, headerLen, okayStr)
  {
  }

  /**
   * A reply datagram whose header differs from the okay string ignoring
   * case is refused, while bytes are still missing.
   */
  lemma UdpBadHeaderRefused(packets: seq<seq<byte>>, buf: seq<byte>, amt: int, headerLen: nat, okayStr: seq<byte>)
    requires amt < |buf| && packets != [] && |packets[0]| >= headerLen
    requires !EqualsIgnoreCaseBytes(packets[0][..headerLen], okayStr)
    ensures UdpReceive(packets, buf, amt, headerLen, okayStr) == Err(BadHeader)
  {
    var p := Truncate(packets[0], PayloadSize + headerLen);
    assert PacketHeader(p, headerLen) == packets[0][..headerLen];
  }

  /** What udpDataXfer returns when the server's reply datagrams are `packets`. */
  function UdpTransfer(packets: seq<seq<byte>>, socketTimeout: int32, xferLength: int32,
                       headerLen: nat, okayStr: seq<byte>): (r: Result<seq<byte>>)
    ensures r.Ok? ==> |r.value| == xferLength as int
  {
    if xferLength < 0 then Err(NegativeArraySize)
    else if socketTimeout < 0 then Err(IllegalArgument)
    else UdpReceive(packets, Zeros(xferLength as int), 0, headerLen, okayStr)
  }

  /**
   * udpDataXfer against a server whose reply datagrams are `packets`:
   * returns what the call returns and the datagrams it sends.
   */
  method UdpDataXfer(packets: seq<seq<byte>>, header: seq<byte>, socketTimeout: int32, xferLength: int32,
                     headerLen: nat, okayStr: seq<byte>)
    returns (r: Result<seq<byte>>, sent: seq<seq<byte>>)
    ensures r == UdpTransfer(packets, socketTimeout, xferLength, headerLen, okayStr)
    ensures sent == if xferLength < 0 || socketTimeout < 0 then [] else [header]
  {
    sent := [];
    if xferLength < 0 {
      return Err(NegativeArraySize), sent;
    }
    var receivedBytes := new byte[xferLength](_ => 0);
    if socketTimeout < 0 {
      return Err(IllegalArgument), sent;
    }
    sent := [header];
    assert receivedBytes[..] == Zeros(xferLength as int);
    r := UdpReceiveAll(packets, receivedBytes, headerLen, okayStr);
  }

  /** The UDP receive loop over the array, from offset zero. */
  method UdpReceiveAll(packets: seq<seq<byte>>, receivedBytes: array<byte>, headerLen: nat, okayStr: seq<byte>)
    returns (r: Result<seq<byte>>)
    modifies receivedBytes
    ensures r == UdpReceive(packets, old(receivedBytes[..]), 0, headerLen, okayStr)
  {
    var pending := packets;
    var amtXferred := 0;
    while amtXferred < receivedBytes.Length
      invariant UdpReceive(packets, old(receivedBytes[..]), 0, headerLen, okayStr) ==
                  UdpReceive(pending, receivedBytes[..], amtXferred, headerLen, okayStr)
      decreases |pending|
    {
      if pending == [] {
        return Err(Timeout);
      }
      var p := Truncate(pending[0], PayloadSize + headerLen);
      if !EqualsIgnoreCaseBytes(PacketHeader(p, headerLen), okayStr) {
        return Err(BadHeader);
      }
      var n := |p| - headerLen;
      if n > 0 && (amtXferred < 0 || amtXferred + n > receivedBytes.Length) {
        return Err(IndexOutOfBounds);
      }
      ghost var buf := receivedBytes[..];
      if n > 0 {
        CopyInto(receivedBytes, amtXferred, p[headerLen..]);
      }
      UdpReceiveStep(pending, buf, amtXferred, headerLen, okayStr);
      amtXferred := amtXferred + n;
      pending := pending[1..];
    }
    r := Ok(receivedBytes[..]);
  }


  /** The payloads of well-formed replies, one after the other. */
  function Payloads(packets: seq<seq<byte>>, headerLen: nat): seq<byte>
    requires forall i :: 0 <= i < |packets| ==> |packets[i]| >= headerLen
  {
    if packets == [] then [] else packets[0][headerLen..] + Payloads(packets[1..], headerLen)
  }

  /** Datagrams that are the okay string followed by one to PAYLOAD_SIZE data bytes. */
  predicate WellFormedReplies(packets: seq<seq<byte>>, okayStr: seq<byte>)
  {
    forall i :: 0 <= i < |packets| ==>
      |okayStr| < |packets[i]| <= |okayStr| + PayloadSize && packets[i][..|okayStr|] == okayStr
  }

  lemma EqualsIgnoreCaseBytesRefl(a: seq<byte>)
    ensures EqualsIgnoreCaseBytes(a, a)
  {
  }

  /**
   * Replies that are well formed and carry exactly the bytes still missing
   * are copied in order after what the array already holds.
   */
  lemma {:induction false} UdpReceiveInOrder(packets: seq<seq<byte>>, buf: seq<byte>, amt: int, okayStr: seq<byte>)
    requires WellFormedReplies(packets, okayStr)
    requires 0 <= amt <= |buf| && amt + |Payloads(packets, |okayStr|)| == |buf|
    ensures UdpReceive(packets, buf, amt, |okayStr|, okayStr) == Ok(buf[..amt] + Payloads(packets, |okayStr|))
    decreases |packets|
  {
    var hl := |okayStr|;
    if packets == [] {
      assert buf[..amt] + [] == buf;
    } else {
      var p := packets[0];
      assert Truncate(p, PayloadSize + hl) == p;
      assert PacketHeader(p, hl) == okayStr;
      EqualsIgnoreCaseBytesRefl(okayStr);
      var n := |p| - hl;
      var buf' := buf[..amt] + p[hl..] + buf[amt + n..];
      assert WellFormedReplies(packets[1..], okayStr) by {
        forall i | 0 <= i < |packets[1..]|
          ensures hl < |packets[1..][i]| <= hl + PayloadSize && packets[1..][i][..hl] == okayStr
        {
          assert packets[1..][i] == packets[i + 1];
        }
      }
      UdpReceiveInOrder(packets[1..], buf', amt + n, okayStr);
      assert buf'[..amt + n] == buf[..amt] + p[hl..];
      assert buf[..amt] + p[hl..] + Payloads(packets[1..], hl) == buf[..amt] + Payloads(packets, hl);
    }
  }

  /**
   * A server that replies with well-formed datagrams carrying exactly the
   * requested bytes gives the client those bytes, in datagram order.
   */
  lemma UdpTransferDelivers(packets: seq<seq<byte>>, okayStr: seq<byte>, socketTimeout: int32)
    requires socketTimeout >= 0 && WellFormedReplies(packets, okayStr)
    requires |Payloads(packets, |okayStr|)| < 0x8000_0000
    ensures var data := Payloads(packets, |okayStr|);
            UdpTransfer(packets, socketTimeout, |data| as int32, |okayStr|, okayStr) == Ok(data)
  {
    var data := Payloads(packets, |okayStr|);
    UdpReceiveInOrder(packets, Zeros(|data|), 0, okayStr);
    assert Zeros(|data|)[..0] + data == data;
  }
}
