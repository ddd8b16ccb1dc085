# CSE 461 RPC framework and data-transfer services, modelled in Dafny

This project models the message layer of a small Java RPC framework, and the
data-transfer clients and services built on it.

- **Framing.** `TCPMessageHandler` frames every message with a 4-byte
  little-endian length. Its maximum read length and socket timeout are
  mutable.
- **Server.** `RPCService` keeps a dispatch table keyed by (service, method).
  It runs each connection as a session: a control handshake first, then one
  invoke/response cycle, or a loop of them when the client asked for a
  keep-alive connection.
- **Client.** `RPCCallerSocket` is the client side of that handshake and of
  `invoke`.
- **Data transfer.**
  - `DataXferTCPMessageHandlerService` answers a header and a `transferSize`
    request with an okay string and zero-filled frames of at most 1000 bytes.
  - `DataXferTCPMessageHandler` and `DataXferRaw` (UDP and TCP) are clients.
    They copy what arrives into an array at a running offset.
  - `DataXferRPCService` is the same transfer offered as an RPC handler.

Streams are byte sequences that have fully arrived. A single `read` of n bytes
returns min(n, available) bytes, or -1 at end of stream. A peer that sends
datagrams is modelled as the sequence of those datagrams. JSON objects are maps
from keys to a small JSON value type. Parsing, printing and Base64 are function
parameters. The configured constants `HEADER_STR`, `RESPONSE_OKAY_STR` and
`HEADER_LEN` are parameters too, because the class that defines them is not
part of this model.

The modules follow the source files:

| module | file | models |
|---|---|---|
| `Wrappers` | `wrappers.dfy` | `Option`, `Result` and one `Error` per exception the code can raise |
| `Bytes` | `bytes.dfy` | bytes and 32-bit ints, little-endian digits, ASCII case folding, the array copy loops |
| `Json` | `json.dfy` | JSON values and the accessors `getString`, `getInt` and `getJSONObject` |
| `Framing` | `framing.dfy` | `TCPMessageHandler` (class `MessageHandler`) |
| `Dispatch` | `dispatch.dfy` | `ServiceMethodTuple` and the dispatch table |
| `RpcService` | `rpcservice.dfy` | `SocketThread.run` as a transcript function; class `RPCService` |
| `RpcCaller` | `rpccaller.dfy` | class `RPCCallerSocket`; wire shapes of control, invoke and reply messages |
| `XferService` | `xferservice.dfy` | the connection loop of `DataXferTCPMessageHandlerService` |
| `XferClient` | `xferclient.dfy` | `DataXferTCPMessageHandler.DataXfer` |
| `XferRaw` | `xferraw.dfy` | `DataXferRaw.udpDataXfer` and `tcpDataXfer` |
| `XferRpc` | `xferrpc.dfy` | `DataXferRPCService` |

Each imperative operation is a method proved against a function that
specifies it. Those operations are the handler's sends and reads, the session
loop, the chunking loop, the serving loop and the clients' copy loops. Lemmas
prove the properties of those functions: round-trips, bounds, sums, order and
error cases. Several lemmas also connect the server and client sides:

- `Framing.ReadFrameOfFrame`: a frame that was sent is read back unchanged.
- `XferClient.TransferDeliversZeros`: the server's answer to the client's own
  request gives the client exactly `xferLength` zero bytes.
- `RpcCaller.HandshakeAgrees`: client and server agree on persistence.
- `RpcCaller.InvokeRoundTrip`: the client's invoke receives the handler's value.

Some behaviours of the code are easy to miss, and the model keeps them:

- **Handler failure.** When a handler throws, the server sends no response at
  all, because the exception is caught outside the serving loop and the
  socket is closed (Net/src/edu/uw/cs/cse461/net/rpc/RPCService.java:126-145). The session ends
  (`RpcService.Step`, `RpcService.FailureEndsSession`).
- **Reads.** `readMessageAsBytes` makes one read for the header and one for the
  payload, and does not loop over partial reads (Net/src/edu/uw/cs/cse461/net/tcpmessagehandler/TCPMessageHandler.java:194-212).
- **End of stream.** The count returned by the header read is ignored, so at
  end of stream the header decodes as length 0 and an empty payload is
  returned (Net/src/edu/uw/cs/cse461/net/tcpmessagehandler/TCPMessageHandler.java:199-200,
  `Framing.ReadFrameAtEndOfStream`). This relies on a read into an empty
  array returning 0, as `InputStream.read` is documented to do. A socket
  stream that returns -1 there instead makes the payload check at line 207
  throw.
- **Invoke ids.** `invoke` returns the next reply's value without comparing
  the reply's id with the invoke's (Net/src/edu/uw/cs/cse461/net/rpc/RPCCallerSocket.java:85-92).
- **Client refusal.** The `DataXferRPC` client invokes ("dataxferrpc",
  "dataxfer") (ConsoleApps/src/edu/uw/cs/cse461/consoleapps/solution/DataXferRPC.java:95),
  but the handler is registered under ("dataxferpc", "dataxfer")
  (Services/src/edu/uw/cs/cse461/service/DataXferRPCService.java:31-35). The
  client's arguments also carry no `data` object, which the handler
  requires. `XferRpc.ClientNameNotRegistered` and `XferRpc.ClientArgsRejected`
  state these two facts.

## Model

| member | source | states |
|---|---|---|
| Framing.IntToBytes | Net/src/edu/uw/cs/cse461/net/tcpmessagehandler/TCPMessageHandler.java:45-58 | four bytes, low-order byte first, whose little-endian value is the int's two's-complement value |
| Framing.BytesToInt | Net/src/edu/uw/cs/cse461/net/tcpmessagehandler/TCPMessageHandler.java:60-73 | defined exactly for at least four bytes; the result's unsigned value is the little-endian value of the first four |
| Framing.IntBytesRoundTrip | Net/src/edu/uw/cs/cse461/net/tcpmessagehandler/TCPMessageHandler.java:45-73 | byteToInt(intToByte(i)) == i for every 32-bit i |
| Framing.BytesIntRoundTrip | Net/src/edu/uw/cs/cse461/net/tcpmessagehandler/TCPMessageHandler.java:45-73 | intToByte(byteToInt(b)) == b for every 4-byte b |
| Framing.Frame | Net/src/edu/uw/cs/cse461/net/tcpmessagehandler/TCPMessageHandler.java:148-155 | a frame is the 4-byte length prefix, which decodes to the payload's length, followed by the payload |
| Framing.ReadFrame | Net/src/edu/uw/cs/cse461/net/tcpmessagehandler/TCPMessageHandler.java:194-212 | a declared length below 0 or above maxMsgLen is rejected before any payload is read; a short payload is an error, never a short result; those are the only errors; a payload has exactly the declared length; non-empty input is consumed |
| Framing.ReadFrameConsumes | Net/src/edu/uw/cs/cse461/net/tcpmessagehandler/TCPMessageHandler.java:194-212 | what is left is a suffix of the stream; a bad length leaves the stream just after the header; a payload is exactly the bytes between the header and what is left |
| Framing.ReadFrameOfFrame | Net/src/edu/uw/cs/cse461/net/tcpmessagehandler/TCPMessageHandler.java:194-212 | reading a stream that starts with a frame sendMessage wrote, with length within maxMsgLen, returns that payload and leaves the rest |
| Framing.ReadFrameAtEndOfStream | Net/src/edu/uw/cs/cse461/net/tcpmessagehandler/TCPMessageHandler.java:196-210 | at end of stream the ignored header read leaves length 0, so an empty payload is returned |
| Framing.IntMessageRoundTrip | Net/src/edu/uw/cs/cse461/net/tcpmessagehandler/TCPMessageHandler.java:221-224 | sendMessage(int v) followed by readMessageAsInt yields v |
| Framing.ReadInt | Net/src/edu/uw/cs/cse461/net/tcpmessagehandler/TCPMessageHandler.java:221-224 | readMessageAsInt on a stream, as a function: a frame decoded by byteToInt; it has no contract of its own, and `Framing.IntMessageRoundTrip` states its round trip |
| Framing.ReadJson | Net/src/edu/uw/cs/cse461/net/tcpmessagehandler/TCPMessageHandler.java:233-236 | readMessageAsJSONObject on a stream, as a function: a frame whose payload parses as an object; it has no contract of its own, and `XferService.ServeRequest` and `XferService.BadRequestSendsNothing` state what it reads |
| Framing.MessageHandler.constructor | Net/src/edu/uw/cs/cse461/net/tcpmessagehandler/TCPMessageHandler.java:80-87 | a new handler has the default timeout 15000 and the default maximum length 2097148, nothing written |
| Framing.MessageHandler.GetMaxReadLength | Net/src/edu/uw/cs/cse461/net/tcpmessagehandler/TCPMessageHandler.java:139-141 | returns the current maximum; no contract of its own, `SetMaxReadLength` states how it changes |
| Framing.MessageHandler.SetMaxReadLength | Net/src/edu/uw/cs/cse461/net/tcpmessagehandler/TCPMessageHandler.java:129-141 | returns the previous maximum; getMaxReadLength then returns the new one |
| Framing.MessageHandler.SetTimeout | Net/src/edu/uw/cs/cse461/net/tcpmessagehandler/TCPMessageHandler.java:106-110 | a negative timeout is an illegal argument that changes nothing; otherwise the previous timeout is returned and the new one kept |
| Framing.MessageHandler.Close | Net/src/edu/uw/cs/cse461/net/tcpmessagehandler/TCPMessageHandler.java:92-98 | the handler is closed afterwards |
| Framing.MessageHandler.SendMessage | Net/src/edu/uw/cs/cse461/net/tcpmessagehandler/TCPMessageHandler.java:148-155 | appends exactly the frame of the buffer to the output and nothing else |
| Framing.MessageHandler.SendInt | Net/src/edu/uw/cs/cse461/net/tcpmessagehandler/TCPMessageHandler.java:169-171 | appends the frame of the int's four bytes |
| Framing.MessageHandler.SendJson | Net/src/edu/uw/cs/cse461/net/tcpmessagehandler/TCPMessageHandler.java:185-187 | appends the frame of the object's serialisation |
| Framing.MessageHandler.ReadMessageAsBytes | Net/src/edu/uw/cs/cse461/net/tcpmessagehandler/TCPMessageHandler.java:194-212 | returns and consumes what ReadFrame describes under the current maximum |
| Framing.MessageHandler.ReadMessageAsInt | Net/src/edu/uw/cs/cse461/net/tcpmessagehandler/TCPMessageHandler.java:221-224 | returns and consumes a frame decoded as an int |
| Framing.MessageHandler.ReadMessageAsJson | Net/src/edu/uw/cs/cse461/net/tcpmessagehandler/TCPMessageHandler.java:233-236 | returns and consumes a frame parsed as a JSON object |
| Dispatch.TupleEqualsIsEquality | Net/src/edu/uw/cs/cse461/net/rpc/RPCService.java:62-69 | two keys are equal exactly when both their service and method strings are equal |
| Dispatch.TupleEquals | Net/src/edu/uw/cs/cse461/net/rpc/RPCService.java:63-70 | equals on keys; no contract of its own, `Dispatch.TupleEqualsIsEquality` states that it is equality |
| Dispatch.EqualTuplesHashEqually | Net/src/edu/uw/cs/cse461/net/rpc/RPCService.java:71-75 | equal keys have equal hash codes |
| Dispatch.HashCode | Net/src/edu/uw/cs/cse461/net/rpc/RPCService.java:73-75 | the sum of the two strings' hash codes in 32-bit arithmetic; no contract of its own, `Dispatch.EqualTuplesHashEqually` states its agreement with equals |
| Dispatch.KeyInjective | Net/src/edu/uw/cs/cse461/net/rpc/RPCService.java:49-52 | despite the swapped constructor parameters, the key identifies the (service, method) pair one-to-one |
| Dispatch.Register | Net/src/edu/uw/cs/cse461/net/rpc/RPCService.java:218-221 | callbacks.put on the key; no contract of its own, `Dispatch.LookupAfterRegister` states its effect on lookups |
| Dispatch.Lookup | Net/src/edu/uw/cs/cse461/net/rpc/RPCService.java:231-233 | callbacks.get on the key, None for null; no contract of its own, `Dispatch.LookupAfterRegister` and `Dispatch.LookupEmpty` state what it finds |
| Dispatch.LookupAfterRegister | Net/src/edu/uw/cs/cse461/net/rpc/RPCService.java:217-233 | after registering a pair its lookup is the new handler, so the last registration wins; every other pair's lookup is unchanged |
| Dispatch.LookupEmpty | Net/src/edu/uw/cs/cse461/net/rpc/RPCService.java:231-233 | a pair never registered looks up as nothing |
| RpcService.KeepAlive | Net/src/edu/uw/cs/cse461/net/rpc/RPCService.java:96-102 | persistence is asked for exactly when options.connection is "keep-alive"; a non-string connection makes the accessor throw |
| RpcService.ReadControl | Net/src/edu/uw/cs/cse461/net/rpc/RPCService.java:90-102 | accepted exactly when type is "control", the id is an int and any options object has a readable connection; the call id comes from "id"; persistent exactly when options.connection is "keep-alive" |
| RpcService.Ack | Net/src/edu/uw/cs/cse461/net/rpc/RPCService.java:104-111 | the ack carries the control message's id, and carries the options exactly when the session is persistent |
| RpcService.ReadInvoke | Net/src/edu/uw/cs/cse461/net/rpc/RPCService.java:116-124 | accepted exactly for type "invoke" with app, id, method and args of the right kinds, whose values it returns |
| RpcService.Step | Net/src/edu/uw/cs/cse461/net/rpc/RPCService.java:116-129 | a response carries the invoke's id and the value the registered handler returned; a registered handler is answered exactly when it returns a value, and its exception is the step's error; a missing handler or a bad message is a failure |
| RpcService.Serve | Net/src/edu/uw/cs/cse461/net/rpc/RPCService.java:114-134 | the serving loop consumes messages from k on and sends at most one response per message read |
| RpcService.Transcript | Net/src/edu/uw/cs/cse461/net/rpc/RPCService.java:85-147 | a session sends at most one message per message it reads |
| RpcService.NoAckWithoutControl | Net/src/edu/uw/cs/cse461/net/rpc/RPCService.java:90-94 | without a good control message first, nothing is sent and the session is aborted |
| RpcService.AckFirst | Net/src/edu/uw/cs/cse461/net/rpc/RPCService.java:104-111 | after a good control message, the ack is the first message sent |
| RpcService.ServeAnswers | Net/src/edu/uw/cs/cse461/net/rpc/RPCService.java:114-134 | the j-th response of the loop answers message j |
| RpcService.ResponsesAnswerInvokes | Net/src/edu/uw/cs/cse461/net/rpc/RPCService.java:116-129 | every response after the ack answers the invoke at the same position, in order |
| RpcService.NonPersistentOneCycle | Net/src/edu/uw/cs/cse461/net/rpc/RPCService.java:131-133 | a non-persistent session reads at most two messages and completes exactly when it sent the ack and one response |
| RpcService.ServeAll | Net/src/edu/uw/cs/cse461/net/rpc/RPCService.java:114-134 | a persistent loop over invokes that all succeed answers every one and ends at end of stream |
| RpcService.PersistentServesAll | Net/src/edu/uw/cs/cse461/net/rpc/RPCService.java:114-134 | a persistent session whose invokes all succeed answers all of them after the ack |
| RpcService.ServeStopsAtFailure | Net/src/edu/uw/cs/cse461/net/rpc/RPCService.java:126-145 | the loop sends nothing for or after the first failing message and reads nothing after it |
| RpcService.FailureEndsSession | Net/src/edu/uw/cs/cse461/net/rpc/RPCService.java:126-145 | a missing or throwing handler ends the session with no response to that invoke |
| RpcService.RPCService.constructor | Net/src/edu/uw/cs/cse461/net/rpc/RPCService.java:41 | the dispatch table starts empty |
| RpcService.RPCService.RegisterHandler | Net/src/edu/uw/cs/cse461/net/rpc/RPCService.java:217-221 | getRegistrationFor then returns the handler for that pair and the old lookup for every other pair |
| RpcService.RPCService.GetRegistrationFor | Net/src/edu/uw/cs/cse461/net/rpc/RPCService.java:231-233 | the lookup of the pair in the callback table; no contract of its own, `RegisterHandler` states what it returns after a registration |
| RpcService.RPCService.RunSession | Net/src/edu/uw/cs/cse461/net/rpc/RPCService.java:85-147 | the handshake and serving loop sends exactly the session's transcript |
| RpcCaller.ControlFor | Net/src/edu/uw/cs/cse461/net/rpc/RPCCallerSocket.java:48-52 | the control message carries the options {connection: "keep-alive"} exactly when persistence is wanted |
| RpcCaller.CheckAck | Net/src/edu/uw/cs/cse461/net/rpc/RPCCallerSocket.java:63-70 | the handshake succeeds exactly when the reply's type is "OK"; otherwise the error message is the reply's msg, or the fixed default text when there is none |
| RpcCaller.RPCCallerSocket.constructor | Net/src/edu/uw/cs/cse461/net/rpc/RPCCallerSocket.java:44-71 | records the id, host and the persistence asked for; writes the control message before reading any reply; throws exactly when the reply is missing or CheckAck rejects it |
| RpcCaller.RPCCallerSocket.Invoke | Net/src/edu/uw/cs/cse461/net/rpc/RPCCallerSocket.java:85-92 | writes exactly one invoke message, then returns the value field of the next reply without checking its id |
| RpcCaller.RPCCallerSocket.GetHost | Net/src/edu/uw/cs/cse461/net/rpc/RPCCallerSocket.java:73-75 | returns the host the constructor recorded; no contract of its own |
| RpcCaller.RPCCallerSocket.IsPersistent | Net/src/edu/uw/cs/cse461/net/rpc/RPCCallerSocket.java:77-79 | returns the persistence asked for, whatever the ack said; no contract of its own |
| RpcCaller.RPCCallerSocket.Id | Net/src/edu/uw/cs/cse461/net/rpc/RPCCallerSocket.java:81-83 | returns the control message's id; no contract of its own |
| RpcCaller.HandshakeAgrees | Net/src/edu/uw/cs/cse461/net/rpc/RPCService.java:95-111 | the server reads the client's control message with the client's id, persistent exactly when the client asked, and the client accepts the server's ack |
| RpcCaller.InvokeRoundTrip | Net/src/edu/uw/cs/cse461/net/rpc/RPCService.java:116-129 | an invoke of a registered method is answered with its id and the handler's value, which the client's invoke returns |
| RpcCaller.UnregisteredInvokeFails | Net/src/edu/uw/cs/cse461/net/rpc/RPCService.java:126-133 | an invoke of an unregistered pair gets no response |
| XferService.ChunkSizes | Services/src/edu/uw/cs/cse461/service/DataXferTCPMessageHandlerService.java:63-71 | every data frame holds between 1 and 1000 bytes |
| XferService.ChunkSizesCover | Services/src/edu/uw/cs/cse461/service/DataXferTCPMessageHandlerService.java:60-73 | every frame but the last holds exactly 1000 bytes; the sizes sum to transferSize; there are no frames when transferSize <= 0 |
| XferService.Request | Services/src/edu/uw/cs/cse461/service/DataXferTCPMessageHandlerService.java:49-73 | an answered request consumes input, so the connection loop ends; what it answers and refuses is stated by `XferService.RequestAnswered`, `XferService.BadHeaderSendsNothing` and `XferService.BadRequestSendsNothing` |
| XferService.Serve | Services/src/edu/uw/cs/cse461/service/DataXferTCPMessageHandlerService.java:47-88 | what a connection writes, request after request until one fails; no contract of its own, `ServeRequest`, `ServeStep`, `BadHeaderSendsNothing`, `BadRequestSendsNothing` and `ServeEndOfStream` state its cases |
| XferService.ServeStep | Services/src/edu/uw/cs/cse461/service/DataXferTCPMessageHandlerService.java:47-76 | after one answered request the loop goes on with the next header on the same connection |
| XferService.ServeRequest | Services/src/edu/uw/cs/cse461/service/DataXferTCPMessageHandlerService.java:53-73 | a good header and a transferSize request are answered by the okay string and then the zero frames, before the next request |
| XferService.BadHeaderSendsNothing | Services/src/edu/uw/cs/cse461/service/DataXferTCPMessageHandlerService.java:53-55 | a first frame not equal to HEADER_STR ignoring case ends the connection with nothing sent |
| XferService.BadRequestSendsNothing | Services/src/edu/uw/cs/cse461/service/DataXferTCPMessageHandlerService.java:56-59 | a second frame that does not parse as a JSON object or has no int transferSize ends the connection with nothing sent |
| XferService.ServeEndOfStream | Services/src/edu/uw/cs/cse461/service/DataXferTCPMessageHandlerService.java:53-59 | at end of stream nothing more is sent |
| XferService.ZeroFramesFirst | Services/src/edu/uw/cs/cse461/service/DataXferTCPMessageHandlerService.java:63-72 | the frames still to send are one frame of min(1000, remaining) zero bytes, then the frames for the rest |
| XferService.ZeroFramesStep | Services/src/edu/uw/cs/cse461/service/DataXferTCPMessageHandlerService.java:63-72 | the same step with the output already written in front |
| XferService.SendZeros | Services/src/edu/uw/cs/cse461/service/DataXferTCPMessageHandlerService.java:63-73 | the chunking loop appends exactly the zero frames for transferSize |
| XferService.Respond | Services/src/edu/uw/cs/cse461/service/DataXferTCPMessageHandlerService.java:61-73 | RESPONSE_OKAY_STR is sent before any data frame, followed by the zero frames |
| XferService.RequestAnswered | Services/src/edu/uw/cs/cse461/service/DataXferTCPMessageHandlerService.java:49-73 | a stream with a good header and size request is answered by the okay string and the zero frames and leaves the rest |
| XferService.ServeOne | Services/src/edu/uw/cs/cse461/service/DataXferTCPMessageHandlerService.java:49-88 | one iteration with a new handler: it serves exactly when Request answers, writes that answer and leaves that rest; otherwise it closes the handler, which has written nothing |
| XferService.ServeConnection | Services/src/edu/uw/cs/cse461/service/DataXferTCPMessageHandlerService.java:44-88 | the per-connection loop, which keeps every handler's output including the failing one's, writes exactly what Serve describes and ends with the handler closed |
| XferClient.SizeRequest | ConsoleApps/src/edu/uw/cs/cse461/consoleapps/solution/DataXferTCPMessageHandler.java:38 | the request object's transferSize is xferLength |
| XferClient.Reassemble | ConsoleApps/src/edu/uw/cs/cse461/consoleapps/solution/DataXferTCPMessageHandler.java:46-53 | a reassembled result has exactly the length still needed |
| XferClient.ReassembleStep | ConsoleApps/src/edu/uw/cs/cse461/consoleapps/solution/DataXferTCPMessageHandler.java:46-53 | each frame is copied at the running offset, which grows by its length; a frame that overruns the array is an index error |
| XferClient.ReceiveFrame | ConsoleApps/src/edu/uw/cs/cse461/consoleapps/solution/DataXferTCPMessageHandler.java:48-52 | reads one frame and copies it in at amtXferred, leaving the bytes before it unchanged, or fails as the read or the array bound does |
| XferClient.ReceiveNext | ConsoleApps/src/edu/uw/cs/cse461/consoleapps/solution/DataXferTCPMessageHandler.java:47-52 | one pass of the copy loop either fails as Reassemble does or moves one frame from the stream to the end of what was copied, consuming input |
| XferClient.ReceiveAll | ConsoleApps/src/edu/uw/cs/cse461/consoleapps/solution/DataXferTCPMessageHandler.java:46-54 | the copy loop returns exactly what Reassemble describes for the array's length |
| XferClient.Transfer | ConsoleApps/src/edu/uw/cs/cse461/consoleapps/solution/DataXferTCPMessageHandler.java:28-55 | what DataXfer returns; a result always has xferLength bytes |
| XferClient.TransferChecksOkay | ConsoleApps/src/edu/uw/cs/cse461/consoleapps/solution/DataXferTCPMessageHandler.java:42-54 | a transfer succeeds only if the first frame is exactly the okay string, and is then the copy loop on what follows |
| XferClient.WrongOkayRefused | ConsoleApps/src/edu/uw/cs/cse461/consoleapps/solution/DataXferTCPMessageHandler.java:42-44 | a first reply frame other than the okay string is refused with an error |
| XferClient.Requested | ConsoleApps/src/edu/uw/cs/cse461/consoleapps/solution/DataXferTCPMessageHandler.java:35-40 | what DataXfer writes: the header frame, then the transferSize request; no contract of its own, `XferClient.DataXfer` states that it is written |
| XferClient.DataXfer | ConsoleApps/src/edu/uw/cs/cse461/consoleapps/solution/DataXferTCPMessageHandler.java:28-55 | writes exactly what Requested describes, the header and then {transferSize: xferLength}, and returns exactly what Transfer describes (see `TransferChecksOkay`, `WrongOkayRefused`) |
| XferClient.ReassembleFrame | ConsoleApps/src/edu/uw/cs/cse461/consoleapps/solution/DataXferTCPMessageHandler.java:46-53 | a frame that fits is placed in front of what the following frames give |
| XferClient.ReassembleZeroFrame | ConsoleApps/src/edu/uw/cs/cse461/consoleapps/solution/DataXferTCPMessageHandler.java:46-53 | one zero frame in front of zero bytes gives zero bytes |
| XferClient.ReassembleZeroFrames | ConsoleApps/src/edu/uw/cs/cse461/consoleapps/solution/DataXferTCPMessageHandler.java:46-54 | frames of 1 to 1000 zero bytes reassemble to as many zero bytes as they carry, in order, leaving the rest |
| XferClient.TransferAfterOkay | ConsoleApps/src/edu/uw/cs/cse461/consoleapps/solution/DataXferTCPMessageHandler.java:42-54 | once the okay frame has been read, the transfer is the copy loop on what follows |
| XferClient.TransferOfZeroFrames | ConsoleApps/src/edu/uw/cs/cse461/consoleapps/solution/DataXferTCPMessageHandler.java:42-54 | the okay string followed by the server's zero frames for xferLength gives xferLength zero bytes |
| XferClient.TransferDeliversZeros | ConsoleApps/src/edu/uw/cs/cse461/consoleapps/solution/DataXferTCPMessageHandler.java:28-55 | the server's answer to the client's own request gives the client exactly xferLength zero bytes |
| Bytes.CopyInto | ConsoleApps/src/edu/uw/cs/cse461/consoleapps/solution/DataXferRaw.java:209-211 | the copy loop writes the source at the offset and leaves the rest of the array unchanged |
| XferRaw.ReadCount | ConsoleApps/src/edu/uw/cs/cse461/consoleapps/solution/DataXferRaw.java:206 | a read returns -1 at end of stream, otherwise between 1 and the buffer's length bytes |
| XferRaw.TcpReceive | ConsoleApps/src/edu/uw/cs/cse461/consoleapps/solution/DataXferRaw.java:204-213 | the TCP copy loop as a function: a result has exactly the bytes needed; `XferRaw.TcpReceiveExact` states when it succeeds and with what |
| XferRaw.TcpTransfer | ConsoleApps/src/edu/uw/cs/cse461/consoleapps/solution/DataXferRaw.java:184-215 | what tcpDataXfer returns; a result always has xferLength bytes |
| XferRaw.TcpTransferChecksHeader | ConsoleApps/src/edu/uw/cs/cse461/consoleapps/solution/DataXferRaw.java:196-202 | a stream shorter than HEADER_LEN is a bad length (-1 at end of stream); a header that differs from the okay string ignoring case is refused; success implies both checks passed |
| XferRaw.TcpReceiveExact | ConsoleApps/src/edu/uw/cs/cse461/consoleapps/solution/DataXferRaw.java:204-214 | the TCP loop succeeds exactly when the stream holds the bytes needed and no read overruns them, that is when the need is a whole number of reads or the stream ends right after it; the result is then the stream's first xferLength bytes, in arrival order |
| XferRaw.TcpReceiveAll | ConsoleApps/src/edu/uw/cs/cse461/consoleapps/solution/DataXferRaw.java:204-213 | the copy loop returns exactly what TcpReceive describes: end of stream before the last byte is an error |
| XferRaw.TcpDataXfer | ConsoleApps/src/edu/uw/cs/cse461/consoleapps/solution/DataXferRaw.java:184-215 | writes only the header; returns exactly what TcpTransfer describes: a short response header is a bad-length error, one that differs from the okay string ignoring case a bad-header error, and a result has xferLength bytes |
| XferRaw.TcpTransferDelivers | ConsoleApps/src/edu/uw/cs/cse461/consoleapps/solution/DataXferRaw.java:184-215 | a server sending the okay string and then exactly the requested bytes is read back to those bytes |
| XferRaw.Truncate | ConsoleApps/src/edu/uw/cs/cse461/consoleapps/solution/DataXferRaw.java:138-140 | a datagram longer than the receive buffer is cut to its length |
| XferRaw.PacketHeader | ConsoleApps/src/edu/uw/cs/cse461/consoleapps/solution/DataXferRaw.java:141 | the header compared is always HEADER_LEN bytes of the zero-filled buffer |
| XferRaw.UdpReceive | ConsoleApps/src/edu/uw/cs/cse461/consoleapps/solution/DataXferRaw.java:137-150 | a successful receive leaves an array of the requested length |
| XferRaw.UdpReceiveStep | ConsoleApps/src/edu/uw/cs/cse461/consoleapps/solution/DataXferRaw.java:141-149 | a datagram with the okay header has its bytes after the header copied at amtXferred, which moves by its length less HEADER_LEN |
| XferRaw.UdpBadHeaderRefused | ConsoleApps/src/edu/uw/cs/cse461/consoleapps/solution/DataXferRaw.java:141-144 | a reply datagram whose header differs from the okay string ignoring case is refused while bytes are missing |
| XferRaw.UdpTransfer | ConsoleApps/src/edu/uw/cs/cse461/consoleapps/solution/DataXferRaw.java:125-152 | what udpDataXfer returns; a result always has xferLength bytes |
| XferRaw.UdpReceiveAll | ConsoleApps/src/edu/uw/cs/cse461/consoleapps/solution/DataXferRaw.java:137-150 | the receive loop returns exactly what UdpReceive describes from offset 0 |
| XferRaw.UdpDataXfer | ConsoleApps/src/edu/uw/cs/cse461/consoleapps/solution/DataXferRaw.java:125-152 | sends exactly one datagram, the header; returns exactly what UdpTransfer describes |
| XferRaw.UdpReceiveInOrder | ConsoleApps/src/edu/uw/cs/cse461/consoleapps/solution/DataXferRaw.java:137-150 | well-formed datagrams that carry exactly the missing bytes are copied in order after what the array already holds |
| XferRaw.UdpTransferDelivers | ConsoleApps/src/edu/uw/cs/cse461/consoleapps/solution/DataXferRaw.java:125-152 | datagrams of the okay string and 1 to 1000 data bytes give the client their data, concatenated in order |
| XferRpc.DataXferCall | Services/src/edu/uw/cs/cse461/service/DataXferRPCService.java:40-57 | throws when the header is missing, lacks a tag, has a tag not equal to HEADER_STR ignoring case, or lacks xferlength, when data is missing or the length is negative; on success only tag changes, to the okay string, xferlength is unchanged and data gains "data", the encoding of that many zero bytes |
| XferRpc.DataXferHandler | Services/src/edu/uw/cs/cse461/service/DataXferRPCService.java:34 | the callable the service registers, `DataXferCall` with the service's constants; no contract of its own |
| XferRpc.DataXferRPCService.constructor | Services/src/edu/uw/cs/cse461/service/DataXferRPCService.java:29-38 | registers the handler under ("dataxferpc", "dataxfer") |
| XferRpc.ClientNameNotRegistered | Services/src/edu/uw/cs/cse461/service/DataXferRPCService.java:31-35 | the handler is found under "dataxferpc" but not under "dataxferrpc", so the RPC client's invoke gets no response |
| XferRpc.ClientArgsRejected | ConsoleApps/src/edu/uw/cs/cse461/consoleapps/solution/DataXferRPC.java:94-95 | the RPC client's arguments, a header only, are rejected by the handler |
| XferRpc.WellFormedRequestAnswered | Services/src/edu/uw/cs/cse461/service/DataXferRPCService.java:43-56 | a request with the expected tag, a non-negative length and a data object comes back tagged with the okay string, the same length and that many encoded zero bytes |

## Left out

- The accept loop, one thread per connection and the shutdown flag of `RPCService` are concurrency. The model runs one session.
- Sockets, binding, `setNoDelay` and the timing of timeouts are I/O. A stream is the bytes the peer sends, and a negative timeout is the only timeout case modelled.
- A new `TCPMessageHandler` reads its maximum message length and its timeout from configuration, defaulting to 2097148 and 15000. The model uses those defaults; `SetMaxReadLength` and `SetTimeout` change them.
- The server's socket timeout comes from configuration. It is the parameter `socketTimeout`.
- Reads that return fewer bytes than have arrived are not modelled: every read returns as many bytes as fit.
- JSON parsing and printing, `RPCMessage.marshall` and Base64 are not part of this model. They are parameters, or the fixed wire shapes described in `rpccaller.dfy`.
- The reflection in `RPCCallableMethod` is not part of this model. A handler is a function that may fail.
- org.json's coercions are not modelled: `getString` accepts only strings and `getInt` only integers.
- Character sets and Unicode case folding are not modelled: strings are bytes or characters, and case is folded for ASCII letters only.
- `readMessageAsString` and `sendMessage(String)` are `ReadMessageAsBytes` and `SendMessage` on the string's bytes.
- `sendMessage(JSONArray)` and `readMessageAsJSONArray` are not modelled; the modelled code never calls them.
- `DataXferRawService`, the Ping clients, the console prompts and the transfer-rate statistics are left out: the first three are socket and console plumbing, and the statistics are floating-point timing.
- Operations on a handler that has been closed are not distinguished from those on an open one.
- XferClient.DataXfer: at end of stream the source loops forever, because every read then returns an empty payload (or, on a socket stream whose read into an empty array returns -1, throws). The model returns `Stalled` instead, an error as in the throwing case.
- XferRaw.UdpDataXfer: when no datagram is left the receive times out (`Timeout`), including for a timeout of 0, which in the source waits forever.
- XferRpc.DataXferCall: the handler changes the header and data objects in place, and the objects nested in the returned `args`. The model returns a new `args` with those two members replaced, so aliasing is not captured.
- RpcCaller.RPCCallerSocket.constructor: an exception is recorded in the field `thrown`, and `Invoke` requires that there is none.
- RpcCaller.RPCCallerSocket.Invoke: invoke ids are parameters, since fresh ids come from a counter that is not part of this model.
