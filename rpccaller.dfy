/**
 * The client side of the RPC protocol (RPCCallerSocket): the handshake its
 * constructor performs and the invoke call, plus the wire shapes of the
 * messages both sides exchange.
 *
 * RPCMessage and its marshall method are not part of this model: a message
 * is marshalled to the JSON object of the protocol's wire format (control:
 * type, id, options; invoke: type, id, app, method, args; a reply: type "OK",
 * id, and value when it carries one).
 */
module RpcCaller {
  import opened Wrappers
  import opened Bytes
  import opened Json
  import opened Dispatch
  import opened RpcService

  /** RPCControlMessage and RPCInvokeMessage, before marshalling. */
  datatype CallMessage =
    | ControlMessage(id: int32, options: Option<Object>)
    | InvokeMessage(id: int32, app: string, methodName: string, args: Object)

  function MarshallCall(m: CallMessage): Object
  {
    match m
    case ControlMessage(id, options) =>
      var base := map["type" := JStr("control"), "id" := JInt(id as int)];
      if options.Some? then base["options" := JObj(options.value)] else base
    case InvokeMessage(id, app, methodName, args) =>
      map["type" := JStr("invoke"), "id" := JInt(id as int), "app" := JStr(app),
          "method" := JStr(methodName), "args" := JObj(args)]
  }

  function MarshallReply(r: Reply): Object
  {
    match r
    case ResponseMessage(callid) =>
      map["type" := JStr("OK"), "id" := JInt(callid as int)]
    case NormalResponseMessage(callid, value) =>
      map["type" := JStr("OK"), "id" := JInt(callid as int), "value" := JObj(value)]
  }

  const KeepAliveOptions: Object := map["connection" := JStr("keep-alive")]

  /** The message of the exception thrown when the reply names no reason. */
  const DefaultRefusal: string := "The server is not configured to respond to RPC calls"

  /** The control message the constructor builds. */
  function ControlFor(id: int32, wantPersistent: bool): (m: CallMessage)
    ensures m.ControlMessage? && m.id == id
    // options {connection: "keep-alive"} exactly when persistence is wanted
    ensures m.options.Some? <==> wantPersistent
    ensures m.options.Some? ==> m.options.value == KeepAliveOptions
  {
    ControlMessage(id, if wantPersistent then Some(KeepAliveOptions) else None)
  }

  /**
   * The constructor's test of the handshake reply. A "type" that is present
   * but not a string makes getString throw.
   */
  function CheckAck(reply: Object): (r: Result<()>)
    // accepted exactly when the reply's type is "OK"
    ensures r.Ok? <==> GetString(reply, "type") == Ok("OK")
    // otherwise the reply's msg when it has one, else the fixed text
    ensures r.Err? && ("type" !in reply || reply["type"].JStr?) && GetString(reply, "msg").Ok? ==>
              r == Err(Refused(GetString(reply, "msg").value))
    ensures r.Err? && ("type" !in reply || reply["type"].JStr?) && "msg" !in reply ==>
              r == Err(Refused(DefaultRefusal))
  {
    if "type" in reply && !reply["type"].JStr? then Err(MissingField("type"))
    else if "type" in reply && reply["type"].s == "OK" then Ok(())
    else if "msg" !in reply then Err(Refused(DefaultRefusal))
    else
      match GetString(reply, "msg")
      case Err(e) => Err(e)
      case Ok(msg) => Err(Refused(msg))
  }

  /** What crossed the client's socket, in order. */
  datatype Event = Wrote(msg: Object) | ReadReply(msg: Object)

  /**
   * RPCCallerSocket. A constructor that throws leaves its exception in
   * `thrown`; the source's callers never hold such a socket, so invoke
   * requires that there is none.
   */
  class RPCCallerSocket {
    var id: int32
    var wantPersistent: bool
    var host: string
    var log: seq<Event>
    /** Replies the server has sent that have not been read yet. */
    var replies: seq<Object>
    var thrown: Option<Error>

    /** Builds and sends the control message, then reads and checks the reply. */
    constructor (ip: string, wantPersistent: bool, controlId: int32, replies: seq<Object>)
      ensures id == controlId && this.wantPersistent == wantPersistent && host == ip
      // the control message is written before any reply is read
      ensures |log| >= 1 && log[0] == Wrote(MarshallCall(ControlFor(controlId, wantPersistent)))
      ensures replies == [] ==> |log| == 1 && this.replies == [] && thrown == Some(EndOfStream)
      ensures replies != [] ==>
                && log == [log[0], ReadReply(replies[0])]
                && this.replies == replies[1..]
                && thrown == (if CheckAck(replies[0]).Ok? then None else Some(CheckAck(replies[0]).error))
    {
      var controlMsg := ControlFor(controlId, wantPersistent);
      this.wantPersistent := wantPersistent;
      id := controlMsg.id;
      host := ip;
      log := [Wrote(MarshallCall(controlMsg))];
      if replies == [] {
        this.replies := [];
        thrown := Some(EndOfStream);
      } else {
        var response := replies[0];
        log := log + [ReadReply(response)];
        this.replies := replies[1..];
        var ack := CheckAck(response);
        thrown := if ack.Ok? then None else Some(ack.error);
      }
    }

    /** getHost: the address the socket was opened to. */
    function GetHost(): string
      reads this
    {
      host
    }

    /** isPersistent: what the caller asked for, whatever the ack said. */
    function IsPersistent(): bool
      reads this
    {
      wantPersistent
    }

    /** id: the control message's id. */
    function Id(): int32
      reads this
    {
      id
    }

    /**
     * invoke: writes one invoke message and returns the "value" field of the
     * next reply read, whatever that reply's id.
     */
    method Invoke(invokeId: int32, serviceName: string, methodName: string, userRequest: Object)
      returns (r: Result<Object>)
      requires thrown == None
      modifies this`log, this`replies
      ensures var call := MarshallCall(InvokeMessage(invokeId, serviceName, methodName, userRequest));
              if old(replies) == [] then
                log == old(log) + [Wrote(call)] && replies == [] && r == Err(EndOfStream)
              else
                && log == old(log) + [Wrote(call), ReadReply(old(replies)[0])]
                && replies == old(replies)[1..]
                && r == GetObject(old(replies)[0], "value")
    {
      var invokeMsg := InvokeMessage(invokeId, serviceName, methodName, userRequest);
      log := log + [Wrote(MarshallCall(invokeMsg))];
      if replies == [] {
        return Err(EndOfStream);
      }
      var response := replies[0];
      log := log + [ReadReply(response)];
      replies := replies[1..];
      r := GetObject(response, "value");
    }
  }

  /**
   * Client and server agree on persistence: the server reads the client's
   * control message as persistent exactly when the client asked for it, and
   * the client accepts the ack the server sends back.
   */
  lemma HandshakeAgrees(id: int32, wantPersistent: bool)
    ensures var control := ReadControl(MarshallCall(ControlFor(id, wantPersistent)));
            && control.Ok?
            && control.value.callid == id
            && control.value.persist == wantPersistent
            && CheckAck(MarshallReply(Ack(control.value))) == Ok(())
  {
    var m := MarshallCall(ControlFor(id, wantPersistent));
    assert GetString(m, "type") == Ok("control");
    assert GetInt(m, "id") == Ok(id);
    if wantPersistent {
      assert GetObject(m, "options") == Ok(KeepAliveOptions);
      assert KeepAlive(KeepAliveOptions) == Ok(true);
    } else {
      assert "options" !in m;
    }
  }

  /**
   * An invoke of a registered method is answered with the invoke's id and
   * the handler's value, which is what the client's invoke returns.
   */
  lemma InvokeRoundTrip(t: Table, id: int32, app: string, methodName: string, args: Object, value: Object)
    requires Lookup(t, app, methodName).Some? && Lookup(t, app, methodName).value(args) == Ok(value)
    ensures var m := MarshallCall(InvokeMessage(id, app, methodName, args));
            && Step(t, m) == Ok(NormalResponseMessage(id, value))
            && GetObject(MarshallReply(NormalResponseMessage(id, value)), "value") == Ok(value)
  {
    var m := MarshallCall(InvokeMessage(id, app, methodName, args));
    assert ReadInvoke(m) == Ok(Invocation(app, id, methodName, args)) by {
      assert GetString(m, "type") == Ok("invoke");
      assert GetString(m, "app") == Ok(app);
      assert GetInt(m, "id") == Ok(id);
      assert GetString(m, "method") == Ok(methodName);
      assert GetObject(m, "args") == Ok(args);
    }
  }

  /** An invoke of a pair nobody registered gets no response: the session ends. */
  lemma UnregisteredInvokeFails(t: Table, id: int32, app: string, methodName: string, args: Object)
    requires Lookup(t, app, methodName).None?
    ensures Step(t, MarshallCall(InvokeMessage(id, app, methodName, args))) == Err(NoHandler)
  {
    var m := MarshallCall(InvokeMessage(id, app, methodName, args));
    assert ReadInvoke(m) == Ok(Invocation(app, id, methodName, args)) by {
      assert GetString(m, "type") == Ok("invoke");
      assert GetString(m, "app") == Ok(app);
      assert GetInt(m, "id") == Ok(id);
      assert GetString(m, "method") == Ok(methodName);
      assert GetObject(m, "args") == Ok(args);
    }
  }
}
