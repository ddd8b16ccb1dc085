/**
 * The server side of the RPC protocol (RPCService): the dispatch table and
 * the per-connection session, a handshake followed by an invoke/response loop.
 *
 * A session is driven by the JSON objects the client sends, in order; when
 * they run out, the next read fails (end of stream, time-out or a frame that
 * does not parse) and the session ends. Every exception ends the session and
 * the socket is closed on every path, so no reply is owed after a failure.
 */
module RpcService {
  import opened Wrappers
  import opened Bytes
  import opened Json
  import opened Dispatch

  /** RPCResponseMessage(callid) and RPCNormalResponseMessage(callid, value), before marshalling. */
  datatype Reply =
    | ResponseMessage(callid: int32)
    | NormalResponseMessage(callid: int32, value: Object)

  /** What the server takes from a control message. */
  datatype Control = Control(callid: int32, persist: bool, options: Option<Object>)

  /** The persistence test on the options object; getString throws on a non-string "connection". */
  function KeepAlive(options: Object): (r: Result<bool>)
    ensures r == Ok(true) <==> GetString(options, "connection") == Ok("keep-alive")
    ensures r.Err? <==> "connection" in options && !options["connection"].JStr?
  {
    if "connection" !in options then Ok(false)
    else
      match GetString(options, "connection")
      case Err(e) => Err(e)
      case Ok(c) => Ok(c == "keep-alive")
  }

  /** The handshake's reading of the first message. */
  function ReadControl(request: Object): (r: Result<Control>)
    ensures r.Ok? ==> GetString(request, "type") == Ok("control")
    ensures r.Ok? ==> GetInt(request, "id") == Ok(r.value.callid)
    ensures GetString(request, "type").Ok? && GetString(request, "type").value != "control" ==>
              r == Err(WrongType("control"))
    // persistent exactly when the options object has "connection": "keep-alive"
    ensures r.Ok? ==> (r.value.persist <==>
              GetObject(request, "options").Ok? &&
              GetString(GetObject(request, "options").value, "connection") == Ok("keep-alive"))
    ensures r.Ok? ==> ("options" in request <==> r.value.options.Some?)
    ensures r.Ok? && r.value.options.Some? ==> request["options"] == JObj(r.value.options.value)
    ensures r.Ok? && r.value.persist ==> r.value.options.Some?
    // an accepted message had a readable options object and connection, if it had options
    ensures r.Ok? && "options" in request ==>
              GetObject(request, "options").Ok? && KeepAlive(GetObject(request, "options").value).Ok?
    // and the handshake is accepted whenever those fields are all readable
    ensures GetString(request, "type") == Ok("control") && GetInt(request, "id").Ok? &&
            ("options" in request ==>
               GetObject(request, "options").Ok? && KeepAlive(GetObject(request, "options").value).Ok?)
            ==> r.Ok?
  {
    match GetString(request, "type")
    case Err(e) => Err(e)
    case Ok(t) =>
      if t != "control" then Err(WrongType("control"))
      else
        match GetInt(request, "id")
        case Err(e) => Err(e)
        case Ok(callid) =>
          if "options" !in request then Ok(Control(callid, false, None))
          else
            match GetObject(request, "options")
            case Err(e) => Err(e)
            case Ok(options) =>
              match KeepAlive(options)
              case Err(e) => Err(e)
              case Ok(persist) => Ok(Control(callid, persist, Some(options)))
  }

  /** The handshake ack: it echoes the control message's id and carries the options exactly when the session persists. */
  function Ack(c: Control): (reply: Reply)
    requires c.persist ==> c.options.Some?
    ensures reply.callid == c.callid
    ensures reply.NormalResponseMessage? <==> c.persist
    ensures reply.NormalResponseMessage? ==> reply.value == c.options.value
  {
    if c.persist then NormalResponseMessage(c.callid, c.options.value) else ResponseMessage(c.callid)
  }

  /** The fields of an invoke message. */
  datatype Invocation = Invocation(app: string, callid: int32, methodName: string, args: Object)

  /** Reads the fields of an invoke message in the order the serving loop does. */
  function ReadInvoke(m: Object): (r: Result<Invocation>)
    ensures r.Ok? <==>
              GetString(m, "type") == Ok("invoke") && GetString(m, "app").Ok? && GetInt(m, "id").Ok? &&
              GetString(m, "method").Ok? && GetObject(m, "args").Ok?
    ensures r.Ok? ==> GetInt(m, "id") == Ok(r.value.callid) && GetObject(m, "args") == Ok(r.value.args)
    ensures r.Ok? ==> GetString(m, "app") == Ok(r.value.app) && GetString(m, "method") == Ok(r.value.methodName)
  {
    match GetString(m, "type")
    case Err(e) => Err(e)
    case Ok(t) =>
      if t != "invoke" then Err(WrongType("invoke"))
      else
        match GetString(m, "app")
        case Err(e) => Err(e)
        case Ok(app) =>
          match GetInt(m, "id")
          case Err(e) => Err(e)
          case Ok(callid) =>
            match GetString(m, "method")
            case Err(e) => Err(e)
            case Ok(methodName) =>
              match GetObject(m, "args")
              case Err(e) => Err(e)
              case Ok(args) => Ok(Invocation(app, callid, methodName, args))
  }

  /** One cycle of the serving loop: read an invoke, find its handler, call it, build the response. */
  function Step(t: Table, m: Object): (r: Result<Reply>)
    // a response echoes the invoke's id and carries the value the registered handler returned
    ensures r.Ok? ==>
              && ReadInvoke(m).Ok?
              && r.value.NormalResponseMessage?
              && r.value.callid == ReadInvoke(m).value.callid
              && var inv := ReadInvoke(m).value;
                 Lookup(t, inv.app, inv.methodName).Some? &&
                 Lookup(t, inv.app, inv.methodName).value(inv.args) == Ok(r.value.value)
    // a missing handler and a throwing handler are both failures
    ensures ReadInvoke(m).Ok? && Lookup(t, ReadInvoke(m).value.app, ReadInvoke(m).value.methodName).None? ==>
              r == Err(NoHandler)
    ensures ReadInvoke(m).Err? ==> r.Err?
    // a registered handler that returns a value is always answered, one that throws never
    ensures ReadInvoke(m).Ok? && Lookup(t, ReadInvoke(m).value.app, ReadInvoke(m).value.methodName).Some? ==>
              var h := Lookup(t, ReadInvoke(m).value.app, ReadInvoke(m).value.methodName).value;
              (r.Ok? <==> h(ReadInvoke(m).value.args).Ok?) &&
              (r.Err? ==> r == Err(h(ReadInvoke(m).value.args).error))
  {
    match ReadInvoke(m)
    case Err(e) => Err(e)
    case Ok(inv) =>
      match Lookup(t, inv.app, inv.methodName)
      case None => Err(NoHandler)
      case Some(handler) =>
        match handler(inv.args)
        case Err(e) => Err(e)
        case Ok(value) => Ok(NormalResponseMessage(inv.callid, value))
  }

  datatype SessionEnd = Completed | Aborted(cause: Error)

  /** A session's transcript: the replies sent, how many messages were read, and how it ended. */
  datatype Session = Session(sent: seq<Reply>, consumed: nat, end: SessionEnd)

  function Prepend(replies: seq<Reply>, s: Session): Session
  {
    s.(sent := replies + s.sent)
  }

  /** The serving loop from message k on. */
  function Serve(t: Table, persist: bool, msgs: seq<Object>, k: nat): (s: Session)
    requires 1 <= k <= |msgs|
    ensures k <= s.consumed <= |msgs|
    ensures |s.sent| <= s.consumed - k
    decreases |msgs| - k
  {
    if k == |msgs| then Session([], k, Aborted(EndOfStream))
    else
      match Step(t, msgs[k])
      case Err(e) => Session([], k + 1, Aborted(e))
      case Ok(reply) =>
        if !persist then Session([reply], k + 1, Completed)
        else Prepend([reply], Serve(t, persist, msgs, k + 1))
  }

  /** SocketThread.run on the messages msgs. */
  function Transcript(t: Table, msgs: seq<Object>): (s: Session)
    ensures s.consumed <= |msgs|
    ensures |s.sent| <= s.consumed
  {
    if msgs == [] then Session([], 0, Aborted(EndOfStream))
    else
      match ReadControl(msgs[0])
      case Err(e) => Session([], 1, Aborted(e))
      case Ok(c) => Prepend([Ack(c)], Serve(t, c.persist, msgs, 1))
  }

  /** A first message that is not a good control message ends the session with nothing sent. */
  lemma NoAckWithoutControl(t: Table, msgs: seq<Object>)
    requires msgs == [] || ReadControl(msgs[0]).Err?
    ensures Transcript(t, msgs).sent == [] && Transcript(t, msgs).end.Aborted?
  {
  }

  /** After a good control message the ack is the first thing sent. */
  lemma AckFirst(t: Table, msgs: seq<Object>)
    requires msgs != [] && ReadControl(msgs[0]).Ok?
    ensures var s := Transcript(t, msgs);
            |s.sent| >= 1 && s.sent[0] == Ack(ReadControl(msgs[0]).value)
  {
  }

  lemma {:induction false} ServeAnswers(t: Table, persist: bool, msgs: seq<Object>, k: nat)
    requires 1 <= k <= |msgs|
    ensures var s := Serve(t, persist, msgs, k);
            forall j :: k <= j < k + |s.sent| ==> Step(t, msgs[j]) == Ok(s.sent[j - k])
    decreases |msgs| - k
  {
    if k < |msgs| && Step(t, msgs[k]).Ok? && persist {
      ServeAnswers(t, persist, msgs, k + 1);
      var s := Serve(t, persist, msgs, k);
      var s' := Serve(t, persist, msgs, k + 1);
      assert s.sent == [Step(t, msgs[k]).value] + s'.sent;
      forall j | k < j < k + |s.sent|
        ensures Step(t, msgs[j]) == Ok(s.sent[j - k])
      {
        assert s.sent[j - k] == s'.sent[j - (k + 1)];
      }
    }
  }

  /**
   * Every reply after the ack answers the message read at the same position:
   * it carries that invoke's id and what its handler returned.
   */
  lemma ResponsesAnswerInvokes(t: Table, msgs: seq<Object>)
    ensures var s := Transcript(t, msgs);
            forall k :: 1 <= k < |s.sent| ==> Step(t, msgs[k]) == Ok(s.sent[k])
  {
    if msgs != [] && ReadControl(msgs[0]).Ok? {
      var c := ReadControl(msgs[0]).value;
      ServeAnswers(t, c.persist, msgs, 1);
      var s := Transcript(t, msgs);
      var s' := Serve(t, c.persist, msgs, 1);
      forall k | 1 <= k < |s.sent|
        ensures Step(t, msgs[k]) == Ok(s.sent[k])
      {
        assert s.sent[k] == s'.sent[k - 1];
      }
    }
  }

  /** A non-persistent session sends the ack and at most one response, then closes. */
  lemma NonPersistentOneCycle(t: Table, msgs: seq<Object>)
    requires msgs != [] && ReadControl(msgs[0]).Ok? && !ReadControl(msgs[0]).value.persist
    ensures var s := Transcript(t, msgs);
            s.consumed <= 2 && |s.sent| <= 2 &&
            (s.end == Completed <==> |s.sent| == 2) &&
            (|msgs| >= 2 && Step(t, msgs[1]).Ok? ==> s.sent == [Ack(ReadControl(msgs[0]).value), Step(t, msgs[1]).value])
  {
  }

  lemma {:induction false} ServeAll(t: Table, msgs: seq<Object>, k: nat)
    requires 1 <= k <= |msgs|
    requires forall j :: k <= j < |msgs| ==> Step(t, msgs[j]).Ok?
    ensures var s := Serve(t, true, msgs, k);
            |s.sent| == |msgs| - k && s.consumed == |msgs| && s.end == Aborted(EndOfStream)
    decreases |msgs| - k
  {
    if k < |msgs| {
      ServeAll(t, msgs, k + 1);
    }
  }

  /**
   * A persistent session answers every invoke in turn, and ends only when the
   * client stops sending.
   */
  lemma PersistentServesAll(t: Table, msgs: seq<Object>)
    requires msgs != [] && ReadControl(msgs[0]).Ok? && ReadControl(msgs[0]).value.persist
    requires forall k :: 1 <= k < |msgs| ==> Step(t, msgs[k]).Ok?
    ensures var s := Transcript(t, msgs);
            |s.sent| == |msgs| && s.consumed == |msgs| && s.end == Aborted(EndOfStream)
  {
    ServeAll(t, msgs, 1);
  }

  lemma {:induction false} ServeStopsAtFailure(t: Table, persist: bool, msgs: seq<Object>, k: nat, bad: nat)
    requires 1 <= k <= bad < |msgs| && Step(t, msgs[bad]).Err?
    ensures var s := Serve(t, persist, msgs, k);
            k + |s.sent| <= bad && s.consumed <= bad + 1
    decreases |msgs| - k
  {
    if k < bad && Step(t, msgs[k]).Ok? && persist {
      ServeStopsAtFailure(t, persist, msgs, k + 1, bad);
    }
  }

  /**
   * A message that fails (not an invoke, no handler, or a throwing handler)
   * gets no response: nothing is sent for it or after it, and nothing after
   * it is read.
   */
  lemma FailureEndsSession(t: Table, msgs: seq<Object>, bad: nat)
    requires 1 <= bad < |msgs| && Step(t, msgs[bad]).Err?
    ensures var s := Transcript(t, msgs);
            |s.sent| <= bad && s.consumed <= bad + 1
  {
    if ReadControl(msgs[0]).Ok? {
      ServeStopsAtFailure(t, ReadControl(msgs[0]).value.persist, msgs, 1, bad);
    }
  }

  /** RPCService: the dispatch table and the session each accepted socket runs. */
  class RPCService {
    var callbacks: Table

    constructor ()
      ensures callbacks == map[]
    {
      callbacks := map[];
    }

    /** registerHandler: afterwards the pair looks up as h and every other pair as before. */
    method RegisterHandler(serviceName: string, methodName: string, h: Handler)
      modifies this
      ensures callbacks == Register(old(callbacks), serviceName, methodName, h)
      ensures GetRegistrationFor(serviceName, methodName) == Some(h)
      ensures forall s, m :: (s, m) != (serviceName, methodName) ==>
                GetRegistrationFor(s, m) == Lookup(old(callbacks), s, m)
    {
      callbacks := callbacks[ServiceMethodTuple(serviceName, methodName) := h];
      forall s, m | (s, m) != (serviceName, methodName)
        ensures GetRegistrationFor(s, m) == Lookup(old(callbacks), s, m)
      {
        LookupAfterRegister(old(callbacks), serviceName, methodName, h, s, m);
      }
    }

    /** getRegistrationFor: the handler registered for the pair, or None (null). */
    function GetRegistrationFor(serviceName: string, methodName: string): Option<Handler>
      reads this
    {
      Lookup(callbacks, serviceName, methodName)
    }

    /** SocketThread.run over the messages a client sends; the socket is closed at the end. */
    method RunSession(incoming: seq<Object>) returns (s: Session)
      ensures s == Transcript(callbacks, incoming)
    {
      if incoming == [] {
        return Session([], 0, Aborted(EndOfStream));
      }
      var request := incoming[0];
      var control := ReadControl(request);
      if control.Err? {
        return Session([], 1, Aborted(control.error));
      }
      var persist := control.value.persist;
      var sent := [Ack(control.value)];
      var k := 1;
      while true
        invariant 1 <= k <= |incoming|
        invariant Transcript(callbacks, incoming) == Prepend(sent, Serve(callbacks, persist, incoming, k))
        decreases |incoming| - k
      {
        if k == |incoming| {
          return Session(sent, k, Aborted(EndOfStream));
        }
        var invocation := ReadInvoke(incoming[k]);
        if invocation.Err? {
          return Session(sent, k + 1, Aborted(invocation.error));
        }
        var inv := invocation.value;
        var handler := GetRegistrationFor(inv.app, inv.methodName);
        if handler.None? {
          return Session(sent, k + 1, Aborted(NoHandler));
        }
        var value := handler.value(inv.args);
        if value.Err? {
          return Session(sent, k + 1, Aborted(value.error));
        }
        sent := sent + [NormalResponseMessage(inv.callid, value.value)];
        k := k + 1;
        if !persist {
          return Session(sent, k, Completed);
        }
      }
    }
  }
}
