/**
 * The RPC data-transfer service (DataXferRPCService): one handler that checks
 * the request's header object, rewrites its tag to the okay string and puts
 * the requested number of zero bytes, Base64-encoded, into the data object.
 *
 * JSON objects are values here: the handler's in-place puts on the header and
 * data objects, which are members of args, become a new args with those two
 * members replaced. Base64 encoding is the parameter `encode`.
 */
module XferRpc {
  import opened Wrappers
  import opened Bytes
  import opened Json
  import opened Dispatch
  import opened RpcService
  import opened RpcCaller

  /** The service's loadable name, as its constructor passes it to the base class. */
  const LoadableName: string := "dataxferpc"
  const MethodName: string := "dataxfer"

  /** A header the handler accepts: a tag equal to HEADER_STR ignoring case and an int xferlength. */
  predicate GoodHeader(header: Object, headerStr: string)
  {
    && GetString(header, "tag").Ok?
    && EqualsIgnoreCase(GetString(header, "tag").value, headerStr)
    && GetInt(header, "xferlength").Ok?
  }

  /**
   * _dataxfer. The header's checks come first and throw one exception
   * (BadHeader) whether the tag is missing, differs or the length is missing;
   * a tag or length of the wrong kind makes the accessor throw instead.
   */
  function DataXferCall(args: Object, headerStr: string, okayStr: string, encode: seq<byte> -> string)
    : (r: Result<Object>)
    // accepted exactly for a good header, a data object and a length an array can have
    ensures r.Ok? <==>
              && GetObject(args, "header").Ok? && GoodHeader(GetObject(args, "header").value, headerStr)
              && GetObject(args, "data").Ok?
              && GetInt(GetObject(args, "header").value, "xferlength").value >= 0
    ensures GetObject(args, "header").Err? ==> r == Err(MissingField("header"))
    ensures GetObject(args, "header").Ok? && "tag" !in GetObject(args, "header").value ==> r == Err(BadHeader)
    ensures GetObject(args, "header").Ok? && GetString(GetObject(args, "header").value, "tag").Ok? &&
            !EqualsIgnoreCase(GetString(GetObject(args, "header").value, "tag").value, headerStr)
            ==> r == Err(BadHeader)
    ensures (GetObject(args, "header").Ok? && GoodHeader(GetObject(args, "header").value, headerStr) &&
             GetObject(args, "data").Err?)
            ==> r == Err(MissingField("data"))
    ensures (GetObject(args, "header").Ok? && GoodHeader(GetObject(args, "header").value, headerStr) &&
             GetObject(args, "data").Ok? && GetInt(GetObject(args, "header").value, "xferlength").value < 0)
            ==> r == Err(NegativeArraySize)
    // on success: the same keys, the tag now the okay string, the length
    // unchanged, the data object holding the encoded zero bytes
    ensures r.Ok? ==>
              var header := GetObject(args, "header").value;
              var data := GetObject(args, "data").value;
              var n := GetInt(header, "xferlength").value;
              && r.value.Keys == args.Keys
              && (forall k :: k in args && k != "header" && k != "data" ==> r.value[k] == args[k])
              && r.value["header"].JObj?
              && r.value["header"].fields.Keys == header.Keys
              && r.value["header"].fields["tag"] == JStr(okayStr)
              && r.value["header"].fields["xferlength"] == header["xferlength"]
              && (forall k :: k in header && k != "tag" ==> r.value["header"].fields[k] == header[k])
              && r.value["data"].JObj?
              && r.value["data"].fields.Keys == data.Keys + {"data"}
              && r.value["data"].fields["data"] == JStr(encode(Zeros(n as int)))
              && (forall k :: k in data && k != "data" ==> r.value["data"].fields[k] == data[k])
  {
    match GetObject(args, "header")
    case Err(e) => Err(e)
    case Ok(header) =>
      if "tag" !in header then Err(BadHeader)
      else match GetString(header, "tag")
      case Err(e) => Err(e)
      case Ok(tag) =>
        if !EqualsIgnoreCase(tag, headerStr) || "xferlength" !in header then Err(BadHeader)
        else match GetInt(header, "xferlength")
        case Err(e) => Err(e)
        case Ok(dataLength) =>
          match GetObject(args, "data")
          case Err(e) => Err(e)
          case Ok(data) =>
            var header' := header["tag" := JStr(okayStr)]["xferlength" := JInt(dataLength as int)];
            if dataLength < 0 then Err(NegativeArraySize)
            else
              var data' := data["data" := JStr(encode(Zeros(dataLength as int)))];
              Ok(args["header" := JObj(header')]["data" := JObj(data')])
  }

  /** The handler the service registers. */
  function DataXferHandler(headerStr: string, okayStr: string, encode: seq<byte> -> string): Handler
  {
    args => DataXferCall(args, headerStr, okayStr, encode)
  }

  /** DataXferRPCService: its constructor registers _dataxfer with the RPC service. */
  class DataXferRPCService {
    const headerStr: string
    const okayStr: string
    const encode: seq<byte> -> string

    constructor (rpc: RPCService, headerStr: string, okayStr: string, encode: seq<byte> -> string)
      modifies rpc
      ensures this.headerStr == headerStr && this.okayStr == okayStr && this.encode == encode
      ensures rpc.callbacks ==
                Register(old(rpc.callbacks), LoadableName, MethodName, DataXferHandler(headerStr, okayStr, encode))
    {
      this.headerStr := headerStr;
      this.okayStr := okayStr;
      this.encode := encode;
      new;
      rpc.RegisterHandler(LoadableName, MethodName, DataXferHandler(headerStr, okayStr, encode));
    }
  }

  /**
   * The handler is found under the service's own loadable name, but not under
   * "dataxferrpc", the name the RPC transfer client invokes: unless something
   * else was registered there, that invoke gets no response.
   */
  lemma ClientNameNotRegistered(t: Table, h: Handler, id: int32, args: Object)
    requires Lookup(t, "dataxferrpc", MethodName).None?
    ensures Lookup(Register(t, LoadableName, MethodName, h), LoadableName, MethodName) == Some(h)
    ensures Lookup(Register(t, LoadableName, MethodName, h), "dataxferrpc", MethodName).None?
    ensures Step(Register(t, LoadableName, MethodName, h),
                 MarshallCall(InvokeMessage(id, "dataxferrpc", MethodName, args))) == Err(NoHandler)
  {
    var t' := Register(t, LoadableName, MethodName, h);
    LookupAfterRegister(t, LoadableName, MethodName, h, LoadableName, MethodName);
    LookupAfterRegister(t, LoadableName, MethodName, h, "dataxferrpc", MethodName);
    assert LoadableName != "dataxferrpc" by {
      assert |LoadableName| != |"dataxferrpc"|;
    }
    UnregisteredInvokeFails(t', id, "dataxferrpc", MethodName, args);
  }

  /**
   * The arguments the RPC transfer client sends hold only the header, so the
   * handler, which also needs a data object, rejects them whatever the header.
   */
  lemma ClientArgsRejected(header: Object, headerStr: string, okayStr: string, encode: seq<byte> -> string)
    ensures DataXferCall(map["header" := JObj(header)], headerStr, okayStr, encode).Err?
  {
    assert "data" !in map["header" := JObj(header)];
  }

  /**
   * A request with the expected tag, a non-negative length and a data object
   * comes back tagged with the okay string and carrying that many zero bytes.
   */
  lemma WellFormedRequestAnswered(n: int32, data: Object, headerStr: string, okayStr: string,
                                  encode: seq<byte> -> string)
    requires n >= 0
    ensures var header := map["tag" := JStr(headerStr), "xferlength" := JInt(n as int)];
            var r := DataXferCall(map["header" := JObj(header), "data" := JObj(data)], headerStr, okayStr, encode);
            && r.Ok?
            && GetString(GetObject(r.value, "header").value, "tag") == Ok(okayStr)
            && GetInt(GetObject(r.value, "header").value, "xferlength") == Ok(n)
            && GetString(GetObject(r.value, "data").value, "data") == Ok(encode(Zeros(n as int)))
  {
    var header := map["tag" := JStr(headerStr), "xferlength" := JInt(n as int)];
    var args := map["header" := JObj(header), "data" := JObj(data)];
    assert GetObject(args, "header") == Ok(header);
    assert GetString(header, "tag") == Ok(headerStr);
    assert GetInt(header, "xferlength") == Ok(n);
  }
}
