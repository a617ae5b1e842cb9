/** The typed JSON-RPC handlers of the language server's message dispatch
    (lsp-async-stub/src/impls/native/handler.rs): a request handler decodes
    the parameters, calls its function once and replies once; a
    notification handler decodes and calls, and never replies. */
module Handler {
  import opened Wrappers

  /** A JSON value. */
  datatype Json =
    | Null
    | Bool(b: bool)
    | Number(n: int)
    | Str(s: string)
    | Arr(items: seq<Json>)
    | Obj(members: seq<(string, Json)>)

  /** A request id: a number or a string. */
  datatype Id = IdNumber(n: int) | IdString(s: string)

  /** A JSON-RPC error object. */
  datatype RpcError = RpcError(code: int, message: string, data: Option<Json>)

  /** The "Invalid params" error of section 5.1 of the JSON-RPC 2.0
      specification. */
  const INVALID_PARAMS: int := -32602

  /** `rpc::Error::invalid_params().with_data(reason)`. */
  function InvalidParams(reason: string): (e: RpcError)
    ensures e.code == INVALID_PARAMS && e.data == Some(Str(reason))
  {
    RpcError(INVALID_PARAMS, "Invalid params", Some(Str(reason)))
  }

  /** An incoming request or notification; a notification has no id. */
  datatype Request = Request(id: Option<Id>, methodName: string, params: Json)

  /** An outgoing response: the id it answers, and a result or an error. */
  datatype Message = Response(id: Id, body: Result<Json, RpcError>)

  /** A request handler over a context `C`, typed parameters `P` and typed
      results `R`: the request type's method name, its parameter decoder
      (an error carries the decoder's message), the wrapped function and
      the result encoder. */
  datatype RequestHandler<!C, !P, !R> = RequestHandler(
    methodName: string,
    decode: Json -> Result<P, string>,
    f: (C, P) -> Result<R, RpcError>,
    encode: R -> Json)

  /** A notification handler: the notification's method name, its
      parameter decoder and the wrapped function, whose output is dropped. */
  datatype NotificationHandler<!C, !P> = NotificationHandler(
    methodName: string,
    decode: Json -> Result<P, string>,
    f: (C, P) -> ())

  /** A registered handler of either variant. */
  datatype Handler<!C, !P, !R> =
    | ForRequest(request: RequestHandler<C, P, R>)
    | ForNotification(notification: NotificationHandler<C, P>)

  /** `method()`: the method name the handler serves. */
  function Method<C, P, R>(h: Handler<C, P, R>): (m: string)
    ensures h.ForRequest? ==> m == h.request.methodName
    ensures h.ForNotification? ==> m == h.notification.methodName
  {
    match h
    case ForRequest(r) => r.methodName
    case ForNotification(n) => n.methodName
  }

  /** `box_clone` (and `clone`): a copy with the same function, decoder and
      method. */
  function BoxClone<C, P, R>(h: Handler<C, P, R>): (c: Handler<C, P, R>)
    ensures Method(c) == Method(h)
    ensures h.ForRequest? ==> c.ForRequest? && c.request.f == h.request.f && c.request.decode == h.request.decode
    ensures h.ForNotification? ==> c.ForNotification? && c.notification.f == h.notification.f && c.notification.decode == h.notification.decode
  {
    match h
    case ForRequest(r) => ForRequest(RequestHandler(r.methodName, r.decode, r.f, r.encode))
    case ForNotification(n) => ForNotification(NotificationHandler(n.methodName, n.decode, n.f))
  }

  /** `RequestHandler::new`: a handler for the request type named `method`. */
  function NewRequestHandler<C, P, R>(methodName: string, decode: Json -> Result<P, string>,
                                      f: (C, P) -> Result<R, RpcError>, encode: R -> Json)
    : (h: Handler<C, P, R>)
    ensures Method(h) == methodName && h.ForRequest? && h.request.f == f
  {
    ForRequest(RequestHandler(methodName, decode, f, encode))
  }

  /** `NotificationHandler::new`. `R` is only the result type of the
      `Handler` datatype both variants share; a notification has none. */
  function NewNotificationHandler<C, P, R>(methodName: string, decode: Json -> Result<P, string>, f: (C, P) -> ())
    : (h: Handler<C, P, R>)
    ensures Method(h) == methodName && h.ForNotification? && h.notification.f == f
  {
    ForNotification(NotificationHandler(methodName, decode, f))
  }

  // ---------------------------------------------------------- the writer

  /** The message writer: the messages sent through it so far. */
  class Writer {
    var sent: seq<Message>

    constructor()
      ensures sent == []
    {
      sent := [];
    }

    /** `send`: appends one message. */
    method Send(m: Message)
      modifies this
      ensures sent == old(sent) + [m]
    {
      sent := sent + [m];
    }
  }

  // -------------------------------------------------------- what happens

  /** The parameters the wrapped function is called with: none when the
      parameters do not decode, otherwise the decoded ones, once. The
      function is pure here, so this record is kept by the handler methods
      themselves: it shows which call they make, and holds by construction
      of their bodies rather than by observing the function. */
  function Calls<P>(decode: Json -> Result<P, string>, msg: Request): (cs: seq<P>)
    ensures |cs| <= 1
    ensures cs == [] <==> decode(msg.params).Err?
    ensures cs != [] ==> Ok(cs[0]) == decode(msg.params)
  {
    match decode(msg.params)
    case Ok(p) => [p]
    case Err(_) => []
  }

  /** `rpc::Response::from(result)`: a value becomes the result, an error
      the error. */
  function FromResult<R>(encode: R -> Json, r: Result<R, RpcError>): (b: Result<Json, RpcError>)
    ensures b.Ok? <==> r.Ok?
    ensures r.Ok? ==> b.value == encode(r.value)
    ensures r.Err? ==> b.error == r.error
  {
    match r
    case Ok(v) => Ok(encode(v))
    case Err(e) => Err(e)
  }

  /** The one reply a request handler sends through a writer. */
  function Reply<C, P, R>(h: RequestHandler<C, P, R>, ctx: C, msg: Request): Message
    requires msg.id.Some?
  {
    match h.decode(msg.params)
    case Err(reason) => Response(msg.id.value, Err(InvalidParams(reason)))
    case Ok(p) => Response(msg.id.value, FromResult(h.encode, h.f(ctx, p)))
  }

  /** The reply answers the request's own id. When the parameters do not
      decode it is an "Invalid params" error carrying the decoder's
      message; otherwise it carries what the function returned: its value
      as the result, or its error as the error. */
  lemma ReplyCorrect<C, P, R>(h: RequestHandler<C, P, R>, ctx: C, msg: Request)
    requires msg.id.Some?
    ensures var m := Reply(h, ctx, msg);
            && m.id == msg.id.value
            && (h.decode(msg.params).Err? ==>
                  m.body == Err(InvalidParams(h.decode(msg.params).error)))
            && (h.decode(msg.params).Ok? ==>
                  var out := h.f(ctx, h.decode(msg.params).value);
                  && (m.body.Ok? <==> out.Ok?)
                  && (out.Ok? ==> m.body == Ok(h.encode(out.value)))
                  && (out.Err? ==> m.body == Err(out.error)))
  {
  }

  /** A request is answered with an error exactly when its parameters do
      not decode or the function fails, and the function runs exactly when
      the parameters decode. */
  lemma ReplyIsError<C, P, R>(h: RequestHandler<C, P, R>, ctx: C, msg: Request)
    requires msg.id.Some?
    ensures Reply(h, ctx, msg).body.Err? <==>
            h.decode(msg.params).Err? || h.f(ctx, h.decode(msg.params).value).Err?
    ensures |Calls(h.decode, msg)| == 1 <==> h.decode(msg.params).Ok?
  {
  }

  // ------------------------------------------------------------- handle

  /** `RequestHandler::handle`: decodes the parameters; on failure sends
      "Invalid params" (when there is a writer) and calls nothing; on
      success calls the function once and sends its reply (when there is a
      writer). The id is needed only to reply. Returns the parameters the
      function was called with. */
  method HandleRequest<C, P, R>(h: RequestHandler<C, P, R>, ctx: C, msg: Request, writer: Writer?)
    returns (calls: seq<P>)
    requires writer != null ==> msg.id.Some?
    modifies writer
    ensures calls == Calls(h.decode, msg)
    ensures writer != null ==> writer.sent == old(writer.sent) + [Reply(h, ctx, msg)]
  {
    var reqId := msg.id;
    var decoded := h.decode(msg.params);
    if decoded.Err? {
      if writer != null {
        writer.Send(Response(reqId.value, Err(InvalidParams(decoded.error))));
      }
      return [];
    }

    var callResult := h.f(ctx, decoded.value);
    calls := [decoded.value];

    if writer != null {
      var res := Response(msg.id.value, FromResult(h.encode, callResult));
      writer.Send(res);
    }
  }

  /** `NotificationHandler::handle`: decodes the parameters and, when they
      decode, calls the function once; never sends. */
  method HandleNotification<C, P>(h: NotificationHandler<C, P>, ctx: C, msg: Request, writer: Writer?)
    returns (calls: seq<P>)
    ensures calls == Calls(h.decode, msg)
  {
    var decoded := h.decode(msg.params);
    if decoded.Err? {
      return [];
    }
    var _ := h.f(ctx, decoded.value);
    calls := [decoded.value];
  }

  /** `Handler::handle` on either variant. */
  method Handle<C, P, R>(h: Handler<C, P, R>, ctx: C, msg: Request, writer: Writer?)
    returns (calls: seq<P>)
    requires h.ForRequest? && writer != null ==> msg.id.Some?
    modifies writer
    ensures h.ForRequest? ==> calls == Calls(h.request.decode, msg)
    ensures h.ForNotification? ==> calls == Calls(h.notification.decode, msg)
    ensures h.ForRequest? && writer != null ==> writer.sent == old(writer.sent) + [Reply(h.request, ctx, msg)]
    ensures h.ForNotification? && writer != null ==> writer.sent == old(writer.sent)
  {
    match h {
      case ForRequest(r) =>
        calls := HandleRequest(r, ctx, msg, writer);
      case ForNotification(n) =>
        calls := HandleNotification(n, ctx, msg, writer);
    }
  }
}
