/** The responses a server builds, and how the client's reader classifies them. */
module ServerResponse {
  import opened Common
  import opened Header
  import opened Wire
  import opened M = Message
  import opened Codec

  const REQUEST: bv8 := 0
  const RESPONSE: bv8 := 1
  const ERROR: bv8 := 1

  /** The metadata key that carries an error text. */
  const SERVICE_ERROR: Bytes := [95, 95, 105, 114, 112, 99, 95, 101, 114, 114, 111, 114, 95, 95]

  /** A Go error: nil, or its text. */
  type Failure = Option<Bytes>

  function Ascii(s: string): Bytes {
    seq(|s|, i requires 0 <= i < |s| => (s[i] as int) % 256)
  }

  function HandleError(m: Message, err: Failure): Message {
    if err.Some?
    then m.(header := Set(m.header, SetMessageStatusType(ERROR)), metadata := m.metadata[SERVICE_ERROR := err.value])
    else m
  }

  /** The head of `handleRequest` and of `handleError`. */
  function ResponseTo(req: Message, pooled: Message): Message {
    var res := Clone(req, pooled);
    res.(header := Set(res.header, SetMessageType(RESPONSE)))
  }

  /** A heartbeat request is turned into its own response. */
  function HeartbeatResponse(req: Message): Message {
    req.(header := Set(req.header, SetMessageType(RESPONSE)))
  }

  // ----- What a server is made of

  /** An argument or a reply, under a name. */
  type Object = nat

  datatype PayloadCodec = PayloadCodec(decode: Bytes -> (Object, Failure), encode: Option<Object> -> (Bytes, Failure))

  /** A method or function: what it leaves in the reply and the error it returns; a panic is an error too. */
  type Callable = Object -> (Object, Failure)

  datatype Service = Service(methods: map<Bytes, Callable>, functions: map<Bytes, Callable>)

  /** The registered services and codecs, and the plugins around a call; the second may drop the reply. */
  datatype Server = Server(
    services: map<Bytes, Service>,
    codecs: map<byte, PayloadCodec>,
    preCall: Object -> (Object, Failure),
    postCall: (Object, Object) -> (Option<Object>, Failure))

  function CodecOf(req: Message): byte {
    SerializeType(req.header) as int
  }

  /** Nothing to call: this can be told from the request and the registries alone. */
  predicate Refused(s: Server, req: Message) {
    || req.servicePath !in s.services
    || CodecOf(req) !in s.codecs
    || (var service := s.services[req.servicePath];
        req.serviceMethod !in service.methods && req.serviceMethod !in service.functions)
  }

  // ----- Handling a request

  datatype Handled = Handled(res: Message, err: Failure)

  function Encoded(coder: PayloadCodec, res: Message, reply: Option<Object>): Handled {
    var (data, err) := coder.encode(reply);
    Handled(res.(payload := data), err)
  }

  /** From the arguments to the reply: decode, plugin, call, plugin, encode. */
  function CallMethod(s: Server, method_: Callable, coder: PayloadCodec, req: Message, res: Message): Handled {
    var (argv, decodeErr) := coder.decode(req.payload);
    if decodeErr.Some? then Handled(res, decodeErr)
    else
      var (argv', preErr) := s.preCall(argv);
      if preErr.Some? then Handled(res, preErr)
      else
        var (reply, callErr) := method_(argv');
        var (reply', err) := if callErr.Some? then (Some(reply), callErr) else s.postCall(argv', reply);
        if err.Some? && !reply'.Some? then Handled(res, err)
        else if !err.Some? && IsOneway(req.header) then Handled(res, err)
        else Encoded(coder, res, reply')
  }

  /** `handleRequestForFunction`, which has no plugins and stops at an error. */
  function CallFunction(function_: Callable, coder: PayloadCodec, req: Message, res: Message): Handled {
    var (argv, decodeErr) := coder.decode(req.payload);
    if decodeErr.Some? then Handled(res, decodeErr)
    else
      var (reply, err) := function_(argv);
      if err.Some? || IsOneway(req.header) then Handled(res, err)
      else Encoded(coder, res, Some(reply))
  }

  /** `handleRequest` without its deferred call. */
  function Dispatch(s: Server, req: Message, pooled: Message): Handled {
    var res := ResponseTo(req, pooled);
    if req.servicePath !in s.services then
      Handled(HandleError(res, Some(Ascii("irpc: can't find service ") + req.servicePath)), None)
    else if CodecOf(req) !in s.codecs then
      var err := Some(Ascii("can't find codec for ") + Decimal(CodecOf(req)));
      Handled(HandleError(res, err), err)
    else
      var service, coder := s.services[req.servicePath], s.codecs[CodecOf(req)];
      if req.serviceMethod in service.methods then
        CallMethod(s, service.methods[req.serviceMethod], coder, req, res)
      else if req.serviceMethod in service.functions then
        CallFunction(service.functions[req.serviceMethod], coder, req, res)
      else
        Handled(HandleError(res, Some(Ascii("irpc: can't find method ") + req.serviceMethod)), None)
  }

  /** A serialize type, which has four bits, in decimal. */
  function Decimal(d: byte): Bytes {
    if d < 10 then [48 + d] else [48 + d / 10, 48 + d % 10]
  }

  /** A deferred call has the receiver and the argument of the moment it was deferred. */
  datatype Deferred = HandlesError(receiver: Option<Message>, argument: Failure)

  /** What the deferred call leaves of its receiver. */
  function RunDeferred(d: Deferred): Option<Message> {
    match d.receiver
    case None => None
    case Some(m) => Some(HandleError(m, d.argument))
  }

  /**
   * `handleRequest`: its deferred call was given the results' initial values, nil and nil, and so runs on
   * no response and with no error, whatever was assigned in between.
   */
  function HandleRequest(s: Server, req: Message, pooled: Message): Handled {
    var deferred := HandlesError(None, None);
    var handled := Dispatch(s, req, pooled);
    var after := RunDeferred(deferred);
    if after.Some? then handled.(res := after.value) else handled
  }

  /** Metadata the handler added goes into the response where it holds nothing yet. */
  function Merged(metadata: Metadata, extra: Metadata, k: Bytes): Bytes
    requires k in metadata || k in extra
  {
    if k in metadata && (metadata[k] != [] || k !in extra) then metadata[k] else extra[k]
  }

  function AddMetadata(res: Message, extra: Metadata): Message {
    res.(metadata := map k | k in res.metadata.Keys + extra.Keys :: Merged(res.metadata, extra, k))
  }

  /** `sendResponse`: long payloads are compressed as the request was. */
  function SendResponse(req: Message, res: Message): Message {
    if |res.payload| > 1024 && CompressType(req.header) != NONE
    then res.(header := Set(res.header, SetCompressType(CompressType(req.header))))
    else res
  }

  /** Every response a server can put on the wire for `req`. */
  ghost predicate IsServerResponse(req: Message, res: Message) {
    || (IsHeartbeat(req.header) && res == HeartbeatResponse(req))
    || (!IsOneway(req.header) && exists s, pooled, extra ::
          res == SendResponse(req, AddMetadata(HandleRequest(s, req, pooled).res, extra)))
    || (!IsOneway(req.header) && exists pooled, err :: res == SendResponse(req, HandleError(ResponseTo(req, pooled), err)))
  }

  /** What makes the client's reader take the response to the call that waits for it. */
  ghost predicate Answers(req: Message, res: Message) {
    && MessageType(res.header) == RESPONSE && Seq(res.header) == Seq(req.header)
    && res.servicePath == req.servicePath && res.serviceMethod == req.serviceMethod
    && res.header[0] == req.header[0]
  }

  /** The reader's test for a message the server pushed on its own. */
  predicate IsServerMessage(res: Message) {
    MessageType(res.header) == REQUEST && !IsHeartbeat(res.header) && IsOneway(res.header)
  }

  /** Setters that touch neither type nor number, or only raise the type, keep an answer an answer. */
  lemma SettersKeepAnswers(h: HeaderBytes, op: Setter)
    requires op.SetCompressType? || op.SetMessageStatusType? || op == SetMessageType(RESPONSE)
    ensures Seq(Set(h, op)) == Seq(h) && Set(h, op)[0] == h[0]
    ensures MessageType(h) == RESPONSE ==> MessageType(Set(h, op)) == RESPONSE
    ensures op == SetMessageType(RESPONSE) ==> MessageType(Set(h, op)) == RESPONSE
  {
    hide Seq;
    SeqIsInLastBytes(h, Set(h, op));
  }

  lemma ResponseToAnswers(req: Message, pooled: Message)
    ensures Answers(req, ResponseTo(req, pooled))
  {
    hide Set, Seq, MessageType;
    var h := Set(req.header, SetCompressType(NONE));
    SettersKeepAnswers(req.header, SetCompressType(NONE));
    SettersKeepAnswers(h, SetMessageType(RESPONSE));
  }

  lemma HandleErrorAnswers(req: Message, res: Message, err: Failure)
    requires Answers(req, res)
    ensures Answers(req, HandleError(res, err))
  {
    hide Set, Seq, MessageType;
    SettersKeepAnswers(res.header, SetMessageStatusType(ERROR));
  }

  /** All that handling can do to the response: mark it when the request is refused, else give it a payload. */
  lemma HandledShape(s: Server, req: Message, pooled: Message)
    ensures var res, h := ResponseTo(req, pooled), HandleRequest(s, req, pooled);
      if Refused(s, req) then exists text :: h.res == HandleError(res, Some(text))
      else h.res == res.(payload := h.res.payload)
  {
    hide ResponseTo, HandleError, Ascii, Decimal, CodecOf, IsOneway;
    var res := ResponseTo(req, pooled);
    if req.servicePath !in s.services {
      assert HandleRequest(s, req, pooled).res
          == HandleError(res, Some(Ascii("irpc: can't find service ") + req.servicePath));
    } else if CodecOf(req) !in s.codecs {
      assert HandleRequest(s, req, pooled).res
          == HandleError(res, Some(Ascii("can't find codec for ") + Decimal(CodecOf(req))));
    } else if Refused(s, req) {
      assert HandleRequest(s, req, pooled).res
          == HandleError(res, Some(Ascii("irpc: can't find method ") + req.serviceMethod));
    }
  }

  lemma HandleRequestAnswers(s: Server, req: Message, pooled: Message)
    ensures Answers(req, HandleRequest(s, req, pooled).res)
  {
    hide Seq, MessageType, ResponseTo, HandleError, HandleRequest, Refused;
    var res, h := ResponseTo(req, pooled), HandleRequest(s, req, pooled);
    ResponseToAnswers(req, pooled);
    HandledShape(s, req, pooled);
    if Refused(s, req) {
      var text :| h.res == HandleError(res, Some(text));
      HandleErrorAnswers(req, res, Some(text));
    }
  }

  lemma SendResponseAnswers(req: Message, like: Message, res: Message)
    requires Answers(req, res)
    ensures Answers(req, SendResponse(like, res))
  {
    hide Set, Seq, MessageType;
    SettersKeepAnswers(res.header, SetCompressType(CompressType(like.header)));
  }

  lemma AddMetadataAnswers(req: Message, res: Message, extra: Metadata)
    requires Answers(req, res)
    ensures Answers(req, AddMetadata(res, extra))
  {
  }

  /** Every response a server builds answers its request. */
  lemma ServerResponsesAnswer(req: Message, res: Message)
    requires IsServerResponse(req, res)
    ensures Answers(req, res)
  {
    hide Answers, HandleRequest, SendResponse, AddMetadata, ResponseTo, HandleError;
    if IsHeartbeat(req.header) && res == HeartbeatResponse(req) {
      HeartbeatAnswers(req);
    } else if s, pooled, extra :| res == SendResponse(req, AddMetadata(HandleRequest(s, req, pooled).res, extra)) {
      var handled := HandleRequest(s, req, pooled).res;
      HandleRequestAnswers(s, req, pooled);
      AddMetadataAnswers(req, handled, extra);
      SendResponseAnswers(req, req, AddMetadata(handled, extra));
    } else {
      var pooled, err :| res == SendResponse(req, HandleError(ResponseTo(req, pooled), err));
      ResponseToAnswers(req, pooled);
      HandleErrorAnswers(req, ResponseTo(req, pooled), err);
      SendResponseAnswers(req, req, HandleError(ResponseTo(req, pooled), err));
    }
  }

  lemma HeartbeatAnswers(req: Message)
    ensures Answers(req, HeartbeatResponse(req))
  {
    hide Set, Seq, MessageType;
    SettersKeepAnswers(req.header, SetMessageType(RESPONSE));
  }

  lemma SentAnswers(req: Message, res: Message, cs: Compressors)
    requires Answers(req, res)
    ensures Answers(req, Zipped(res, cs).0)
  {
    hide Set, Seq, MessageType, CompressType;
    SettersKeepAnswers(res.header, SetCompressType(NONE));
  }

  /**
   * Any server response, encoded, sent and decoded by the client, carries the request's number and
   * names, is a response, and so goes to the pending call and never to the server-message channel.
   */
  lemma ResponsesReachTheirCall(req: Message, res: Message, order: seq<Bytes>, cs: Compressors,
                                maxLength: nat, target: Message, stream: Bytes, i: nat)
    requires IsServerResponse(req, res) && CheckMagicNumber(req.header)
    requires Lawful(cs) && IsIterationOrder(order, res.metadata) && Fits(BodyOf(res, order, cs), maxLength)
    requires At(stream, i, Frame(res, order, cs))
    ensures var d := Decode(target, cs, maxLength, stream, i);
      d.Got? && Answers(req, d.m) && !IsServerMessage(d.m)
  {
    hide IsServerResponse, Decode, Zipped, Frame, BodyOf, Seq, MessageType, At, Lawful, Fits;
    ServerResponsesAnswer(req, res);
    SentAnswers(req, res, cs);
    RoundTrip(target, res, order, cs, maxLength, stream, i);
  }

  /**
   * The whole way round: a request goes out under a number, the server answers what it decoded, and
   * what the client decodes carries that number and the request's names.
   */
  lemma NumberComesBack(req: Message, order: seq<Bytes>, cs: Compressors, maxLength: nat,
                        serverTarget: Message, up: Bytes, i: nat,
                        res: Message, order': seq<Bytes>, clientTarget: Message, down: Bytes, j: nat)
    requires Lawful(cs) && CheckMagicNumber(req.header)
    requires IsIterationOrder(order, req.metadata) && Fits(BodyOf(req, order, cs), maxLength)
    requires At(up, i, Frame(req, order, cs))
    requires var got := Decode(serverTarget, cs, maxLength, up, i); got.Got? ==> IsServerResponse(got.m, res)
    requires IsIterationOrder(order', res.metadata) && Fits(BodyOf(res, order', cs), maxLength)
    requires At(down, j, Frame(res, order', cs))
    ensures Decode(serverTarget, cs, maxLength, up, i).Got?
    ensures var d := Decode(clientTarget, cs, maxLength, down, j);
      d.Got? && Answers(req, d.m) && !IsServerMessage(d.m)
  {
    hide IsServerResponse, Decode, Zipped, Frame, BodyOf, Seq, MessageType, At, Lawful, Fits;
    RoundTrip(serverTarget, req, order, cs, maxLength, up, i);
    var got := Decode(serverTarget, cs, maxLength, up, i).m;
    SentKeepsNumber(req, cs);
    ResponsesReachTheirCall(got, res, order', cs, maxLength, clientTarget, down, j);
  }

  lemma SentKeepsNumber(m: Message, cs: Compressors)
    ensures var sent := Zipped(m, cs).0;
      && Seq(sent.header) == Seq(m.header) && sent.header[0] == m.header[0]
      && sent.servicePath == m.servicePath && sent.serviceMethod == m.serviceMethod
  {
    hide Set, Seq, CompressType;
    SettersKeepAnswers(m.header, SetCompressType(NONE));
  }

  // ----- What a response says about a failure

  /**
   * A response says that the request failed exactly when there was nothing to call, or the request
   * itself was so marked; a failure to decode, call or encode never shows.
   */
  lemma ErrorStatusIff(s: Server, req: Message, pooled: Message)
    ensures MessageStatusType(HandleRequest(s, req, pooled).res.header) == ERROR
       <==> Refused(s, req) || MessageStatusType(req.header) == ERROR
  {
    hide ResponseTo, Refused, HandleRequest, HandleError, MessageStatusType;
    var res, h := ResponseTo(req, pooled), HandleRequest(s, req, pooled);
    StatusOfResponse(req, pooled);
    HandledShape(s, req, pooled);
    if Refused(s, req) {
      var text :| h.res == HandleError(res, Some(text));
      StatusOfError(res, text);
    }
  }

  /** Nor does its text: the handling puts an error text into the metadata exactly when it refuses. */
  lemma ErrorTextIff(s: Server, req: Message, pooled: Message)
    requires pooled.metadata == map[]
    ensures SERVICE_ERROR in HandleRequest(s, req, pooled).res.metadata <==> Refused(s, req)
  {
    hide Refused, HandleRequest, Set;
    HandledShape(s, req, pooled);
  }

  /** The texts, and for which of them an error is returned as well. */
  lemma RefusalTexts(s: Server, req: Message, pooled: Message)
    requires Refused(s, req)
    ensures var h := HandleRequest(s, req, pooled);
      && SERVICE_ERROR in h.res.metadata
      && var text := h.res.metadata[SERVICE_ERROR];
      if req.servicePath !in s.services
      then text == Ascii("irpc: can't find service ") + req.servicePath && h.err == None
      else if CodecOf(req) !in s.codecs
      then text == Ascii("can't find codec for ") + Decimal(CodecOf(req)) && h.err == Some(text)
      else text == Ascii("irpc: can't find method ") + req.serviceMethod && h.err == None
  {
    hide Ascii, Decimal, CodecOf, Set;
  }

  lemma StatusOfResponse(req: Message, pooled: Message)
    ensures MessageStatusType(ResponseTo(req, pooled).header) == MessageStatusType(req.header)
  {
    hide Set, Abstract;
    var h := Set(req.header, SetCompressType(NONE));
    SetterRefinesUpdate(req.header, SetCompressType(NONE));
    SetterRefinesUpdate(h, SetMessageType(RESPONSE));
    StatusOf(req.header);
    StatusOf(h);
    StatusOf(Set(h, SetMessageType(RESPONSE)));
  }

  lemma StatusOf(h: HeaderBytes)
    ensures Abstract(h).status == MessageStatusType(h)
  {
  }

  lemma StatusOfError(res: Message, text: Bytes)
    ensures MessageStatusType(HandleError(res, Some(text)).header) == ERROR
  {
  }

  /** The request gets as far as its method, which is called on `argv`. */
  ghost predicate Reaches(s: Server, req: Message, argv: Object) {
    && !Refused(s, req) && req.serviceMethod in s.services[req.servicePath].methods
    && var (decoded, err) := s.codecs[CodecOf(req)].decode(req.payload);
    && err == None && s.preCall(decoded) == (argv, None)
  }

  ghost function MethodOf(s: Server, req: Message): Callable
    requires req.servicePath in s.services && req.serviceMethod in s.services[req.servicePath].methods
  {
    s.services[req.servicePath].methods[req.serviceMethod]
  }

  // ----- What a response carries

  /** The request gets its reply from a method: called, passed by the plugins, and encoded as `data`. */
  ghost predicate MethodReplies(s: Server, req: Message, argv: Object, r: Object, r': Object, data: Bytes) {
    && Reaches(s, req, argv) && MethodOf(s, req)(argv) == (r, None)
    && s.postCall(argv, r) == (Some(r'), None) && s.codecs[CodecOf(req)].encode(Some(r')) == (data, None)
  }

  /** The request gets as far as its function, which is called on `argv`. */
  ghost predicate ReachesFunction(s: Server, req: Message, argv: Object) {
    && !Refused(s, req) && req.serviceMethod !in s.services[req.servicePath].methods
    && s.codecs[CodecOf(req)].decode(req.payload) == (argv, None)
  }

  ghost function FunctionOf(s: Server, req: Message): Callable
    requires req.servicePath in s.services && req.serviceMethod in s.services[req.servicePath].functions
  {
    s.services[req.servicePath].functions[req.serviceMethod]
  }

  ghost predicate FunctionReplies(s: Server, req: Message, argv: Object, r: Object, data: Bytes) {
    && ReachesFunction(s, req, argv) && FunctionOf(s, req)(argv) == (r, None)
    && s.codecs[CodecOf(req)].encode(Some(r)) == (data, None)
  }

  ghost predicate Replies(s: Server, req: Message, data: Bytes) {
    || (exists argv, r, r' :: MethodReplies(s, req, argv, r, r', data))
    || (exists argv, r :: FunctionReplies(s, req, argv, r, data))
  }

  /** The encoded reply is the response's payload, and no error is returned. */
  lemma ReplyIsPayload(s: Server, req: Message, pooled: Message, data: Bytes)
    requires Replies(s, req, data) && !IsOneway(req.header)
    ensures HandleRequest(s, req, pooled) == Handled(ResponseTo(req, pooled).(payload := data), None)
  {
    hide ResponseTo, HandleError, Ascii, Decimal, CodecOf, IsOneway;
    if argv, r, r' :| MethodReplies(s, req, argv, r, r', data) {
      assert HandleRequest(s, req, pooled).res == ResponseTo(req, pooled).(payload := data);
    } else {
      var argv, r :| FunctionReplies(s, req, argv, r, data);
      assert HandleRequest(s, req, pooled).res == ResponseTo(req, pooled).(payload := data);
    }
  }

  /** A one-way request that is carried out leaves the response as it was built. */
  lemma OnewayHasNoPayload(s: Server, req: Message, pooled: Message, data: Bytes)
    requires Replies(s, req, data) && IsOneway(req.header)
    ensures HandleRequest(s, req, pooled) == Handled(ResponseTo(req, pooled), None)
  {
    hide ResponseTo, HandleError, Ascii, Decimal, CodecOf, IsOneway;
    if argv, r, r' :| MethodReplies(s, req, argv, r, r', data) {
      assert HandleRequest(s, req, pooled).res == ResponseTo(req, pooled);
    } else {
      var argv, r :| FunctionReplies(s, req, argv, r, data);
      assert HandleRequest(s, req, pooled).res == ResponseTo(req, pooled);
    }
  }

  /** Arguments that do not decode, and a plugin that objects: their error is returned beside the response as built. */
  lemma EarlyErrors(s: Server, req: Message, pooled: Message, text: Bytes)
    requires !Refused(s, req)
    ensures var (argv, err) := s.codecs[CodecOf(req)].decode(req.payload);
      && (err == Some(text) ==> HandleRequest(s, req, pooled) == Handled(ResponseTo(req, pooled), Some(text)))
      && (err == None && req.serviceMethod in s.services[req.servicePath].methods && s.preCall(argv).1 == Some(text) ==>
            HandleRequest(s, req, pooled) == Handled(ResponseTo(req, pooled), Some(text)))
  {
    hide ResponseTo, HandleError, Ascii, Decimal, CodecOf, IsOneway, Encoded;
  }

  /**
   * Errors of the call itself: a function's is returned beside the response as built; a method's, or a
   * plugin's after it, is replaced by the outcome of encoding the reply, unless there is none.
   */
  lemma CallErrors(s: Server, req: Message, pooled: Message, argv: Object, text: Bytes)
    ensures ReachesFunction(s, req, argv) && FunctionOf(s, req)(argv).1 == Some(text) ==>
      HandleRequest(s, req, pooled) == Handled(ResponseTo(req, pooled), Some(text))
    ensures Reaches(s, req, argv) && MethodOf(s, req)(argv).1 == Some(text) ==>
      var (data, err) := s.codecs[CodecOf(req)].encode(Some(MethodOf(s, req)(argv).0));
      HandleRequest(s, req, pooled) == Handled(ResponseTo(req, pooled).(payload := data), err)
    ensures Reaches(s, req, argv) && MethodOf(s, req)(argv).1 == None ==>
      s.postCall(argv, MethodOf(s, req)(argv).0) == (None, Some(text)) ==>
      HandleRequest(s, req, pooled) == Handled(ResponseTo(req, pooled), Some(text))
  {
    hide ResponseTo, HandleError, Ascii, Decimal, CodecOf, IsOneway;
  }

  /** The response as built: the request's header, made a response without compression, on a pooled message. */
  lemma ResponseRecord(req: Message, pooled: Message)
    ensures var res := ResponseTo(req, pooled);
      && Abstract(res.header) == Abstract(req.header).(compress := NONE, response := true)
      && res == Message(res.header, req.servicePath, req.serviceMethod, pooled.metadata, pooled.payload)
  {
    hide Set, Abstract;
    var h := Set(req.header, SetCompressType(NONE));
    SetterRefinesUpdate(req.header, SetCompressType(NONE));
    SetterRefinesUpdate(h, SetMessageType(RESPONSE));
  }

  /** Metadata the response has already is kept; the handler's fills what is missing or empty. */
  lemma MergedMetadata(res: Message, extra: Metadata, k: Bytes)
    ensures var m, m' := res.metadata, AddMetadata(res, extra).metadata;
      && (k in m' <==> k in m || k in extra)
      && (k in m && m[k] != [] ==> m'[k] == m[k])
      && (k in extra && (k !in m || m[k] == []) ==> m'[k] == extra[k])
      && (k in m && k !in extra ==> m'[k] == m[k])
  {
  }

  /**
   * A method that leaves a reply and fails is answered, and reported to the caller of `handleRequest`,
   * exactly like a method that leaves the same reply and succeeds.
   */
  lemma FailureLooksLikeSuccess(s: Server, s': Server, req: Message, pooled: Message,
                                argv: Object, reply: Object, text: Bytes)
    requires Reaches(s, req, argv) && MethodOf(s, req)(argv) == (reply, Some(text))
    requires Reaches(s', req, argv) && MethodOf(s', req)(argv) == (reply, None)
    requires s'.postCall(argv, reply) == (Some(reply), None)
    requires s'.codecs == s.codecs && !IsOneway(req.header)
    ensures HandleRequest(s, req, pooled) == HandleRequest(s', req, pooled)
  {
    hide ResponseTo, HandleError, Ascii, Decimal, CodecOf, IsOneway, Encoded;
  }

  /**
   * The deferred call would have marked the response had it been given the results as they are at the
   * end. Giving it the initial ones makes no difference exactly when no error is returned, or when the
   * codec is missing, which marks the response itself.
   */
  lemma DeferIsHarmlessIff(s: Server, req: Message, pooled: Message)
    requires MessageStatusType(req.header) != ERROR
    ensures var h := HandleRequest(s, req, pooled);
      HandleError(h.res, h.err) == h.res <==> !h.err.Some? || Refused(s, req)
  {
    var h := HandleRequest(s, req, pooled);
    ErrorStatusIff(s, req, pooled);
    if Refused(s, req) {
      RefusedTwice(s, req, pooled);
    } else if h.err.Some? {
      StatusOfError(h.res, h.err.value);
    }
  }

  lemma RefusedTwice(s: Server, req: Message, pooled: Message)
    requires Refused(s, req)
    ensures var h := HandleRequest(s, req, pooled); HandleError(h.res, h.err) == h.res
  {
    hide ResponseTo, Ascii, Decimal, Set, CodecOf;
    var res := ResponseTo(req, pooled);
    ErrorStatusTwice(res.header);
  }

  lemma ErrorStatusTwice(h: HeaderBytes)
    ensures var h' := Set(h, SetMessageStatusType(ERROR)); Set(h', SetMessageStatusType(ERROR)) == h'
  {
  }

  /** One method, which fails; the client is told of a normal response, and the server of no error. */
  lemma SilentFailure()
    returns (s: Server, req: Message)
    ensures Reaches(s, req, 0) && MethodOf(s, req)(0).1 == Some([33])
    ensures forall pooled ::
      var h := HandleRequest(s, req, pooled); MessageStatusType(h.res.header) != ERROR && h.err == None
  {
    var fails: Callable := _ => (0, Some([33]));
    var decode: Bytes -> (Object, Failure) := _ => (0, None);
    var encode: Option<Object> -> (Bytes, Failure) := _ => ([], None);
    var coder := PayloadCodec(decode, encode);
    s := Server(map[[83] := Service(map[[77] := fails], map[])], map[0 := coder], a => (a, None), (_, r) => (Some(r), None));
    req := NewMessage().(servicePath := [83], serviceMethod := [77]);
    assert SerializeType(req.header) == 0 && MessageStatusType(req.header) == 0;
    assert s.codecs[0] == coder;
    assert decode(req.payload) == (0, None) && s.preCall(0) == (0, None);
    assert fails(0) == (0, Some([33])) && encode(Some(0)) == ([], None);
    forall pooled
      ensures var h := HandleRequest(s, req, pooled); MessageStatusType(h.res.header) != ERROR && h.err == None
    {
      ErrorStatusIff(s, req, pooled);
    }
  }

  // ----- The code

  /** The head of `handleRequest` and `handleError`: the response is a clone that says so. */
  method Respond(req: Msg, res: Msg)
    requires req.Valid() && res.Valid() && req != res
    modifies res
    ensures req.Valid() && req.Value() == old(req.Value())
    ensures res.Valid() && fresh(res.head) && fresh(res.head.bytes)
    ensures res.Value() == ResponseTo(old(req.Value()), old(res.Value()))
  {
    hide Set, Abstract, Update;
    req.CloneTo(res);
    ghost var h := res.head.Value();
    res.head.SetMessageType(RESPONSE);
    SetterIsDetermined(h, res.head.Value(), SetMessageType(RESPONSE));
  }

  /** A heartbeat request becomes an answer to itself; of the record, only the type has changed. */
  method ReuseHeartbeat(req: Msg)
    requires req.Valid() && IsHeartbeat(req.Value().header)
    modifies req.head.bytes
    ensures req.Valid() && IsServerResponse(old(req.Value()), req.Value()) && Answers(old(req.Value()), req.Value())
    ensures req.Value() == old(req.Value()).(header := req.Value().header)
    ensures Abstract(req.Value().header) == Abstract(old(req.Value()).header).(response := true)
  {
    hide Set, Abstract, Answers, IsHeartbeat;
    ghost var m := req.Value();
    req.head.SetMessageType(RESPONSE);
    SetterIsDetermined(m.header, req.head.Value(), SetMessageType(RESPONSE));
    assert req.Value() == HeartbeatResponse(m);
    HeartbeatAnswers(m);
  }

  /** Marks a response with an error, if there is one; what it answers, it still answers. */
  method MarkError(m: Msg?, err: Failure)
    requires m != null ==> m.Valid()
    requires err.Some? ==> m != null
    modifies if m == null then {} else {m, m.head.bytes}
    ensures m != null ==> m.Valid() && m.head == old(m.head)
    ensures m != null && !err.Some? ==> m.Value() == old(m.Value())
    ensures m != null && err.Some? ==>
      && m.Value() == old(m.Value()).(header := m.Value().header, metadata := old(m.metadata)[SERVICE_ERROR := err.value])
      && Abstract(m.Value().header) == Abstract(old(m.Value()).header).(status := ERROR)
    ensures m != null ==> forall req :: Answers(req, old(m.Value())) ==> Answers(req, m.Value())
  {
    hide Set, Abstract, Answers;
    if err.Some? {
      ghost var v := m.Value();
      m.head.SetMessageStatusType(ERROR);
      m.metadata := m.metadata[SERVICE_ERROR := err.value];
      MarkedIsHandleError(v, m.Value(), err);
      forall req | Answers(req, v) ensures Answers(req, m.Value()) {
        HandleErrorAnswers(req, v, err);
      }
    }
  }

  /** The mark, in terms of the record, determines the message. */
  lemma MarkedIsHandleError(m: Message, m': Message, err: Failure)
    requires err.Some?
    requires m' == m.(header := m'.header, metadata := m.metadata[SERVICE_ERROR := err.value])
    requires Abstract(m'.header) == Abstract(m.header).(status := ERROR)
    ensures m' == HandleError(m, err)
  {
    hide Set, Abstract;
    SetterIsDetermined(m.header, m'.header, SetMessageStatusType(ERROR));
  }

  method InvokeMethod(s: Server, callee: Callable, coder: PayloadCodec, req: Msg, res: Msg) returns (err: Failure)
    requires req.Valid() && res.Valid() && req != res
    modifies res`payload
    ensures res.Valid() && Handled(res.Value(), err) == CallMethod(s, callee, coder, req.Value(), old(res.Value()))
  {
    var (argv, decodeErr) := coder.decode(req.payload);
    if decodeErr.Some? {
      return decodeErr;
    }
    var (argv', preErr) := s.preCall(argv);
    if preErr.Some? {
      return preErr;
    }
    var (r, callErr) := callee(argv');
    var reply := Some(r);
    err := callErr;
    if !err.Some? {
      var (r', postErr) := s.postCall(argv', r);
      reply, err := r', postErr;
    }
    if err.Some? {
      if reply.Some? {
        var (data, encodeErr) := coder.encode(reply);
        res.payload, err := data, encodeErr;
      }
      return;
    }
    if !IsOneway(req.head.bytes[..]) {
      var (data, encodeErr) := coder.encode(reply);
      res.payload, err := data, encodeErr;
    }
  }

  method InvokeFunction(callee: Callable, coder: PayloadCodec, req: Msg, res: Msg) returns (err: Failure)
    requires req.Valid() && res.Valid() && req != res
    modifies res`payload
    ensures res.Valid() && Handled(res.Value(), err) == CallFunction(callee, coder, req.Value(), old(res.Value()))
  {
    var (argv, decodeErr) := coder.decode(req.payload);
    if decodeErr.Some? {
      return decodeErr;
    }
    var (reply, callErr) := callee(argv);
    err := callErr;
    if !err.Some? && !IsOneway(req.head.bytes[..]) {
      var (data, encodeErr) := coder.encode(Some(reply));
      res.payload, err := data, encodeErr;
    }
  }

  /** `handleRequest` between its deferral and its end. */
  method DispatchRequest(s: Server, req: Msg, pooled: Msg) returns (err: Failure)
    requires req.Valid() && pooled.Valid() && req != pooled
    modifies pooled
    ensures req.Valid() && req.Value() == old(req.Value())
    ensures pooled.Valid() && fresh(pooled.head) && fresh(pooled.head.bytes)
    ensures Handled(pooled.Value(), err) == Dispatch(s, old(req.Value()), old(pooled.Value()))
  {
    hide ResponseTo, Abstract, Answers, CallMethod, CallFunction, SerializeType, HandleError, Ascii, Decimal;
    Respond(req, pooled);
    ghost var res := pooled.Value();
    err := None;
    if req.servicePath !in s.services {
      ghost var text := Some(Ascii("irpc: can't find service ") + req.servicePath);
      MarkError(pooled, Some(Ascii("irpc: can't find service ") + req.servicePath));
      MarkedIsHandleError(res, pooled.Value(), text);
      return;
    }
    var service, ct := s.services[req.servicePath], SerializeType(req.head.bytes[..]) as int;
    assert ct == CodecOf(req.Value());
    if ct !in s.codecs {
      err := Some(Ascii("can't find codec for ") + Decimal(ct));
      MarkError(pooled, err);
      MarkedIsHandleError(res, pooled.Value(), err);
      return;
    }
    var coder := s.codecs[ct];
    if req.serviceMethod !in service.methods {
      if req.serviceMethod in service.functions {
        err := InvokeFunction(service.functions[req.serviceMethod], coder, req, pooled);
        return;
      }
      ghost var text := Some(Ascii("irpc: can't find method ") + req.serviceMethod);
      MarkError(pooled, Some(Ascii("irpc: can't find method ") + req.serviceMethod));
      MarkedIsHandleError(res, pooled.Value(), text);
      return;
    }
    err := InvokeMethod(s, service.methods[req.serviceMethod], coder, req, pooled);
  }

  /**
   * `handleRequest`: the receiver and the argument of its deferred call are taken when it is deferred,
   * before either result has been assigned.
   */
  method ServeRequest(s: Server, req: Msg, pooled: Msg) returns (res: Msg?, err: Failure)
    requires req.Valid() && pooled.Valid() && req != pooled
    modifies pooled
    ensures req.Valid() && req.Value() == old(req.Value())
    ensures res == pooled && pooled.Valid() && fresh(pooled.head) && fresh(pooled.head.bytes)
    ensures Handled(pooled.Value(), err) == HandleRequest(s, old(req.Value()), old(pooled.Value()))
    ensures Answers(old(req.Value()), pooled.Value())
    ensures MessageStatusType(pooled.Value().header) == ERROR
       <==> Refused(s, old(req.Value())) || MessageStatusType(old(req.Value()).header) == ERROR
    ensures forall data :: Replies(s, old(req.Value()), data) && !IsOneway(old(req.Value()).header) ==>
      pooled.payload == data && err == None
  {
    hide Dispatch, Answers, Refused, MessageStatusType, Abstract, Replies, IsOneway;
    ghost var was, m := pooled.Value(), req.Value();
    res, err := null, None;
    var receiver, argument := res, err;
    err := DispatchRequest(s, req, pooled);
    res := pooled;
    MarkError(receiver, argument);
    HandleRequestAnswers(s, m, was);
    ErrorStatusIff(s, m, was);
    forall data | Replies(s, m, data) && !IsOneway(m.header) ensures pooled.payload == data && err == None {
      ReplyIsPayload(s, m, was, data);
    }
  }

  /** The `range` over what the handler put into its context. */
  method AddHandlerMetadata(res: Msg, extra: Metadata, order: seq<Bytes>)
    requires res.Valid() && IsIterationOrder(order, extra)
    modifies res`metadata
    ensures res.Valid() && res.Value() == AddMetadata(old(res.Value()), extra)
  {
    ghost var was := res.metadata;
    for i := 0 to |order|
      invariant res.metadata == MergedUpTo(was, extra, order, i)
    {
      var k := order[i];
      if k !in res.metadata || res.metadata[k] == [] {
        res.metadata := res.metadata[k := extra[k]];
      }
    }
    MergedInOrder(old(res.Value()), extra, order);
  }

  ghost function MergedUpTo(metadata: Metadata, extra: Metadata, order: seq<Bytes>, n: nat): Metadata
    requires n <= |order| && forall i :: 0 <= i < |order| ==> order[i] in extra
  {
    if n == 0 then metadata
    else
      var m, k := MergedUpTo(metadata, extra, order, n - 1), order[n - 1];
      if k !in m || m[k] == [] then m[k := extra[k]] else m
  }

  lemma {:induction false} MergedAt(metadata: Metadata, extra: Metadata, order: seq<Bytes>, n: nat, k: Bytes)
    requires n <= |order| && IsIterationOrder(order, extra)
    ensures var m := MergedUpTo(metadata, extra, order, n);
      if exists i :: 0 <= i < n && order[i] == k then k in m && m[k] == Merged(metadata, extra, k)
      else (k in m <==> k in metadata) && (k in m ==> m[k] == metadata[k])
  {
    if n > 0 {
      MergedAt(metadata, extra, order, n - 1, k);
    }
  }

  /** Whatever the order, the loop merges. */
  lemma MergedInOrder(res: Message, extra: Metadata, order: seq<Bytes>)
    requires IsIterationOrder(order, extra)
    ensures MergedUpTo(res.metadata, extra, order, |order|) == AddMetadata(res, extra).metadata
  {
    var m, m' := MergedUpTo(res.metadata, extra, order, |order|), AddMetadata(res, extra).metadata;
    forall k ensures k in m <==> k in m' {
      MergedAt(res.metadata, extra, order, |order|, k);
    }
    forall k | k in m ensures k in m' && m[k] == m'[k] {
      MergedAt(res.metadata, extra, order, |order|, k);
    }
  }

  /** Everything after `handleRequest` up to the write; nothing is sent for a one-way request. */
  method RespondToRequest(s: Server, req: Msg, pooled: Msg, extra: Metadata, order: seq<Bytes>) returns (sent: bool)
    requires req.Valid() && pooled.Valid() && req != pooled && IsIterationOrder(order, extra)
    modifies pooled
    ensures req.Valid() && req.Value() == old(req.Value()) && pooled.Valid()
    ensures sent == !IsOneway(old(req.Value()).header)
    ensures sent ==> IsServerResponse(old(req.Value()), pooled.Value())
    ensures sent ==> forall data :: Replies(s, old(req.Value()), data) ==> pooled.payload == data
  {
    hide HandleRequest, Answers, Refused, SendResponse, Abstract, IsOneway, IsHeartbeat, Replies;
    ghost var was, m := pooled.Value(), req.Value();
    var res, err := ServeRequest(s, req, pooled);
    sent := !IsOneway(req.head.bytes[..]);
    if sent {
      AddHandlerMetadata(pooled, extra, order);
      ghost var full := pooled.Value();
      CompressLikeRequest(req, pooled);
      CompressedIsSendResponse(m, full, pooled.Value());
      assert pooled.Value() == SendResponse(m, AddMetadata(HandleRequest(s, m, was).res, extra));
    }
  }

  /** `handleError` up to the write. */
  method RespondWithError(req: Msg, res: Msg, err: Failure) returns (sent: bool)
    requires req.Valid() && res.Valid() && req != res
    modifies res
    ensures req.Valid() && req.Value() == old(req.Value()) && res.Valid()
    ensures sent == !IsOneway(old(req.Value()).header)
    ensures if sent then IsServerResponse(old(req.Value()), res.Value()) else res.Value() == old(res.Value())
  {
    hide ResponseTo, SendResponse, Answers, Abstract, IsOneway, IsHeartbeat, Set;
    ghost var pooled, m := res.Value(), req.Value();
    sent := !IsOneway(req.head.bytes[..]);
    if sent {
      Respond(req, res);
      ghost var clone := res.Value();
      MarkError(res, err);
      if err.Some? {
        MarkedIsHandleError(clone, res.Value(), err);
      }
      ghost var marked := res.Value();
      CompressLikeRequest(req, res);
      CompressedIsSendResponse(m, marked, res.Value());
      assert res.Value() == SendResponse(m, HandleError(ResponseTo(m, pooled), err));
    }
  }

  /** Only the compression type changes, and only for a long payload; what is answered is still answered. */
  method CompressLikeRequest(req: Msg, res: Msg)
    requires req.Valid() && res.Valid() && req.head.bytes != res.head.bytes
    modifies res.head.bytes
    ensures req.Valid() && req.Value() == old(req.Value())
    ensures res.Valid() && res.Value() == old(res.Value()).(header := res.Value().header)
    ensures var ct, was := CompressType(req.Value().header), Abstract(old(res.Value()).header);
      Abstract(res.Value().header) == was.(compress := if |res.payload| > 1024 && ct != NONE then ct else was.compress)
    ensures forall r :: Answers(r, old(res.Value())) ==> Answers(r, res.Value())
  {
    hide Set, Abstract, Update, Answers, CompressType;
    ghost var v := res.Value();
    var ct := CompressType(req.head.bytes[..]);
    if |res.payload| > 1024 && ct != NONE {
      res.head.SetCompressType(ct);
      SetterIsDetermined(v.header, res.head.Value(), SetCompressType(ct));
    }
    assert res.Value() == SendResponse(req.Value(), v);
    SendResponseRecord(req.Value(), v);
  }

  lemma SendResponseRecord(req: Message, res: Message)
    ensures var ct, was := CompressType(req.header), Abstract(res.header);
      Abstract(SendResponse(req, res).header)
      == was.(compress := if |res.payload| > 1024 && ct != NONE then ct else was.compress)
    ensures forall r :: Answers(r, res) ==> Answers(r, SendResponse(req, res))
  {
    hide Set, Abstract, Answers, CompressType;
    SetterRefinesUpdate(res.header, SetCompressType(CompressType(req.header)));
    CompressTypeFits(req.header);
    forall r | Answers(r, res) ensures Answers(r, SendResponse(req, res)) {
      SendResponseAnswers(r, req, res);
    }
  }

  /** The compression, in terms of the record, determines the message. */
  lemma CompressedIsSendResponse(req: Message, m: Message, m': Message)
    requires m' == m.(header := m'.header)
    requires var ct, was := CompressType(req.header), Abstract(m.header);
      Abstract(m'.header) == was.(compress := if |m.payload| > 1024 && ct != NONE then ct else was.compress)
    ensures m' == SendResponse(req, m)
  {
    hide Set, Abstract, CompressType;
    var ct := CompressType(req.header);
    if |m.payload| > 1024 && ct != NONE {
      CompressTypeFits(req.header);
      SetterIsDetermined(m.header, m'.header, SetCompressType(ct));
    } else {
      AbstractIsInjective(m'.header, m.header);
    }
  }

  lemma CompressTypeFits(h: HeaderBytes)
    ensures CompressType(h) & 0x07 == CompressType(h)
  {
  }
}
