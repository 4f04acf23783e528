/** A call's way to the server and back, from the number it was registered under to its `done`. */
module EndToEnd {
  import opened Common
  import opened Header
  import opened Wire
  import opened M = Message
  import opened S = ServerResponse
  import P = PendingCalls

  /** The number a message carries, as the client's map counts. */
  function NumberOf(m: Message): nat {
    Seq(m.header) as int
  }

  /** A reply with the number of a pending call takes that call out of the map and goes to no other. */
  lemma ReplyTakes(t: P.State, c: P.CallId, k: nat)
    requires P.Reachable(t) && t.sends <= WORD64 && P.IsPending(t, c) && t.calls[c].number == Some(k)
    requires P.Enabled(t, P.Reply(k))
    ensures var t' := P.Next(t, P.Reply(k));
      && t'.reader == P.ReaderOwing(c) && t'.deliveries == t.deliveries + [(k, c)]
      && !P.IsPending(t', c) && (forall d: P.CallId :: d != c ==> P.IsPending(t', d) == P.IsPending(t, d))
  {
    P.ReachableInvariant(t);
    hide P.AllAccounted, P.Flagged;
    forall d: P.CallId | d != c && P.IsPending(t, d) ensures P.Number(t, d) != k {
      assert t.sh.pending[t.calls[d].number.value] == d;
    }
  }

  /**
   * A client registers call `c` and sends its request. Whatever the server answers to what it decoded,
   * what the client decodes is handed to call `c`, and to it alone.
   */
  lemma AnswerReachesItsCall(t: P.State, c: P.CallId, req: Message, order: seq<Bytes>, cs: Compressors, maxLength: nat,
                             serverTarget: Message, up: Bytes, i: nat,
                             res: Message, order': seq<Bytes>, clientTarget: Message, down: Bytes, j: nat)
    requires P.Reachable(t) && t.sends <= WORD64 && !t.crashed && t.reader.Reading?
    requires P.IsPending(t, c) && t.calls[c].number == Some(NumberOf(req))
    requires Lawful(cs) && CheckMagicNumber(req.header)
    requires IsIterationOrder(order, req.metadata) && Fits(BodyOf(req, order, cs), maxLength)
    requires At(up, i, Frame(req, order, cs))
    requires var got := Decode(serverTarget, cs, maxLength, up, i); got.Got? ==> IsServerResponse(got.m, res)
    requires IsIterationOrder(order', res.metadata) && Fits(BodyOf(res, order', cs), maxLength)
    requires At(down, j, Frame(res, order', cs))
    ensures var d := Decode(clientTarget, cs, maxLength, down, j);
      && d.Got? && !IsServerMessage(d.m) && P.Enabled(t, P.Reply(NumberOf(d.m)))
      && var t' := P.Next(t, P.Reply(NumberOf(d.m)));
      && t'.reader == P.ReaderOwing(c) && !P.IsPending(t', c)
      && (forall d: P.CallId :: d != c ==> P.IsPending(t', d) == P.IsPending(t, d))
  {
    hide IsServerResponse, Decode, Frame, BodyOf, Seq, MessageType, At, Lawful, Fits, IsServerMessage,
         P.Reachable, P.IsPending, P.Next;
    NumberComesBack(req, order, cs, maxLength, serverTarget, up, i, res, order', clientTarget, down, j);
    ReplyTakes(t, c, NumberOf(req));
  }

  // ----- Whether the client learns of a failure

  /** Changing the compression type leaves the status and the serialize type. */
  lemma CompressionAside(h: HeaderBytes, ct: bv8)
    ensures var h' := Set(h, SetCompressType(ct));
      && MessageStatusType(h') == MessageStatusType(h) && SerializeType(h') == SerializeType(h) && h'[0] == h[0]
      && IsOneway(h') == IsOneway(h)
  {
  }

  /** So the encoder leaves them, and all that the server looks at to find what to call. */
  lemma SentAlike(m: Message, cs: Compressors)
    ensures var sent := Zipped(m, cs).0;
      && MessageStatusType(sent.header) == MessageStatusType(m.header) && sent.header[0] == m.header[0]
      && (forall prev, s :: Refused(s, Over(prev, sent)) == Refused(s, m))
  {
    hide Set, MessageStatusType, SerializeType, CompressType;
    CompressionAside(m.header, NONE);
  }

  lemma SendResponseAlike(req: Message, res: Message)
    ensures MessageStatusType(SendResponse(req, res).header) == MessageStatusType(res.header)
  {
    hide Set, MessageStatusType, CompressType;
    CompressionAside(res.header, CompressType(req.header));
  }

  // ----- The reply

  /** What is replied depends on names, payload and codec alone. */
  lemma SameReplies(s: Server, m: Message, m': Message, data: Bytes)
    requires m'.servicePath == m.servicePath && m'.serviceMethod == m.serviceMethod && m'.payload == m.payload
    requires CodecOf(m') == CodecOf(m) && Replies(s, m, data)
    ensures Replies(s, m', data)
  {
    hide CodecOf;
    if argv, r, r' :| MethodReplies(s, m, argv, r, r', data) {
      assert MethodReplies(s, m', argv, r, r', data);
    } else {
      var argv, r :| FunctionReplies(s, m, argv, r, data);
      assert FunctionReplies(s, m', argv, r, data);
    }
  }

  lemma SentKeeps(m: Message, cs: Compressors)
    ensures var sent := Zipped(m, cs).0;
      && SerializeType(sent.header) == SerializeType(m.header) && IsOneway(sent.header) == IsOneway(m.header)
      && sent == m.(header := sent.header)
  {
    hide Set, SerializeType, CompressType, IsOneway;
    CompressionAside(m.header, NONE);
  }

  lemma SendResponseKeeps(req: Message, res: Message)
    ensures var sent := SendResponse(req, res);
      sent.payload == res.payload && SerializeType(sent.header) == SerializeType(res.header)
  {
    hide Set, SerializeType, CompressType;
    CompressionAside(res.header, CompressType(req.header));
  }

  lemma SerializeOf(h: HeaderBytes)
    ensures Abstract(h).serialize == SerializeType(h)
  {
  }

  /** The response to a request that gets a reply carries it, in the request's encoding. */
  lemma ReplyOnTheWire(s: Server, got: Message, pooled: Message, extra: Metadata, data: Bytes)
    requires Replies(s, got, data) && !IsOneway(got.header)
    ensures var res := SendResponse(got, AddMetadata(HandleRequest(s, got, pooled).res, extra));
      res.payload == data && SerializeType(res.header) == SerializeType(got.header)
  {
    hide Replies, HandleRequest, SendResponse, ResponseTo, Abstract, SerializeType, IsOneway;
    ReplyIsPayload(s, got, pooled, data);
    ResponseRecord(got, pooled);
    SerializeOf(got.header);
    SerializeOf(ResponseTo(got, pooled).header);
    SendResponseKeeps(got, AddMetadata(HandleRequest(s, got, pooled).res, extra));
  }

  /** What the client decodes carries the reply as the server encoded it, and names the codec of the request. */
  lemma ReplyComesBack(s: Server, pooled: Message, extra: Metadata, data: Bytes,
                       req: Message, order: seq<Bytes>, cs: Compressors, maxLength: nat,
                       serverTarget: Message, up: Bytes, i: nat,
                       res: Message, order': seq<Bytes>, clientTarget: Message, down: Bytes, j: nat)
    requires Lawful(cs) && CheckMagicNumber(req.header) && Replies(s, req, data) && !IsOneway(req.header)
    requires IsIterationOrder(order, req.metadata) && Fits(BodyOf(req, order, cs), maxLength)
    requires At(up, i, Frame(req, order, cs))
    requires var got := Decode(serverTarget, cs, maxLength, up, i);
      got.Got? ==> res == SendResponse(got.m, AddMetadata(HandleRequest(s, got.m, pooled).res, extra))
    requires IsIterationOrder(order', res.metadata) && Fits(BodyOf(res, order', cs), maxLength)
    requires At(down, j, Frame(res, order', cs))
    ensures var d := Decode(clientTarget, cs, maxLength, down, j);
      d.Got? && d.m.payload == data && SerializeType(d.m.header) == SerializeType(req.header)
  {
    hide Decode, Frame, BodyOf, At, Lawful, Fits, Zipped, Replies, HandleRequest, SendResponse, AddMetadata,
         SerializeType, IsOneway;
    RoundTrip(serverTarget, req, order, cs, maxLength, up, i);
    var got := Decode(serverTarget, cs, maxLength, up, i).m;
    SentAlike(req, cs);
    SentKeeps(req, cs);
    SameReplies(s, req, got, data);
    ResponseMagic(s, got, pooled, extra);
    ReplyOnTheWire(s, got, pooled, extra, data);
    SentKeeps(res, cs);
    RoundTrip(clientTarget, res, order', cs, maxLength, down, j);
  }

  // ----- The status

  /** What the server put on the wire says what its handling said. */
  lemma StatusOnTheWire(s: Server, got: Message, pooled: Message, extra: Metadata, cs: Compressors)
    ensures var res := SendResponse(got, AddMetadata(HandleRequest(s, got, pooled).res, extra));
      MessageStatusType(Zipped(res, cs).0.header) == ERROR
      <==> Refused(s, got) || MessageStatusType(got.header) == ERROR
  {
    hide Refused, MessageStatusType, HandleRequest, SendResponse, Zipped;
    var handled := HandleRequest(s, got, pooled).res;
    ErrorStatusIff(s, got, pooled);
    SendResponseAlike(got, AddMetadata(handled, extra));
    SentAlike(SendResponse(got, AddMetadata(handled, extra)), cs);
  }

  /**
   * The client decodes a response with the error status exactly when the server has nothing to call for
   * the request, or the request itself had that status: not when the arguments do not decode, a plugin
   * objects, the method fails or its reply does not encode.
   */
  lemma ErrorReportedIff(s: Server, pooled: Message, extra: Metadata,
                         req: Message, order: seq<Bytes>, cs: Compressors, maxLength: nat,
                         serverTarget: Message, up: Bytes, i: nat,
                         res: Message, order': seq<Bytes>, clientTarget: Message, down: Bytes, j: nat)
    requires Lawful(cs) && CheckMagicNumber(req.header)
    requires IsIterationOrder(order, req.metadata) && Fits(BodyOf(req, order, cs), maxLength)
    requires At(up, i, Frame(req, order, cs))
    requires var got := Decode(serverTarget, cs, maxLength, up, i);
      got.Got? ==> res == SendResponse(got.m, AddMetadata(HandleRequest(s, got.m, pooled).res, extra))
    requires IsIterationOrder(order', res.metadata) && Fits(BodyOf(res, order', cs), maxLength)
    requires At(down, j, Frame(res, order', cs))
    ensures var d := Decode(clientTarget, cs, maxLength, down, j);
      && d.Got?
      && (MessageStatusType(d.m.header) == ERROR <==> Refused(s, req) || MessageStatusType(req.header) == ERROR)
  {
    hide Decode, Frame, BodyOf, At, Lawful, Fits, Zipped, Refused, MessageStatusType, HandleRequest, SendResponse, AddMetadata;
    RoundTrip(serverTarget, req, order, cs, maxLength, up, i);
    var got := Decode(serverTarget, cs, maxLength, up, i).m;
    SentAlike(req, cs);
    ResponseMagic(s, got, pooled, extra);
    StatusOnTheWire(s, got, pooled, extra, cs);
    RoundTrip(clientTarget, res, order', cs, maxLength, down, j);
  }

  lemma ResponseMagic(s: Server, got: Message, pooled: Message, extra: Metadata)
    ensures SendResponse(got, AddMetadata(HandleRequest(s, got, pooled).res, extra)).header[0] == got.header[0]
  {
    hide HandleRequest, SendResponse, AddMetadata, Seq, MessageType;
    var handled := HandleRequest(s, got, pooled).res;
    HandleRequestAnswers(s, got, pooled);
    AddMetadataAnswers(got, handled, extra);
    SendResponseAnswers(got, got, AddMetadata(handled, extra));
  }
}
