/** Messages, their frames, and the encoder and decoder between them. */
module Message {
  import opened Common
  import opened Header
  import opened Wire

  datatype Message = Message(
    header: HeaderBytes,
    servicePath: Bytes,
    serviceMethod: Bytes,
    metadata: Metadata,
    payload: Bytes)

  /** A compressor may refuse to zip, and undoes what it has zipped. */
  datatype Compressor = Compressor(zip: Bytes -> Option<Bytes>, unzip: Bytes -> Option<Bytes>)

  type Compressors = map<bv8, Compressor>

  const NONE: bv8 := 0

  ghost predicate Undoes(c: Compressor, x: Bytes) {
    c.zip(x).Some? ==> c.unzip(c.zip(x).value) == Some(x)
  }

  ghost predicate Lawful(cs: Compressors) {
    forall ct, x :: ct in cs ==> Undoes(cs[ct], x)
  }

  // ----- Encoding

  /** The header as frame bytes, and back. */
  function Raw(h: HeaderBytes): (b: Bytes)
    ensures |b| == 12
  {
    seq(12, j requires 0 <= j < 12 => h[j] as int)
  }

  function Octet(b: byte): bv8 {
    b as bv8
  }

  function Cooked(b: Bytes): HeaderBytes
    requires |b| == 12
  {
    seq(12, j requires 0 <= j < 12 => Octet(b[j]))
  }

  lemma CookedOfRaw(h: HeaderBytes)
    ensures Cooked(Raw(h)) == h
  {
  }

  /** The payload as it goes on the wire, and the message as the encoder leaves it. */
  function Zipped(m: Message, cs: Compressors): (Message, Bytes) {
    var ct := CompressType(m.header);
    if ct == NONE then (m, m.payload)
    else if ct !in cs then (Uncompressed(m), m.payload)
    else
      var z := cs[ct].zip(m.payload);
      if z.Some? then (m, z.value) else (Uncompressed(m), m.payload)
  }

  /** The fallback changes the header the message points to, so the caller sees it too. */
  function Uncompressed(m: Message): Message {
    m.(header := Set(m.header, SetCompressType(NONE)))
  }

  function Body(path: Bytes, name: Bytes, meta: Bytes, payload: Bytes): Bytes {
    Prefixed(path) + (Prefixed(name) + (Prefixed(meta) + Prefixed(payload)))
  }

  function MetaBlock(m: Message, order: seq<Bytes>): Bytes
    requires forall i :: 0 <= i < |order| ==> order[i] in m.metadata
  {
    EncodeMetadata(m.metadata, order, |order|)
  }

  /** The bytes after the total length. */
  function BodyOf(m: Message, order: seq<Bytes>, cs: Compressors): Bytes
    requires forall i :: 0 <= i < |order| ==> order[i] in m.metadata
  {
    Body(m.servicePath, m.serviceMethod, MetaBlock(m, order), Zipped(m, cs).1)
  }

  function Frame(m: Message, order: seq<Bytes>, cs: Compressors): Bytes
    requires forall i :: 0 <= i < |order| ==> order[i] in m.metadata
  {
    Raw(Zipped(m, cs).0.header) + Prefixed(BodyOf(m, order, cs))
  }

  // ----- Decoding

  datatype Error =
    | ShortRead
    | WrongMagicNumber
    | ErrMessageTooLong
    | MetaKVMissing
    | ErrUnsupportedCompressor
    | UnzipFailed
    | SliceOutOfRange

  /** How decoding ends, and the message it leaves, filled as far as it got. */
  datatype Decoded = Got(m: Message, next: nat) | Failed(e: Error, m: Message)

  /** Where the length-prefixed section at index `n` ends. */
  function SectionEnd(data: Bytes, n: nat): Option<nat> {
    if n + 4 > |data| || n + 4 + Get32(data, n) > |data| then None else Some(n + 4 + Get32(data, n))
  }

  function DecodeBody(prev: Message, cs: Compressors, data: Bytes, next: nat): Decoded
    requires |data| < WORD32
  {
    var a := SectionEnd(data, 0);
    if a.None? then Failed(SliceOutOfRange, prev)
    else
      var pathed := prev.(servicePath := data[4..a.value]);
      var b := SectionEnd(data, a.value);
      if b.None? then Failed(SliceOutOfRange, pathed)
      else
        var named := pathed.(serviceMethod := data[a.value + 4..b.value]);
        var c := SectionEnd(data, b.value);
        if c.None? then Failed(SliceOutOfRange, named)
        else
          var meta := data[b.value + 4..c.value];
          var r := if meta == [] then Meta(prev.metadata) else DecodeMetadata(|meta|, meta, 0, map[]);
          match r
          case ErrMetaKVMissing(sofar) => Failed(MetaKVMissing, named.(metadata := sofar))
          case OutOfRange => Failed(SliceOutOfRange, named)
          case Meta(metadata) =>
            var described := named.(metadata := metadata);
            if c.value + 4 > |data| then Failed(SliceOutOfRange, described)
            else Unzipped(described.(payload := data[c.value + 4..]), cs, next)
  }

  /** A compressor that fails returns no payload beside its error. */
  function Unzipped(m: Message, cs: Compressors, next: nat): Decoded {
    var ct := CompressType(m.header);
    if ct == NONE then Got(m, next)
    else if ct !in cs then Failed(ErrUnsupportedCompressor, m)
    else
      var x := cs[ct].unzip(m.payload);
      if x.Some? then Got(m.(payload := x.value), next) else Failed(UnzipFailed, m.(payload := []))
  }

  /** A header into which fewer than twelve bytes were read. */
  function Overlay(h: HeaderBytes, b: Bytes): HeaderBytes
    requires |b| <= 12
  {
    seq(12, j requires 0 <= j < 12 => if j < |b| then Octet(b[j]) else h[j])
  }

  function WithFirstByte(m: Message, b: bv8): Message {
    m.(header := m.header[0 := b])
  }

  /** `Decode` into a message that holds `prev`, from index `i` of a stream. */
  function Decode(prev: Message, cs: Compressors, maxLength: nat, stream: Bytes, i: nat): Decoded {
    if i + 1 > |stream| then Failed(ShortRead, prev)
    else if Octet(stream[i]) != MAGIC then Failed(WrongMagicNumber, WithFirstByte(prev, Octet(stream[i])))
    else if i + 12 > |stream| then Failed(ShortRead, prev.(header := Overlay(prev.header, stream[i..])))
    else
      var headed := prev.(header := Cooked(stream[i..i + 12]));
      if i + 16 > |stream| then Failed(ShortRead, headed)
      else
        var l := Get32(stream, i + 12);
        if maxLength > 0 && l > maxLength then Failed(ErrMessageTooLong, headed)
        else if i + 16 + l > |stream| then Failed(ShortRead, headed)
        else DecodeBody(headed, cs, stream[i + 16..i + 16 + l], i + 16 + l)
  }

  // ----- What decoding leaves

  lemma BodyKeepsHeader(prev: Message, cs: Compressors, data: Bytes, next: nat)
    requires |data| < WORD32
    ensures DecodeBody(prev, cs, data, next).m.header == prev.header
  {
    hide SectionEnd, DecodeMetadata, CompressType;
  }

  lemma CookedFirst(b: Bytes)
    requires |b| == 12
    ensures Cooked(b)[0] == Octet(b[0])
  {
  }

  /** However decoding ends, the message's first byte is then the one it read, if it read any. */
  lemma FirstByteLeft(prev: Message, cs: Compressors, maxLength: nat, stream: Bytes, i: nat)
    ensures Decode(prev, cs, maxLength, stream, i).m.header[0]
         == if i < |stream| then Octet(stream[i]) else prev.header[0]
  {
    hide DecodeBody, Get32, Cooked, Octet;
    if i + 12 <= |stream| {
      CookedFirst(stream[i..i + 12]);
      if i + 16 <= |stream| && i + 16 + Get32(stream, i + 12) <= |stream| {
        var l := Get32(stream, i + 12);
        BodyKeepsHeader(prev.(header := Cooked(stream[i..i + 12])), cs, stream[i + 16..i + 16 + l], i + 16 + l);
      }
    }
  }

  // ----- The round trip

  /** A frame's length fields do not overflow and the receiver's limit admits it. */
  ghost predicate Fits(body: Bytes, maxLength: nat) {
    |body| < WORD32 && (maxLength == 0 || |body| <= maxLength)
  }

  /** What is left in a message decoded over `prev`: an empty metadata block leaves the old metadata. */
  function Over(prev: Message, m: Message): Message {
    if m.metadata == map[] then m.(metadata := prev.metadata) else m
  }

  lemma SectionAt(data: Bytes, n: nat, s: Bytes, rest: Bytes)
    requires At(data, n, Prefixed(s) + rest) && |data| < WORD32
    ensures SectionEnd(data, n) == Some(n + 4 + |s|) && n + 4 + |s| <= |data|
    ensures data[n + 4..n + 4 + |s|] == s && At(data, n + 4 + |s|, rest)
  {
    hide Prefixed;
    AtSplit(data, n, Prefixed(s), rest);
    AtWithin(data, n, Prefixed(s));
    PrefixedLength(s);
    AtPrefixed(data, n, s);
  }

  /** `DecodeBody`, section by section. */
  lemma DecodesSections(prev: Message, cs: Compressors, data: Bytes, next: nat, a: nat, b: nat, c: nat, md: Metadata)
    requires |data| < WORD32 && c + 4 <= |data|
    requires SectionEnd(data, 0) == Some(a) && SectionEnd(data, a) == Some(b) && SectionEnd(data, b) == Some(c)
    requires var meta := data[b + 4..c];
      if meta == [] then md == prev.metadata else DecodeMetadata(|meta|, meta, 0, map[]) == Meta(md)
    ensures DecodeBody(prev, cs, data, next)
         == Unzipped(Message(prev.header, data[4..a], data[a + 4..b], md, data[c + 4..]), cs, next)
  {
    hide Unzipped, DecodeMetadata, Get32;
  }

  lemma DecodesParts(prev: Message, cs: Compressors, next: nat,
                     path: Bytes, name: Bytes, meta: Bytes, wire: Bytes, md: Metadata)
    requires |Body(path, name, meta, wire)| < WORD32
    requires |meta| < WORD32
    requires if meta == [] then md == prev.metadata else DecodeMetadata(|meta|, meta, 0, map[]) == Meta(md)
    ensures DecodeBody(prev, cs, Body(path, name, meta, wire), next)
         == Unzipped(Message(prev.header, path, name, md, wire), cs, next)
  {
    hide Unzipped, At, SectionEnd, DecodeMetadata, DecodeBody, Prefixed;
    var data := Body(path, name, meta, wire);
    var a := 4 + |path|;
    var b := a + 4 + |name|;
    var c := b + 4 + |meta|;
    PrefixedLength(wire);
    AtWhole(data);
    SectionAt(data, 0, path, Prefixed(name) + (Prefixed(meta) + Prefixed(wire)));
    SectionAt(data, a, name, Prefixed(meta) + Prefixed(wire));
    SectionAt(data, b, meta, Prefixed(wire));
    AtWithin(data, c, Prefixed(wire));
    BodyLength(path, name, meta, wire);
    PayloadAt(data, c, wire);
    DecodesSections(prev, cs, data, next, a, b, c, md);
  }

  lemma BodyLength(path: Bytes, name: Bytes, meta: Bytes, wire: Bytes)
    ensures |Body(path, name, meta, wire)| == 16 + |path| + |name| + |meta| + |wire|
  {
  }

  lemma DecodesBody(prev: Message, m: Message, order: seq<Bytes>, cs: Compressors, next: nat)
    requires IsIterationOrder(order, m.metadata) && |BodyOf(m, order, cs)| < WORD32
    ensures DecodeBody(prev, cs, BodyOf(m, order, cs), next)
         == Unzipped(Over(prev, m.(header := prev.header)).(payload := Zipped(m, cs).1), cs, next)
  {
    hide MetaBlock, Zipped, Unzipped, DecodeBody, Body, DecodeMetadata;
    var meta, wire := MetaBlock(m, order), Zipped(m, cs).1;
    BodyLength(m.servicePath, m.serviceMethod, meta, wire);
    MetaDecodes(prev, m, order);
    DecodesParts(prev, cs, next, m.servicePath, m.serviceMethod, meta, wire, Over(prev, m).metadata);
  }

  lemma MetaDecodes(prev: Message, m: Message, order: seq<Bytes>)
    requires IsIterationOrder(order, m.metadata) && |MetaBlock(m, order)| < WORD32
    ensures var meta, md := MetaBlock(m, order), Over(prev, m).metadata;
      if meta == [] then md == prev.metadata else DecodeMetadata(|meta|, meta, 0, map[]) == Meta(md)
  {
    hide DecodeMetadata, EncodeMetadata;
    MetadataRoundTrip(m.metadata, order);
  }

  lemma PayloadAt(data: Bytes, n: nat, wire: Bytes)
    requires At(data, n, Prefixed(wire)) && n + 4 + |wire| == |data|
    ensures data[n + 4..] == wire
  {
    AtSplit(data, n, Put32(|wire|), wire);
  }

  /** Either the message goes out uncompressed and says so, or its compressor's output goes out. */
  lemma ZippedCases(m: Message, cs: Compressors)
    ensures var (sent, wire) := Zipped(m, cs); var ct := CompressType(sent.header);
      && sent == m.(header := sent.header)
      && if ct == NONE then wire == m.payload
         else sent == m && ct in cs && cs[ct].zip(m.payload) == Some(wire)
  {
    ClearedCompressType(m);
  }

  /** Unzipping restores the payload, whichever way the encoder went. */
  lemma UnzippedOfZipped(m: Message, cs: Compressors, prev: Message, next: nat)
    requires Lawful(cs)
    ensures var (sent, wire) := Zipped(m, cs);
      Unzipped(Over(prev, m.(header := sent.header)).(payload := wire), cs, next) == Got(Over(prev, sent), next)
  {
    hide Zipped, CompressType;
    ZippedCases(m, cs);
    var ct := CompressType(Zipped(m, cs).0.header);
    if ct != NONE {
      assert Undoes(cs[ct], m.payload);
    }
  }

  lemma ClearedCompressType(m: Message)
    ensures CompressType(Uncompressed(m).header) == NONE
  {
    SetterRefinesUpdate(m.header, SetCompressType(NONE));
    assert Abstract(Uncompressed(m).header).compress == 0;
  }

  /** The two parts of a frame, where the decoder finds them. */
  lemma FrameAt(stream: Bytes, i: nat, h: HeaderBytes, body: Bytes)
    requires At(stream, i, Raw(h) + Prefixed(body)) && |body| < WORD32
    ensures i + 16 + |body| <= |stream| && stream[i..i + 12] == Raw(h)
    ensures Get32(stream, i + 12) == |body| && stream[i + 16..i + 16 + |body|] == body
  {
    hide Raw, Prefixed;
    AtSplit(stream, i, Raw(h), Prefixed(body));
    AtPrefixed(stream, i + 12, body);
  }

  /** The decoder looks at the first byte alone before anything else. */
  lemma FirstByte(stream: Bytes, i: nat, h: HeaderBytes)
    requires i + 12 <= |stream| && stream[i..i + 12] == Raw(h)
    ensures Octet(stream[i]) == h[0]
  {
    assert stream[i] == stream[i..i + 12][0];
  }

  lemma DecodesFrame(prev: Message, cs: Compressors, maxLength: nat, stream: Bytes, i: nat, h: HeaderBytes, body: Bytes)
    requires At(stream, i, Raw(h) + Prefixed(body)) && Fits(body, maxLength)
    ensures Decode(prev, cs, maxLength, stream, i)
         == if h[0] == MAGIC then DecodeBody(prev.(header := h), cs, body, i + 16 + |body|)
            else Failed(WrongMagicNumber, WithFirstByte(prev, h[0]))
  {
    hide DecodeBody, Overlay, Raw, Cooked, Get32, Prefixed, At;
    FrameAt(stream, i, h, body);
    FirstByte(stream, i, h);
    CookedOfRaw(h);
  }

  /**
   * Decoding a frame anywhere in a stream restores the message as the encoder left it and stops
   * exactly at the frame's end, whatever its compression; without the magic byte it is refused and
   * that byte stays behind.
   */
  lemma RoundTrip(prev: Message, m: Message, order: seq<Bytes>, cs: Compressors, maxLength: nat, stream: Bytes, i: nat)
    requires Lawful(cs) && IsIterationOrder(order, m.metadata) && Fits(BodyOf(m, order, cs), maxLength)
    requires At(stream, i, Frame(m, order, cs))
    ensures Decode(prev, cs, maxLength, stream, i)
         == if CheckMagicNumber(m.header) then Got(Over(prev, Zipped(m, cs).0), i + |Frame(m, order, cs)|)
            else Failed(WrongMagicNumber, WithFirstByte(prev, m.header[0]))
  {
    hide BodyOf, Zipped, DecodeBody, Decode, Raw, Unzipped, Over, Prefixed, At, Fits, Lawful;
    var sent, body := Zipped(m, cs).0, BodyOf(m, order, cs);
    var start := prev.(header := sent.header);
    PrefixedLength(body);
    DecodesFrame(prev, cs, maxLength, stream, i, sent.header, body);
    SentMagic(m, cs);
    assert |body| < WORD32 by {
      FitsLength(body, maxLength);
    }
    DecodesBody(start, m, order, cs, i + 16 + |body|);
    UnzippedOfZipped(m, cs, start, i + 16 + |body|);
    OverIgnoresHeader(prev, sent.header, sent);
  }

  lemma FitsLength(body: Bytes, maxLength: nat)
    requires Fits(body, maxLength)
    ensures |body| < WORD32
  {
  }

  lemma SentMagic(m: Message, cs: Compressors)
    ensures Zipped(m, cs).0.header[0] == m.header[0]
  {
  }

  lemma OverIgnoresHeader(prev: Message, h: HeaderBytes, m: Message)
    ensures Over(prev.(header := h), m) == Over(prev, m)
  {
  }

  // ----- Streams

  /** A message to send and the order in which its metadata is visited. */
  datatype Outgoing = Outgoing(m: Message, order: seq<Bytes>)

  ghost predicate Sendable(o: Outgoing, cs: Compressors, maxLength: nat) {
    && IsIterationOrder(o.order, o.m.metadata) && CheckMagicNumber(o.m.header)
    && Fits(BodyOf(o.m, o.order, cs), maxLength)
  }

  ghost predicate AllSendable(os: seq<Outgoing>, cs: Compressors, maxLength: nat) {
    forall k :: 0 <= k < |os| ==> Sendable(os[k], cs, maxLength)
  }

  /** The frames of `os[k..]`, one after the other. */
  ghost function Frames(os: seq<Outgoing>, k: nat, cs: Compressors, maxLength: nat): Bytes
    requires k <= |os| && AllSendable(os, cs, maxLength)
    decreases |os| - k
  {
    if k == |os| then [] else Frame(os[k].m, os[k].order, cs) + Frames(os, k + 1, cs, maxLength)
  }

  /** What decoding one message after the other, into `targets[k..]`, yields and where it ends. */
  function DecodeAll(targets: seq<Message>, k: nat, cs: Compressors, maxLength: nat, stream: Bytes, i: nat):
    Option<(seq<Message>, nat)>
    requires k <= |targets|
    decreases |targets| - k
  {
    if k == |targets| then Some(([], i))
    else
      match Decode(targets[k], cs, maxLength, stream, i)
      case Failed(_, _) => None
      case Got(m, next) =>
        match DecodeAll(targets, k + 1, cs, maxLength, stream, next)
        case None => None
        case Some((ms, end)) => Some(([m] + ms, end))
  }

  /** The messages as their encoders left them. */
  function Left(os: seq<Outgoing>, k: nat, cs: Compressors): seq<Message>
    requires k <= |os|
    decreases |os| - k
  {
    if k == |os| then [] else [Zipped(os[k].m, cs).0] + Left(os, k + 1, cs)
  }

  /** Any number of frames, back to back, decode to their messages in order and use up exactly their bytes. */
  lemma {:induction false} StreamRoundTrip(os: seq<Outgoing>, targets: seq<Message>, k: nat, cs: Compressors,
                                           maxLength: nat, stream: Bytes, i: nat)
    requires Lawful(cs) && AllSendable(os, cs, maxLength) && k <= |os| == |targets|
    requires forall j :: 0 <= j < |targets| ==> targets[j].metadata == map[]
    requires At(stream, i, Frames(os, k, cs, maxLength))
    ensures DecodeAll(targets, k, cs, maxLength, stream, i)
         == Some((Left(os, k, cs), i + |Frames(os, k, cs, maxLength)|))
    decreases |os| - k
  {
    hide At, Frame, Decode, Zipped, BodyOf, Fits, Lawful;
    if k < |os| {
      var o := os[k];
      assert Sendable(o, cs, maxLength);
      var frame, rest := Frame(o.m, o.order, cs), Frames(os, k + 1, cs, maxLength);
      AtSplit(stream, i, frame, rest);
      RoundTrip(targets[k], o.m, o.order, cs, maxLength, stream, i);
      OverEmpty(targets[k], Zipped(o.m, cs).0);
      StreamRoundTrip(os, targets, k + 1, cs, maxLength, stream, i + |frame|);
    }
  }

  lemma OverEmpty(prev: Message, m: Message)
    requires prev.metadata == map[]
    ensures Over(prev, m) == m
  {
  }

  // ----- Messages that are new, reset or cloned

  function NewMessage(): Message {
    Message([MAGIC, 0, 0, 0, 0, 0, 0, 0, 0, 0, 0, 0], [], [], map[], [])
  }

  /** Reset clears every header byte but the first. */
  function Reset(m: Message): Message {
    Message([m.header[0], 0, 0, 0, 0, 0, 0, 0, 0, 0, 0, 0], [], [], map[], [])
  }

  /** A clone keeps header, path and method; `pooled` is the message the pool hands out. */
  function Clone(m: Message, pooled: Message): Message {
    Message(Set(m.header, SetCompressType(NONE)), m.servicePath, m.serviceMethod, pooled.metadata, pooled.payload)
  }

  /** A freed message no longer says that it was one-way: its header reads as an ordinary request. */
  lemma ResetForgetsOneway(m: Message)
    ensures !IsOneway(Reset(m).header) && !IsHeartbeat(Reset(m).header) && MessageType(Reset(m).header) == 0
  {
  }

  /** The encoder leaves a message as it was exactly when it need not fall back to sending it uncompressed. */
  lemma KeptIff(m: Message, cs: Compressors)
    ensures Zipped(m, cs).0 == m <==>
            (CompressType(m.header) == NONE
             || (CompressType(m.header) in cs && cs[CompressType(m.header)].zip(m.payload).Some?))
  {
    ClearedCompressType(m);
  }

  /** A frame is always longer than its payload, whose count `WriteTo` returns when it has written all. */
  lemma FrameLength(m: Message, order: seq<Bytes>, cs: Compressors)
    requires forall i :: 0 <= i < |order| ==> order[i] in m.metadata
    ensures |Frame(m, order, cs)|
         == 32 + |m.servicePath| + |m.serviceMethod| + |MetaBlock(m, order)| + |Zipped(m, cs).1|
  {
    hide Zipped, MetaBlock, Raw, Body;
    var meta, wire := MetaBlock(m, order), Zipped(m, cs).1;
    BodyLength(m.servicePath, m.serviceMethod, meta, wire);
    PrefixedLength(BodyOf(m, order, cs));
  }
}
