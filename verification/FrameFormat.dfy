/**
 * What is on the wire, byte by byte: the layout of the frames the encoder writes, and exactly which bytes
 * the decoder accepts, and refuses with which error.
 */
module FrameFormat {
  import opened Common
  import opened Header
  import opened Wire
  import opened M = Message

  // ----- Numbers and headers

  /** The four bytes at `i` are the number they stand for, written. */
  lemma Put32OfGet32(data: Bytes, i: nat)
    requires i + 4 <= |data|
    ensures Put32(Get32(data, i)) == data[i..i + 4]
  {
    hide Put32;
    var b := Put32(Get32(data, i));
    FourDigits(b[0], b[1], b[2], b[3], data[i], data[i + 1], data[i + 2], data[i + 3]);
  }

  lemma FourDigits(a: byte, b: byte, c: byte, d: byte, a': byte, b': byte, c': byte, d': byte)
    requires 0x100_0000 * (a as int) + 0x1_0000 * (b as int) + 0x100 * (c as int) + d
          == 0x100_0000 * (a' as int) + 0x1_0000 * (b' as int) + 0x100 * (c' as int) + d'
    ensures a == a' && b == b' && c == c' && d == d'
  {
  }

  // ----- What the decoder accepts

  /** The bytes after the total: three counted sections, four bytes that nobody reads, and the payload. */
  function Sections(path: Bytes, name: Bytes, meta: Bytes, size: Bytes, wire: Bytes): Bytes {
    Prefixed(path) + (Prefixed(name) + (Prefixed(meta) + (size + wire)))
  }

  lemma SectionsLength(path: Bytes, name: Bytes, meta: Bytes, size: Bytes, wire: Bytes)
    ensures |Sections(path, name, meta, size, wire)| == 12 + |path| + |name| + |meta| + |size| + |wire|
  {
  }

  /** A metadata block for `md`; an empty one leaves what was there. */
  ghost predicate Describes(meta: Bytes, prev: Metadata, md: Metadata)
    requires |meta| < WORD32
  {
    if meta == [] then md == prev else DecodeMetadata(|meta|, meta, 0, map[]) == Meta(md)
  }

  /** `wire` is the payload of `m`, or unzips to it if the header says so. */
  ghost predicate Carries(cs: Compressors, m: Message, wire: Bytes) {
    var ct := CompressType(m.header);
    if ct == NONE then wire == m.payload else ct in cs && cs[ct].unzip(wire) == Some(m.payload)
  }

  ghost predicate IsBodyOf(prev: Metadata, cs: Compressors, body: Bytes, m: Message, meta: Bytes, size: Bytes, wire: Bytes) {
    && |body| < WORD32 && |meta| < WORD32 && |size| == 4
    && body == Sections(m.servicePath, m.serviceMethod, meta, size, wire)
    && Describes(meta, prev, m.metadata) && Carries(cs, m, wire)
  }

  /** The stream has, from `i` to `n`, a header with the magic byte, a length within the limit, and a body for `m`. */
  ghost predicate HoldsMessage(prev: Metadata, cs: Compressors, maxLength: nat, stream: Bytes, i: nat, m: Message, n: nat) {
    && i + 16 <= n <= |stream|
    && (forall j :: 0 <= j < 12 ==> m.header[j] == Octet(stream[i + j])) && m.header[0] == MAGIC
    && (maxLength > 0 ==> n - i - 16 <= maxLength)
    && n - i - 16 < WORD32 && At(stream, i + 12, Put32(n - i - 16))
    && HoldsBody(prev, cs, stream[i + 16..n], m)
  }

  ghost predicate HoldsBody(prev: Metadata, cs: Compressors, body: Bytes, m: Message) {
    exists meta, size, wire :: IsBodyOf(prev, cs, body, m, meta, size, wire)
  }

  lemma UnzippedIff(m: Message, cs: Compressors, next: nat, m': Message, n: nat)
    ensures Unzipped(m, cs, next) == Got(m', n)
       <==> n == next && m' == m.(payload := m'.payload) && Carries(cs, m', m.payload)
  {
    hide CompressType;
  }

  /** A section that the decoder finds is there, with its count. */
  lemma SectionFound(data: Bytes, n: nat, e: nat)
    requires SectionEnd(data, n) == Some(e)
    ensures n + 4 <= e <= |data| && Prefixed(data[n + 4..e]) == data[n..e]
  {
    hide Put32, Get32;
    Put32OfGet32(data, n);
    assert data[n..e] == data[n..n + 4] + data[n + 4..e];
  }

  lemma BodyParsed(prev: Message, cs: Compressors, data: Bytes, next: nat, m: Message, n: nat)
    returns (meta: Bytes, size: Bytes, wire: Bytes)
    requires |data| < WORD32 && DecodeBody(prev, cs, data, next) == Got(m, n)
    ensures n == next && m.header == prev.header && IsBodyOf(prev.metadata, cs, data, m, meta, size, wire)
  {
    hide SectionEnd, DecodeMetadata, Unzipped, Carries, Prefixed;
    var a := SectionEnd(data, 0).value;
    SectionFound(data, 0, a);
    var b := SectionEnd(data, a).value;
    SectionFound(data, a, b);
    var c := SectionEnd(data, b).value;
    SectionFound(data, b, c);
    meta, size, wire := data[b + 4..c], data[c..c + 4], data[c + 4..];
    var md := if meta == [] then prev.metadata else DecodeMetadata(|meta|, meta, 0, map[]).m;
    var unread := Message(prev.header, data[4..a], data[a + 4..b], md, wire);
    UnzippedIff(unread, cs, next, m, n);
    assert data == data[0..a] + (data[a..b] + (data[b..c] + (size + wire)));
  }

  lemma BodyParses(prev: Message, cs: Compressors, data: Bytes, next: nat, m: Message, meta: Bytes, size: Bytes, wire: Bytes)
    requires m.header == prev.header && IsBodyOf(prev.metadata, cs, data, m, meta, size, wire)
    ensures DecodeBody(prev, cs, data, next) == Got(m, next)
  {
    hide SectionEnd, DecodeMetadata, Unzipped, Carries, Prefixed, DecodeBody, At;
    var path, name := m.servicePath, m.serviceMethod;
    var a := 4 + |path|;
    var b := a + 4 + |name|;
    var c := b + 4 + |meta|;
    AtWhole(data);
    SectionsLength(path, name, meta, size, wire);
    SectionAt(data, 0, path, Prefixed(name) + (Prefixed(meta) + (size + wire)));
    SectionAt(data, a, name, Prefixed(meta) + (size + wire));
    SectionAt(data, b, meta, size + wire);
    Tail(data, c, size, wire);
    DecodesSections(prev, cs, data, next, a, b, c, m.metadata);
    UnzippedIff(Message(prev.header, path, name, m.metadata, wire), cs, next, m, next);
  }

  lemma Tail(data: Bytes, n: nat, size: Bytes, wire: Bytes)
    requires At(data, n, size + wire) && n + |size| + |wire| == |data| && |size| == 4
    ensures data[n + 4..] == wire
  {
    AtSplit(data, n, size, wire);
  }

  lemma CookedBytes(stream: Bytes, i: nat, h: HeaderBytes)
    requires i + 12 <= |stream|
    ensures Cooked(stream[i..i + 12]) == h <==> forall j :: 0 <= j < 12 ==> h[j] == Octet(stream[i + j])
  {
    hide Octet;
    var b := stream[i..i + 12];
    assert forall j :: 0 <= j < 12 ==> Cooked(b)[j] == Octet(b[j]) == Octet(stream[i + j]);
    if forall j :: 0 <= j < 12 ==> h[j] == Octet(stream[i + j]) {
      assert Cooked(b) == h;
    }
  }

  lemma Get32Iff(data: Bytes, i: nat, n: nat)
    requires i + 4 <= |data| && n < WORD32
    ensures Get32(data, i) == n <==> At(data, i, Put32(n))
  {
    hide Get32, Put32;
    Put32OfGet32(data, i);
    if At(data, i, Put32(n)) {
      Get32OfPut32(data, i, n);
    }
  }

  /** What is decoded is in the stream. */
  lemma DecodedIsThere(prev: Message, cs: Compressors, maxLength: nat, stream: Bytes, i: nat, m: Message, n: nat)
    requires Decode(prev, cs, maxLength, stream, i) == Got(m, n)
    ensures HoldsMessage(prev.metadata, cs, maxLength, stream, i, m, n)
  {
    hide DecodeBody, Cooked, Get32, Put32, Octet, Overlay, At, IsBodyOf;
    var l, first := Get32(stream, i + 12), stream[i..i + 12];
    var headed, body := prev.(header := Cooked(first)), stream[i + 16..i + 16 + l];
    assert DecodeBody(headed, cs, body, i + 16 + l) == Got(m, n);
    var meta, size, wire := BodyParsed(headed, cs, body, i + 16 + l, m, n);
    CookedBytes(stream, i, m.header);
    Get32Iff(stream, i + 12, l);
  }

  /** What is in the stream is decoded. */
  lemma ThereIsDecoded(prev: Message, cs: Compressors, maxLength: nat, stream: Bytes, i: nat, m: Message, n: nat)
    requires HoldsMessage(prev.metadata, cs, maxLength, stream, i, m, n)
    ensures Decode(prev, cs, maxLength, stream, i) == Got(m, n)
  {
    hide DecodeBody, Cooked, Get32, Put32, Octet, Overlay, At, IsBodyOf;
    CookedBytes(stream, i, m.header);
    Get32Iff(stream, i + 12, n - i - 16);
    var body := stream[i + 16..n];
    var meta, size, wire :| IsBodyOf(prev.metadata, cs, body, m, meta, size, wire);
    assert m.header[0] == Octet(stream[i + 0]);
    BodyParses(prev.(header := m.header), cs, body, n, m, meta, size, wire);
  }

  /** Decoding succeeds exactly on the bytes of a message, with that message and their end. */
  lemma DecodeIff(prev: Message, cs: Compressors, maxLength: nat, stream: Bytes, i: nat, m: Message, n: nat)
    ensures Decode(prev, cs, maxLength, stream, i) == Got(m, n)
       <==> HoldsMessage(prev.metadata, cs, maxLength, stream, i, m, n)
  {
    hide Decode, HoldsMessage;
    if Decode(prev, cs, maxLength, stream, i) == Got(m, n) {
      DecodedIsThere(prev, cs, maxLength, stream, i, m, n);
    }
    if HoldsMessage(prev.metadata, cs, maxLength, stream, i, m, n) {
      ThereIsDecoded(prev, cs, maxLength, stream, i, m, n);
    }
  }

  // ----- What it refuses

  lemma BodyErrors(prev: Message, cs: Compressors, data: Bytes, next: nat)
    requires |data| < WORD32
    ensures var d := DecodeBody(prev, cs, data, next);
      d.Failed? ==> !d.e.ShortRead? && !d.e.WrongMagicNumber? && !d.e.ErrMessageTooLong?
  {
    hide SectionEnd, DecodeMetadata, CompressType;
  }

  /** The length a frame at `i` gives for its body is there, and above the limit. */
  ghost predicate TooLong(maxLength: nat, stream: Bytes, i: nat) {
    i + 16 <= |stream| && maxLength > 0 && Get32(stream, i + 12) > maxLength
  }

  /** The stream ends before the frame at `i` does. */
  ghost predicate EndsEarly(stream: Bytes, i: nat) {
    i + 16 > |stream| || i + 16 + Get32(stream, i + 12) > |stream|
  }

  /** When decoding stops before the body, and with which error. */
  lemma RefusedIff(prev: Message, cs: Compressors, maxLength: nat, stream: Bytes, i: nat)
    ensures var d := Decode(prev, cs, maxLength, stream, i);
      && (d.Failed? && d.e == WrongMagicNumber <==> i < |stream| && Octet(stream[i]) != MAGIC)
      && (d.Failed? && d.e == ErrMessageTooLong <==>
            TooLong(maxLength, stream, i) && Octet(stream[i]) == MAGIC)
      && (d.Failed? && d.e == ShortRead <==>
            i >= |stream| || (Octet(stream[i]) == MAGIC && EndsEarly(stream, i) && !TooLong(maxLength, stream, i)))
  {
    hide DecodeBody, Get32, Octet, Cooked, Overlay;
    if i + 16 <= |stream| && !EndsEarly(stream, i) {
      var l := Get32(stream, i + 12);
      BodyErrors(prev.(header := Cooked(stream[i..i + 12])), cs, stream[i + 16..i + 16 + l], i + 16 + l);
    }
  }

  /** The encoder knows no limit: its frames are accepted exactly within the receiver's. */
  lemma FrameLimitIff(prev: Message, m: Message, order: seq<Bytes>, cs: Compressors, maxLength: nat, stream: Bytes, i: nat)
    requires Lawful(cs) && IsIterationOrder(order, m.metadata) && CheckMagicNumber(m.header)
    requires |BodyOf(m, order, cs)| < WORD32 && At(stream, i, Frame(m, order, cs))
    ensures var d := Decode(prev, cs, maxLength, stream, i);
      && (d.Got? <==> maxLength == 0 || |BodyOf(m, order, cs)| <= maxLength)
      && (d.Failed? ==> d.e == ErrMessageTooLong)
  {
    hide BodyOf, Zipped, Decode, Raw, Prefixed, At, Lawful, Get32, Octet;
    if maxLength == 0 || |BodyOf(m, order, cs)| <= maxLength {
      RoundTrip(prev, m, order, cs, maxLength, stream, i);
    } else {
      var sent := Zipped(m, cs).0;
      SentMagic(m, cs);
      FrameAt(stream, i, sent.header, BodyOf(m, order, cs));
      FirstByte(stream, i, sent.header);
      RefusedIff(prev, cs, maxLength, stream, i);
    }
  }

  /** A header that names a compressor: one that is not registered, or one that fails, has its own error. */
  lemma CompressionErrorsIff(m: Message, cs: Compressors, next: nat)
    ensures var d, ct := Unzipped(m, cs, next), CompressType(m.header);
      && (d.Failed? && d.e == ErrUnsupportedCompressor <==> ct != NONE && ct !in cs)
      && (d.Failed? && d.e == UnzipFailed <==> ct != NONE && ct in cs && !cs[ct].unzip(m.payload).Some?)
      && (d.Failed? ==> d.e == ErrUnsupportedCompressor || d.e == UnzipFailed)
  {
    hide CompressType;
  }

  // ----- Metadata blocks

  datatype Pairs = NoPairs | Pair(key: Bytes, value: Bytes, rest: Pairs)

  function PairsBytes(ps: Pairs): Bytes {
    match ps
    case NoPairs => []
    case Pair(key, value, rest) => (Prefixed(key) + Prefixed(value)) + PairsBytes(rest)
  }

  /** What pairs add to a map: a later one overrides an earlier one with its key. */
  function Collected(ps: Pairs, acc: Metadata): Metadata {
    match ps
    case NoPairs => acc
    case Pair(key, value, rest) => Collected(rest, acc[key := value])
  }

  /** Pairs that fill the data from `n` on are collected. */
  lemma {:induction false} PairsDecode(ps: Pairs, data: Bytes, n: nat, acc: Metadata)
    requires |data| < WORD32 && At(data, n, PairsBytes(ps)) && n + |PairsBytes(ps)| == |data|
    ensures DecodeMetadata(|data|, data, n, acc) == Meta(Collected(ps, acc))
    decreases ps
  {
    hide At, Prefixed;
    if ps.Pair? {
      var pair := Prefixed(ps.key) + Prefixed(ps.value);
      AtSplit(data, n, pair, PairsBytes(ps.rest));
      PrefixedLength(ps.key);
      PrefixedLength(ps.value);
      hide DecodeMetadata;
      DecodesPair(data, n, acc, ps.key, ps.value);
      PairsDecode(ps.rest, data, n + |pair|, acc[ps.key := ps.value]);
    }
  }

  /** Conversely, data that decode are pairs. */
  lemma {:induction false} DecodedPairs(data: Bytes, n: nat, acc: Metadata) returns (ps: Pairs)
    requires n <= |data| < WORD32 && DecodeMetadata(|data|, data, n, acc).Meta?
    ensures At(data, n, PairsBytes(ps)) && n + |PairsBytes(ps)| == |data|
    ensures DecodeMetadata(|data|, data, n, acc) == Meta(Collected(ps, acc))
    decreases |data| - n
  {
    hide Prefixed, Get32;
    if n == |data| {
      ps := NoPairs;
    } else {
      var key, value := FirstDecodedPair(data, n, acc);
      hide DecodeMetadata;
      var rest := DecodedPairs(data, n + 8 + |key| + |value|, acc[key := value]);
      ps := Pair(key, value, rest);
      PrefixedLength(key);
      PrefixedLength(value);
      AtSplit(data, n, Prefixed(key) + Prefixed(value), PairsBytes(rest));
    }
  }

  lemma FirstDecodedPair(data: Bytes, n: nat, acc: Metadata) returns (key: Bytes, value: Bytes)
    requires n < |data| < WORD32 && DecodeMetadata(|data|, data, n, acc).Meta?
    ensures n + 8 + |key| + |value| <= |data| && At(data, n, Prefixed(key) + Prefixed(value))
    ensures DecodeMetadata(|data|, data, n, acc)
         == DecodeMetadata(|data|, data, n + 8 + |key| + |value|, acc[key := value])
  {
    hide Put32, Get32, DecodeMetadata, At, Prefixed;
    UnwrappedPair(data, n, acc);
    var kEnd := n + 4 + Get32(data, n);
    var vEnd := kEnd + 4 + Get32(data, kEnd);
    key, value := data[n + 4..kEnd], data[kEnd + 4..vEnd];
    CountedAt(data, n, kEnd);
    CountedAt(data, kEnd, vEnd);
    PrefixedLength(key);
    AtSplit(data, n, Prefixed(key), Prefixed(value));
  }

  lemma CountedAt(data: Bytes, n: nat, e: nat)
    requires n + 4 <= e <= |data| && e == n + 4 + Get32(data, n)
    ensures At(data, n, Prefixed(data[n + 4..e]))
  {
    hide Put32, Get32;
    Put32OfGet32(data, n);
    assert data[n..e] == data[n..n + 4] + data[n + 4..e];
  }

  /** Where a pair was decoded, no sum has wrapped around. */
  lemma UnwrappedPair(data: Bytes, n: nat, acc: Metadata)
    requires n < |data| < WORD32 && DecodeMetadata(|data|, data, n, acc).Meta?
    ensures n + 4 <= |data| && var kEnd := n + 4 + Get32(data, n);
      && kEnd + 4 <= |data| && var vEnd := kEnd + 4 + Get32(data, kEnd);
      && vEnd <= |data|
      && DecodeMetadata(|data|, data, n, acc)
         == DecodeMetadata(|data|, data, vEnd, acc[data[n + 4..kEnd] := data[kEnd + 4..vEnd]])
  {
    hide Get32;
  }

  ghost predicate ArePairs(data: Bytes, m: Metadata) {
    exists ps :: PairsBytes(ps) == data && Collected(ps, map[]) == m
  }

  /** A metadata block decodes to a map exactly when it is a list of counted keys and values for it. */
  lemma MetadataIff(data: Bytes, m: Metadata)
    requires |data| < WORD32
    ensures DecodeMetadata(|data|, data, 0, map[]) == Meta(m) <==> ArePairs(data, m)
  {
    hide DecodeMetadata, PairsBytes, Collected;
    if DecodeMetadata(|data|, data, 0, map[]) == Meta(m) {
      var ps := DecodedPairs(data, 0, map[]);
      assert data[0..|data|] == data;
    }
    if ps :| PairsBytes(ps) == data && Collected(ps, map[]) == m {
      AtWhole(data);
      PairsDecode(ps, data, 0, map[]);
    }
  }

  // ----- The layout of a frame

  /** The section at `n` of `data`: a big-endian count and as many bytes. */
  ghost predicate SectionIs(data: Bytes, n: nat, s: Bytes) {
    && n + 4 + |s| <= |data| && data[n + 4..n + 4 + |s|] == s
    && 0x100_0000 * (data[n] as int) + 0x1_0000 * (data[n + 1] as int) + 0x100 * (data[n + 2] as int) + data[n + 3] == |s|
  }

  lemma SectionOfPrefixed(data: Bytes, n: nat, s: Bytes)
    requires At(data, n, Prefixed(s)) && |s| < WORD32
    ensures SectionIs(data, n, s)
  {
    AtPrefixed(data, n, s);
  }

  /** Where everything is: header, total, path, method, metadata and payload, each section with its count. */
  lemma FrameLayout(m: Message, order: seq<Bytes>, cs: Compressors)
    requires forall i :: 0 <= i < |order| ==> order[i] in m.metadata
    requires |BodyOf(m, order, cs)| < WORD32
    ensures var f, (sent, wire) := Frame(m, order, cs), Zipped(m, cs);
      var path, name, meta := 16, 20 + |m.servicePath|, 24 + |m.servicePath| + |m.serviceMethod|;
      && |f| >= 12 && (forall j :: 0 <= j < 12 ==> f[j] == sent.header[j] as int)
      && SectionIs(f, 12, f[16..])
      && SectionIs(f, path, m.servicePath) && SectionIs(f, name, m.serviceMethod)
      && SectionIs(f, meta, MetaBlock(m, order))
      && SectionIs(f, meta + 4 + |MetaBlock(m, order)|, wire)
      && |f| == meta + 8 + |MetaBlock(m, order)| + |wire|
  {
    hide BodyOf, MetaBlock, Zipped, Prefixed, At, Body, SectionIs;
    var f, h, body := Frame(m, order, cs), Raw(Zipped(m, cs).0.header), BodyOf(m, order, cs);
    AtWhole(f);
    AtSplit(f, 0, h, Prefixed(body));
    PrefixedLength(body);
    SectionOfPrefixed(f, 12, body);
    HeaderFirst(f, Zipped(m, cs).0.header, body);
    BodyLayout(f, m, order, cs);
  }

  lemma HeaderFirst(f: Bytes, h: HeaderBytes, body: Bytes)
    requires f == Raw(h) + Prefixed(body)
    ensures |f| == 16 + |body| && (forall j :: 0 <= j < 12 ==> f[j] == h[j] as int) && f[16..] == body
  {
    RawBytes(h);
    hide Put32, Raw;
  }

  lemma RawBytes(h: HeaderBytes)
    ensures forall j :: 0 <= j < 12 ==> Raw(h)[j] == h[j] as int
  {
  }

  lemma BodyLayout(f: Bytes, m: Message, order: seq<Bytes>, cs: Compressors)
    requires forall i :: 0 <= i < |order| ==> order[i] in m.metadata
    requires |BodyOf(m, order, cs)| < WORD32 && |f| == 16 + |BodyOf(m, order, cs)| && f[16..] == BodyOf(m, order, cs)
    ensures var wire := Zipped(m, cs).1;
      var path, name, meta := 16, 20 + |m.servicePath|, 24 + |m.servicePath| + |m.serviceMethod|;
      && SectionIs(f, path, m.servicePath) && SectionIs(f, name, m.serviceMethod)
      && SectionIs(f, meta, MetaBlock(m, order))
      && SectionIs(f, meta + 4 + |MetaBlock(m, order)|, wire)
      && |f| == meta + 8 + |MetaBlock(m, order)| + |wire|
  {
    hide MetaBlock, Zipped, Prefixed, At, SectionIs;
    var path, name, meta, wire := m.servicePath, m.serviceMethod, MetaBlock(m, order), Zipped(m, cs).1;
    BodyLength(path, name, meta, wire);
    PrefixedLength(path);
    PrefixedLength(name);
    PrefixedLength(meta);
    TailAt(f, 16, BodyOf(m, order, cs));
    AtSplit(f, 16, Prefixed(path), Prefixed(name) + (Prefixed(meta) + Prefixed(wire)));
    AtSplit(f, 20 + |path|, Prefixed(name), Prefixed(meta) + Prefixed(wire));
    AtSplit(f, 24 + |path| + |name|, Prefixed(meta), Prefixed(wire));
    SectionOfPrefixed(f, 16, path);
    SectionOfPrefixed(f, 20 + |path|, name);
    SectionOfPrefixed(f, 24 + |path| + |name|, meta);
    SectionOfPrefixed(f, 28 + |path| + |name| + |meta|, wire);
  }

  lemma TailAt(f: Bytes, n: nat, part: Bytes)
    requires n <= |f| && f[n..] == part
    ensures At(f, n, part)
  {
  }

  /** The metadata block begins with the first key visited, then its value, each with its count. */
  lemma {:induction false} MetadataLayout(m: Metadata, order: seq<Bytes>, n: nat)
    requires 1 <= n <= |order| && forall i :: 0 <= i < |order| ==> order[i] in m
    requires |order[0]| < WORD32 && |m[order[0]]| < WORD32
    ensures var block := EncodeMetadata(m, order, n);
      SectionIs(block, 0, order[0]) && SectionIs(block, 4 + |order[0]|, m[order[0]])
  {
    hide Prefixed, At, SectionIs, EncodeMetadata;
    var k, v, block := order[0], m[order[0]], EncodeMetadata(m, order, n);
    FirstPair(m, order);
    MetadataPrefix(m, order, 1, n);
    PrefixedLength(k);
    PrefixAt(block, Prefixed(k) + Prefixed(v));
    AtSplit(block, 0, Prefixed(k), Prefixed(v));
    SectionOfPrefixed(block, 0, k);
    SectionOfPrefixed(block, 4 + |k|, v);
  }

  lemma FirstPair(m: Metadata, order: seq<Bytes>)
    requires order != [] && forall i :: 0 <= i < |order| ==> order[i] in m
    ensures EncodeMetadata(m, order, 1) == Prefixed(order[0]) + Prefixed(m[order[0]])
  {
    hide Prefixed;
    assert EncodeMetadata(m, order, 0) == [];
  }

  lemma PrefixAt(data: Bytes, part: Bytes)
    requires part <= data
    ensures At(data, 0, part)
  {
  }
}
