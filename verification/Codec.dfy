/** The encoder, the streaming writer and the decoder as code that fills buffers and assigns fields. */
module Codec {
  import opened Common
  import opened Header
  import opened Wire
  import opened M = Message
  import opened FrameFormat

  // ----- Writing into a recycled buffer

  /** Go's `copy` into the buffer from index `at` on. */
  method CopyAt(data: array<byte>, at: nat, src: Bytes)
    requires at + |src| <= data.Length
    modifies data
    ensures data[..at + |src|] == old(data[..at]) + src
    ensures forall k :: at + |src| <= k < data.Length ==> data[k] == old(data[k])
  {
    for i := 0 to |src|
      invariant data[..at + i] == old(data[..at]) + src[..i]
      invariant forall k :: at + i <= k < data.Length ==> data[k] == old(data[k])
    {
      data[at + i] := src[i];
    }
  }

  /** A length and the field it counts, written one after the other. */
  method PutField(data: array<byte>, at: nat, s: Bytes)
    requires at + 4 + |s| <= data.Length
    modifies data
    ensures data[..at + 4 + |s|] == old(data[..at]) + Prefixed(s)
    ensures forall k :: at + 4 + |s| <= k < data.Length ==> data[k] == old(data[k])
  {
    hide Put32;
    CopyAt(data, at, Put32(|s|));
    CopyAt(data, at + 4, s);
    Associate(old(data[..at]), Put32(|s|), s);
  }

  lemma Associate(x: Bytes, y: Bytes, z: Bytes)
    ensures (x + y) + z == x + (y + z)
  {
  }

  lemma Assemble(h: Bytes, path: Bytes, name: Bytes, meta: Bytes, payload: Bytes)
    ensures var body := Body(path, name, meta, payload);
      && |body| == (4 + |path|) + (4 + |name|) + (4 + |meta|) + (4 + |payload|)
      && ((((h + Put32(|body|)) + Prefixed(path)) + Prefixed(name)) + Prefixed(meta)) + Prefixed(payload)
         == h + Prefixed(body)
  {
    hide Put32;
  }

  /** Every field at its computed offset; each stale byte is overwritten or lies beyond the frame. */
  method PutFrame(data: array<byte>, header: Bytes, path: Bytes, name: Bytes, meta: Bytes, payload: Bytes)
    returns (l: nat)
    requires |header| == 12 && 16 + |Body(path, name, meta, payload)| <= data.Length
    modifies data
    ensures l == 16 + |Body(path, name, meta, payload)|
    ensures data[..l] == header + Prefixed(Body(path, name, meta, payload))
    ensures forall k :: l <= k < data.Length ==> data[k] == old(data[k])
  {
    hide Put32, Prefixed, Body;
    Assemble(header, path, name, meta, payload);
    var totalL := (4 + |path|) + (4 + |name|) + (4 + |meta|) + (4 + |payload|);
    var metaStart := 12 + 4 + (4 + |path|) + (4 + |name|);
    var payloadStart := metaStart + (4 + |meta|);
    l := 12 + 4 + totalL;
    CopyAt(data, 0, header);
    CopyAt(data, 12, Put32(totalL));
    PutField(data, 16, path);
    PutField(data, 20 + |path|, name);
    PutField(data, metaStart, meta);
    PutField(data, payloadStart, payload);
  }

  // ----- The writer that streams a message

  /** An `io.Writer` that accepts `room` more bytes and then fails. */
  class Writer {
    var out: Bytes
    var room: nat

    constructor (room: nat)
      ensures out == [] && this.room == room
    {
      out, this.room := [], room;
    }

    method Write(p: Bytes) returns (n: nat, ok: bool)
      modifies this
      ensures n == (if |p| <= old(room) then |p| else old(room)) && ok == (|p| <= old(room))
      ensures out == old(out) + p[..n] && room == old(room) - n
    {
      n := if |p| <= room then |p| else room;
      ok := n == |p|;
      out := out + p[..n];
      room := room - n;
    }

    /** Several writes, each of which must succeed before the next is tried. */
    method WriteParts(parts: seq<Bytes>) returns (ok: bool)
      modifies this
      ensures var whole := Concat(parts, |parts|);
        && ok == (|whole| <= old(room))
        && (ok ==> out == old(out) + whole && room == old(room) - |whole|)
        && (!ok ==> out == old(out) + whole[..old(room)])
    {
      hide Concat;
      ConcatZero(parts);
      ghost var whole := Concat(parts, |parts|);
      for i := 0 to |parts|
        invariant |Concat(parts, i)| <= old(room) && room == old(room) - |Concat(parts, i)|
        invariant out == old(out) + Concat(parts, i)
      {
        ConcatStep(parts, i);
        ConcatPrefix(parts, i + 1, |parts|);
        var last;
        last, ok := Write(parts[i]);
        if !ok {
          assert whole[..old(room)] == Concat(parts, i + 1)[..old(room)] == Concat(parts, i) + parts[i][..last];
          return;
        }
        assert parts[i][..last] == parts[i];
      }
      ok := true;
    }

    /** The writes before the payload and then the payload; `nn` is the count to report without it. */
    method WriteRest(heads: seq<Bytes>, payload: Bytes, nn: nat) returns (n: nat, ok: bool)
      modifies this
      ensures var before := Concat(heads, |heads|);
        && var written := Min(old(room), |before + payload|);
        && ok == (|before + payload| <= old(room))
        && out == old(out) + (before + payload)[..written]
        && n == (if old(room) < |before| then nn else written - |before|)
    {
      hide Concat;
      ghost var before := Concat(heads, |heads|);
      ok := WriteParts(heads);
      if !ok {
        assert (before + payload)[..old(room)] == before[..old(room)];
        return nn, ok;
      }
      PrefixOfSum(before, payload, Min(room, |payload|));
      n, ok := Write(payload);
    }
  }

  function Min(a: nat, b: nat): nat {
    if a <= b then a else b
  }

  function Concat(parts: seq<Bytes>, n: nat): Bytes
    requires n <= |parts|
  {
    if n == 0 then [] else Concat(parts, n - 1) + parts[n - 1]
  }

  lemma ConcatZero(parts: seq<Bytes>)
    ensures Concat(parts, 0) == []
  {
  }

  lemma ConcatStep(parts: seq<Bytes>, n: nat)
    requires n < |parts|
    ensures Concat(parts, n + 1) == Concat(parts, n) + parts[n]
  {
  }

  lemma PrefixOfSum(x: Bytes, y: Bytes, k: nat)
    requires k <= |y|
    ensures (x + y)[..|x| + k] == x + y[..k]
  {
  }

  lemma {:induction false} ConcatPrefix(parts: seq<Bytes>, i: nat, n: nat)
    requires i <= n <= |parts|
    ensures Concat(parts, i) <= Concat(parts, n)
    decreases n
  {
    if i < n {
      ConcatPrefix(parts, i, n - 1);
    }
  }

  datatype WriteError = NoError | UnsupportedCompressor | ZipFailed | WriterFailed

  // ----- The message object

  /** `ReadFull` into the header array. */
  method FillHeader(h: array<bv8>, src: Bytes)
    requires h.Length == 12 && |src| <= 12
    modifies h
    ensures h[..] == Overlay(old(h[..]), src)
    ensures |src| == 12 ==> h[..] == Cooked(src)
  {
    hide Octet;
    for i := 0 to |src|
      invariant forall j :: 0 <= j < i ==> h[j] == Octet(src[j])
      invariant forall j :: i <= j < 12 ==> h[j] == old(h[j])
    {
      h[i] := Octet(src[i]);
    }
    assert h[..] == Overlay(old(h[..]), src);
    if |src| == 12 {
      assert h[..] == Cooked(src);
    }
  }

  /** The first byte is read on its own, then the rest. */
  lemma OverlayTwice(h: HeaderBytes, b: Bytes)
    requires 1 <= |b| <= 12
    ensures Overlay(h[0 := Octet(b[0])], b) == Overlay(h, b)
  {
    hide Octet;
  }

  datatype Result = Next(i: nat) | Err(e: Error)

  class Msg {
    var head: HeaderArray
    var servicePath: Bytes
    var serviceMethod: Bytes
    var metadata: Metadata
    var payload: Bytes

    ghost predicate Valid()
      reads this, head
    {
      head.Valid()
    }

    ghost function Value(): Message
      requires Valid()
      reads this, head, head.bytes
    {
      Message(head.Value(), servicePath, serviceMethod, metadata, payload)
    }

    constructor ()
      ensures Valid() && fresh(head) && fresh(head.bytes) && Value() == NewMessage()
    {
      head := new HeaderArray();
      servicePath, serviceMethod, metadata, payload := [], [], map[], [];
      new;
      assert head.Value() == NewMessage().header;
    }

    /** The payload to send; when it cannot be compressed, the header is changed to say so. */
    method ZipPayload(cs: Compressors) returns (wire: Bytes)
      requires Valid()
      modifies head.bytes
      ensures Valid() && (Value(), wire) == Zipped(old(Value()), cs)
    {
      hide Set, Abstract, Update;
      wire := payload;
      var ct := CompressType(head.bytes[..]);
      if ct != NONE {
        if ct in cs {
          var z := cs[ct].zip(payload);
          if z.Some? {
            wire := z.value;
            return;
          }
        }
        head.SetCompressType(NONE);
        SetterIsDetermined(old(head.Value()), head.Value(), SetCompressType(NONE));
      }
    }

    /** `data` is a recycled buffer of at least the frame's length, whatever it holds. */
    method EncodeSlicePointer(order: seq<Bytes>, cs: Compressors, data: array<byte>) returns (l: nat)
      requires Valid() && IsIterationOrder(order, metadata)
      requires |Frame(Value(), order, cs)| <= data.Length
      modifies head.bytes, data
      ensures Valid() && Value() == Zipped(old(Value()), cs).0
      ensures data[..] == Frame(old(Value()), order, cs) + old(data[|Frame(Value(), order, cs)|..])
      ensures l == |Frame(old(Value()), order, cs)|
    {
      hide Zipped, EncodeMetadata, Raw, Prefixed, Body;
      ghost var m := Value();
      PrefixedLength(BodyOf(m, order, cs));
      var meta := WriteMetadata(metadata, order);
      var wire := ZipPayload(cs);
      l := PutFrame(data, Raw(head.bytes[..]), servicePath, serviceMethod, meta, wire);
      assert data[..] == data[..l] + data[l..];
    }

    /**
     * Writes header, total, and the fields one by one. Everything it writes is a prefix of the frame,
     * as long as the writer takes it; a compressor that is missing or fails stops it after the header.
     * The count it returns is that of the last write it looked at: the header's or the payload's. So it
     * is the count of what was written exactly when nothing was written beyond the header.
     */
    method WriteTo(order: seq<Bytes>, cs: Compressors, w: Writer) returns (n: nat, err: WriteError)
      requires Valid() && IsIterationOrder(order, metadata)
      modifies w
      ensures var room, h, whole, wire := old(w.room), Raw(Value().header), Frame(Value(), order, cs), Zipped(Value(), cs).1;
        if Zipped(Value(), cs).0 == Value() then
          && err == (if |whole| <= room then NoError else WriterFailed)
          && w.out == old(w.out) + whole[..Min(room, |whole|)]
          && n == (if room < |whole| - |wire| then Min(room, 12) else Min(room, |whole|) - (|whole| - |wire|))
        else
          && err == (if room < 12 then WriterFailed
                     else if CompressType(Value().header) !in cs then UnsupportedCompressor else ZipFailed)
          && w.out == old(w.out) + h[..Min(room, 12)]
          && n == Min(room, 12)
      ensures n == |w.out| - |old(w.out)| <==> old(w.room) <= 12 || Zipped(Value(), cs).0 != Value()
    {
      hide EncodeMetadata, Raw, Prefixed, Body, Put32, Set, Concat, Heads;
      ghost var m, whole := Value(), Frame(Value(), order, cs);
      var header := Raw(head.bytes[..]);
      FrameLength(m, order, cs);
      var nn, ok := w.Write(header);
      if !ok {
        assert whole[..nn] == Raw(Zipped(m, cs).0.header)[..nn];
        return nn, WriterFailed;
      }
      assert header[..12] == header;
      var meta := WriteMetadata(metadata, order);
      var wire := payload;
      var ct := CompressType(head.bytes[..]);
      if ct != NONE {
        FallbackChangesMessage(m);
        if ct !in cs {
          return nn, UnsupportedCompressor;
        }
        var z := cs[ct].zip(payload);
        if !z.Some? {
          return nn, ZipFailed;
        }
        wire := z.value;
      }
      var heads := Heads(servicePath, serviceMethod, meta, wire);
      HeadsAndPayload(servicePath, serviceMethod, meta, wire);
      ghost var rest, left := Concat(heads, 8) + wire, w.room;
      n, ok := w.WriteRest(heads, wire, nn);
      PrefixOfSum(header, rest, Min(left, |rest|));
      err := if ok then NoError else WriterFailed;
    }

    /** Reads the header in place, then the body, assigning each field as it is parsed. */
    method DecodeFrom(cs: Compressors, maxLength: nat, stream: Bytes, i: nat) returns (r: Result)
      requires Valid()
      modifies this, head.bytes
      ensures Valid() && head == old(head)
      ensures match Decode(old(Value()), cs, maxLength, stream, i)
        case Got(m, n) => r == Next(n) && Value() == m
        case Failed(e, m) => r == Err(e) && Value() == m
      ensures Value().header[0] == if i < |stream| then Octet(stream[i]) else old(Value()).header[0]
      ensures r.Next? ==> HoldsMessage(old(metadata), cs, maxLength, stream, i, Value(), r.i)
      ensures r == Err(ErrMessageTooLong) <==> TooLong(maxLength, stream, i) && Octet(stream[i]) == MAGIC
    {
      hide DecodeBody, Get32, Cooked, Octet, Overlay, HoldsMessage;
      ghost var d := Decode(Value(), cs, maxLength, stream, i);
      FirstByteLeft(Value(), cs, maxLength, stream, i);
      RefusedIff(Value(), cs, maxLength, stream, i);
      if d.Got? {
        DecodeIff(Value(), cs, maxLength, stream, i, d.m, d.next);
      }
      if i + 1 > |stream| {
        return Err(ShortRead);
      }
      head.bytes[0] := Octet(stream[i]);
      if head.bytes[0] != MAGIC {
        return Err(WrongMagicNumber);
      }
      if i + 12 > |stream| {
        FillHeader(head.bytes, stream[i..]);
        OverlayTwice(old(head.Value()), stream[i..]);
        return Err(ShortRead);
      }
      FillHeader(head.bytes, stream[i..i + 12]);
      if i + 16 > |stream| {
        return Err(ShortRead);
      }
      var l := Get32(stream, i + 12);
      if maxLength > 0 && l > maxLength {
        return Err(ErrMessageTooLong);
      }
      if i + 16 + l > |stream| {
        return Err(ShortRead);
      }
      r := DecodeFields(cs, stream[i + 16..i + 16 + l], i + 16 + l);
    }

    method DecodeFields(cs: Compressors, data: Bytes, next: nat) returns (r: Result)
      requires Valid() && |data| < WORD32
      modifies this
      ensures Valid() && head == old(head)
      ensures match DecodeBody(old(Value()), cs, data, next)
        case Got(m, n) => r == Next(n) && Value() == m
        case Failed(e, m) => r == Err(e) && Value() == m
    {
      hide Get32, DecodeMetadata;
      ghost var prev := Value();
      var end := SectionEnd(data, 0);
      if end.None? {
        return Err(SliceOutOfRange);
      }
      servicePath := data[4..end.value];
      var n := end.value;
      end := SectionEnd(data, n);
      if end.None? {
        return Err(SliceOutOfRange);
      }
      serviceMethod := data[n + 4..end.value];
      n := end.value;
      end := SectionEnd(data, n);
      if end.None? {
        return Err(SliceOutOfRange);
      }
      var meta := data[n + 4..end.value];
      if meta != [] {
        var md := ReadMetadata(|meta|, meta);
        match md {
          case ErrMetaKVMissing(sofar) =>
            metadata := sofar;
            return Err(MetaKVMissing);
          case OutOfRange => return Err(SliceOutOfRange);
          case Meta(m) => metadata := m;
        }
      }
      n := end.value;
      if n + 4 > |data| {
        return Err(SliceOutOfRange);
      }
      payload := data[n + 4..];
      var ct := CompressType(head.bytes[..]);
      if ct != NONE {
        if ct !in cs {
          return Err(ErrUnsupportedCompressor);
        }
        var x := cs[ct].unzip(payload);
        if !x.Some? {
          payload := [];
          return Err(UnzipFailed);
        }
        payload := x.value;
      }
      r := Next(next);
    }

    /** Clones into a message from the pool, which gets a header of its own. */
    method CloneTo(pooled: Msg)
      requires Valid() && pooled.Valid() && pooled != this
      modifies pooled
      ensures Valid() && Value() == old(Value())
      ensures pooled.Valid() && fresh(pooled.head) && fresh(pooled.head.bytes)
      ensures pooled.Value() == Clone(old(Value()), old(pooled.Value()))
    {
      hide Set, Abstract, Update;
      var header := new HeaderArray.Copy(head.bytes[..]);
      header.SetCompressType(NONE);
      SetterIsDetermined(head.Value(), header.Value(), SetCompressType(NONE));
      pooled.head := header;
      pooled.servicePath := servicePath;
      pooled.serviceMethod := serviceMethod;
    }

    /** Puts the message back to its initial state, but for the first header byte. */
    method ResetFields()
      requires Valid()
      modifies this, head.bytes
      ensures Valid() && head == old(head) && Value() == Reset(old(Value()))
    {
      for i := 1 to 12
        invariant head == old(head) && head.bytes[0] == old(head.bytes[0])
        invariant forall j :: 1 <= j < i ==> head.bytes[j] == 0
      {
        head.bytes[i] := 0;
      }
      metadata := map[];
      payload := [];
      servicePath := [];
      serviceMethod := [];
      assert head.Value() == Reset(old(Value())).header;
    }
  }

  /** What `WriteTo` writes between the header and the payload, write by write. */
  function Heads(path: Bytes, name: Bytes, meta: Bytes, payload: Bytes): (parts: seq<Bytes>)
    ensures |parts| == 8
  {
    var totalL := (4 + |path|) + (4 + |name|) + (4 + |meta|) + (4 + |payload|);
    [Put32(totalL), Put32(|path|), path, Put32(|name|), name, Put32(|meta|), meta, Put32(|payload|)]
  }

  lemma HeadsAndPayload(path: Bytes, name: Bytes, meta: Bytes, payload: Bytes)
    ensures Concat(Heads(path, name, meta, payload), 8) + payload == Prefixed(Body(path, name, meta, payload))
  {
    hide Put32, Concat, Body;
    var parts := Heads(path, name, meta, payload) + [payload];
    ConcatOne(parts);
    ConcatTwo(parts, 1);
    ConcatTwo(parts, 3);
    ConcatTwo(parts, 5);
    ConcatTwo(parts, 7);
    ConcatStep(parts, 8);
    ConcatOfPrefix(Heads(path, name, meta, payload), parts, 8);
    Assemble([], path, name, meta, payload);
    var total := Put32(|Body(path, name, meta, payload)|);
    assert [] + total == total;
  }

  lemma {:induction false} ConcatOfPrefix(parts: seq<Bytes>, parts': seq<Bytes>, n: nat)
    requires n <= |parts| && parts <= parts'
    ensures Concat(parts, n) == Concat(parts', n)
  {
    if n > 0 {
      ConcatOfPrefix(parts, parts', n - 1);
    }
  }

  lemma ConcatOne(parts: seq<Bytes>)
    requires |parts| >= 1
    ensures Concat(parts, 1) == parts[0]
  {
  }

  lemma ConcatTwo(parts: seq<Bytes>, k: nat)
    requires k + 2 <= |parts|
    ensures Concat(parts, k + 2) == Concat(parts, k) + (parts[k] + parts[k + 1])
  {
    assert Concat(parts, k + 1) == Concat(parts, k) + parts[k];
    Associate(Concat(parts, k), parts[k], parts[k + 1]);
  }

  lemma FallbackChangesMessage(m: Message)
    requires CompressType(m.header) != NONE
    ensures Uncompressed(m) != m
  {
    ClearedCompressType(m);
  }
}
