/** Length prefixes and the metadata block of a frame. */
module Wire {
  import opened Common

  type Metadata = map<Bytes, Bytes>

  // ----- Big-endian 32-bit numbers

  /** `PutUint32(uint32(n))`: the low 32 bits of the number, most significant byte first. */
  function Put32(n: nat): (b: Bytes)
    ensures |b| == 4
    ensures 0x100_0000 * (b[0] as int) + 0x1_0000 * (b[1] as int) + 0x100 * (b[2] as int) + b[3] == n % WORD32
  {
    Digits(n % WORD32);
    var v := n % WORD32;
    [v / 0x100_0000 % 256, v / 0x1_0000 % 256, v / 0x100 % 256, v % 256]
  }

  /** `Uint32` of the four bytes at index `i`. */
  function Get32(data: Bytes, i: nat): (n: nat)
    requires i + 4 <= |data|
    ensures n < WORD32
  {
    0x100_0000 * (data[i] as int) + 0x1_0000 * (data[i + 1] as int) + 0x100 * (data[i + 2] as int) + data[i + 3]
  }

  lemma Get32OfPut32(data: Bytes, i: nat, n: nat)
    requires At(data, i, Put32(n)) && n < WORD32
    ensures i + 4 <= |data| && Get32(data, i) == n
  {
    var b := Put32(n);
    assert data[i..i + 4] == b;
    assert data[i] == b[0] && data[i + 1] == b[1] && data[i + 2] == b[2] && data[i + 3] == b[3];
    Digits(n);
  }

  lemma Digits(n: nat)
    requires n < WORD32
    ensures 0x100_0000 * (n / 0x100_0000 % 256) + 0x1_0000 * (n / 0x1_0000 % 256) + 0x100 * (n / 0x100 % 256) + n % 256 == n
  {
    var a := n / 256;
    var b := a / 256;
    var c := b / 256;
    assert n / 0x1_0000 == b && n / 0x100_0000 == c && c < 256;
  }

  /** A length prefix and what it counts. */
  function Prefixed(s: Bytes): Bytes {
    Put32(|s|) + s
  }

  lemma AtPrefixed(data: Bytes, i: nat, s: Bytes)
    requires At(data, i, Prefixed(s)) && |s| < WORD32
    ensures i + 4 + |s| <= |data| && Get32(data, i) == |s| && data[i + 4..i + 4 + |s|] == s
  {
    AtSplit(data, i, Put32(|s|), s);
    Get32OfPut32(data, i, |s|);
  }

  // ----- Metadata

  /** What the encoder writes for the first `n` keys in iteration order. */
  function EncodeMetadata(m: Metadata, order: seq<Bytes>, n: nat): Bytes
    requires n <= |order| && forall i :: 0 <= i < |order| ==> order[i] in m
  {
    if n == 0 then []
    else EncodeMetadata(m, order, n - 1) + (Prefixed(order[n - 1]) + Prefixed(m[order[n - 1]]))
  }

  datatype MetaResult =
    | Meta(m: Metadata)
    | ErrMetaKVMissing(sofar: Metadata)
    | OutOfRange

  /** The loop's uint32 cursor. */
  function Wrap(n: int): nat {
    n % WORD32
  }

  /**
   * `decodeMetadata` from cursor `n` on, `acc` being the map so far. The cursor and every sum are
   * uint32, so they wrap around; slicing outside the data panics. Its error comes with the map so far.
   */
  function DecodeMetadata(l: nat, data: Bytes, n: nat, acc: Metadata): MetaResult
    requires l < WORD32
    decreases |data| - n
  {
    if n >= l then Meta(acc)
    else if n + 4 > |data| || n + 4 >= WORD32 then OutOfRange
    else
      var k := n + 4;
      var kEnd := Wrap(k + Get32(data, n));
      if kEnd > Wrap(l - 4) then ErrMetaKVMissing(acc)
      else if kEnd < k || kEnd + 4 > |data| || kEnd + 4 >= WORD32 then OutOfRange
      else
        var v := kEnd + 4;
        var vEnd := Wrap(v + Get32(data, kEnd));
        if vEnd > l then ErrMetaKVMissing(acc)
        else if vEnd < v || vEnd > |data| then OutOfRange
        else DecodeMetadata(l, data, vEnd, acc[data[k..kEnd] := data[v..vEnd]])
  }

  /** The entries of `m` under the first `n` keys of the order. */
  function Entries(m: Metadata, order: seq<Bytes>, n: nat): Metadata
    requires n <= |order| && forall i :: 0 <= i < |order| ==> order[i] in m
  {
    if n == 0 then map[] else Entries(m, order, n - 1)[order[n - 1] := m[order[n - 1]]]
  }

  lemma {:induction false} EntriesAgree(m: Metadata, order: seq<Bytes>, n: nat)
    requires n <= |order| && forall i :: 0 <= i < |order| ==> order[i] in m
    ensures forall k :: k in Entries(m, order, n) <==> k in order[..n]
    ensures forall k :: k in Entries(m, order, n) ==> k in m && Entries(m, order, n)[k] == m[k]
  {
    if n > 0 {
      EntriesAgree(m, order, n - 1);
      assert order[..n] == order[..n - 1] + [order[n - 1]];
    }
  }

  lemma {:induction false} MetadataPrefix(m: Metadata, order: seq<Bytes>, n: nat, last: nat)
    requires n <= last <= |order| && forall i :: 0 <= i < |order| ==> order[i] in m
    ensures EncodeMetadata(m, order, n) <= EncodeMetadata(m, order, last)
    decreases last - n
  {
    if n < last {
      MetadataPrefix(m, order, n, last - 1);
    }
  }

  /** Where the `n`-th pair sits in the block. */
  lemma PairAt(m: Metadata, order: seq<Bytes>, n: nat)
    requires n < |order| && forall i :: 0 <= i < |order| ==> order[i] in m
    ensures var data, i := EncodeMetadata(m, order, |order|), |EncodeMetadata(m, order, n)|;
      && At(data, i, Prefixed(order[n]) + Prefixed(m[order[n]]))
      && |EncodeMetadata(m, order, n + 1)| == i + 8 + |order[n]| + |m[order[n]]| <= |data|
  {
    var pair := Prefixed(order[n]) + Prefixed(m[order[n]]);
    MetadataPrefix(m, order, n + 1, |order|);
    var data, upTo := EncodeMetadata(m, order, |order|), EncodeMetadata(m, order, n + 1);
    var i := |EncodeMetadata(m, order, n)|;
    assert data[i..i + |pair|] == upTo[i..i + |pair|] == pair;
  }

  lemma DecodesPair(data: Bytes, n: nat, acc: Metadata, k: Bytes, v: Bytes)
    requires |data| < WORD32 && At(data, n, Prefixed(k) + Prefixed(v))
    ensures n + 8 + |k| + |v| <= |data|
    ensures DecodeMetadata(|data|, data, n, acc) == DecodeMetadata(|data|, data, n + 8 + |k| + |v|, acc[k := v])
  {
    hide Prefixed, Get32, At, Wrap;
    AtSplit(data, n, Prefixed(k), Prefixed(v));
    AtWithin(data, n, Prefixed(k) + Prefixed(v));
    PrefixedLength(k);
    PrefixedLength(v);
    AtPrefixed(data, n, k);
    AtPrefixed(data, n + 4 + |k|, v);
    WrapSmall(n + 4 + |k|);
    WrapSmall(n + 8 + |k| + |v|);
    WrapSmall(|data| - 4);
  }

  lemma WrapSmall(n: nat)
    requires n < WORD32
    ensures Wrap(n) == n
  {
  }

  lemma DecodesEnd(data: Bytes, acc: Metadata)
    requires |data| < WORD32
    ensures DecodeMetadata(|data|, data, |data|, acc) == Meta(acc)
  {
  }

  lemma {:induction false} DecodesFrom(m: Metadata, order: seq<Bytes>, n: nat, data: Bytes)
    requires n <= |order| && forall i :: 0 <= i < |order| ==> order[i] in m
    requires data == EncodeMetadata(m, order, |order|) && |data| < WORD32
    ensures DecodeMetadata(|data|, data, |EncodeMetadata(m, order, n)|, Entries(m, order, n))
         == Meta(Entries(m, order, |order|))
    decreases |order| - n
  {
    hide EncodeMetadata, DecodeMetadata, Prefixed, At;
    if n == |order| {
      DecodesEnd(data, Entries(m, order, n));
    } else {
      PairAt(m, order, n);
      var i := |EncodeMetadata(m, order, n)|;
      DecodesPair(data, i, Entries(m, order, n), order[n], m[order[n]]);
      DecodesFrom(m, order, n + 1, data);
    }
  }

  lemma PrefixedLength(s: Bytes)
    ensures |Prefixed(s)| == 4 + |s|
  {
  }

  /** Decoding restores every map, whatever order its keys were written in. */
  lemma MetadataRoundTrip(m: Metadata, order: seq<Bytes>)
    requires IsIterationOrder(order, m) && |EncodeMetadata(m, order, |order|)| < WORD32
    ensures var data := EncodeMetadata(m, order, |order|);
      && DecodeMetadata(|data|, data, 0, map[]) == Meta(m)
      && (data == [] <==> m == map[])
  {
    DecodesFrom(m, order, 0, EncodeMetadata(m, order, |order|));
    EntriesAgree(m, order, |order|);
    assert order[..|order|] == order;
    assert Entries(m, order, |order|) == m;
    if order != [] {
      PairAt(m, order, 0);
    }
  }

  // ----- The code

  method WriteMetadata(m: Metadata, order: seq<Bytes>) returns (bb: Bytes)
    requires IsIterationOrder(order, m)
    ensures bb == EncodeMetadata(m, order, |order|)
  {
    bb := [];
    for i := 0 to |order|
      invariant bb == EncodeMetadata(m, order, i)
    {
      var k, v := order[i], m[order[i]];
      assert bb + Put32(|k|) + k + Put32(|v|) + v == bb + (Prefixed(k) + Prefixed(v));
      bb := bb + Put32(|k|);
      bb := bb + k;
      bb := bb + Put32(|v|);
      bb := bb + v;
    }
  }

  method ReadMetadata(l: nat, data: Bytes) returns (r: MetaResult)
    requires l < WORD32
    ensures r == DecodeMetadata(l, data, 0, map[])
  {
    hide Get32;
    var m: Metadata, n := map[], 0;
    while n < l
      invariant 0 <= n && DecodeMetadata(l, data, n, m) == DecodeMetadata(l, data, 0, map[])
      decreases |data| - n
    {
      if n + 4 > |data| || n + 4 >= WORD32 {
        return OutOfRange;
      }
      var sl := Get32(data, n);
      n := n + 4;
      if Wrap(n + sl) > Wrap(l - 4) {
        return ErrMetaKVMissing(m);
      }
      var end := Wrap(n + sl);
      if end < n || end + 4 > |data| || end + 4 >= WORD32 {
        return OutOfRange;
      }
      var k := data[n..end];
      n := end;
      sl := Get32(data, n);
      n := n + 4;
      if Wrap(n + sl) > l {
        return ErrMetaKVMissing(m);
      }
      end := Wrap(n + sl);
      if end < n || end > |data| {
        return OutOfRange;
      }
      var v := data[n..end];
      n := end;
      m := m[k := v];
    }
    return Meta(m);
  }
}
