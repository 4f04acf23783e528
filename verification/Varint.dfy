/**
 * Base 128 varints as the generated Protocol Buffers code writes, sizes and reads them
 * (Protocol Buffers Encoding, section "Base 128 Varints").
 *
 * Machine words are integers below `WORD32` or `WORD64` and `v >> 7` is `v / 128`; the other bit
 * operations are those of module `Bits`.
 */
module Varint {

  import opened Common
  import opened Bits

  /** What a read loop ends with; a failing loop has already accumulated `partial`. */
  datatype Read =
    | Done(value: uint64, next: nat)
    | IntOverflow(partial: uint64)
    | UnexpectedEOF(partial: uint64)

  // ----- The format

  /** `data[i..n]` is one varint: at most ten bytes, and only the last has its top bit clear. */
  ghost predicate IsVarint(data: seq<byte>, i: nat, n: nat) {
    && i < n <= |data| && n - i <= 10
    && data[n - 1] < 0x80
    && forall j :: i <= j < n - 1 ==> data[j] >= 0x80
  }

  /** The low seven bits of each byte, least significant group first. */
  function Value(data: seq<byte>, i: nat, n: nat): nat
    requires i <= n <= |data|
    decreases n - i
  {
    if i == n then 0 else data[i] % 128 + 128 * Value(data, i + 1, n)
  }

  lemma ValueStep(data: seq<byte>, i: nat, n: nat)
    requires i < n <= |data|
    ensures Value(data, i, n) == data[i] % 128 + 128 * if i + 1 == n then 0 else Value(data, i + 1, n)
  {
  }

  lemma {:induction false} ValueOfSlice(d: seq<byte>, i: nat, n: nat, e: seq<byte>, j: nat)
    requires i <= n <= |d| && j + (n - i) <= |e|
    requires d[i..n] == e[j..j + (n - i)]
    ensures Value(d, i, n) == Value(e, j, j + (n - i))
    decreases n - i
  {
    if i < n {
      assert d[i] == d[i..n][0] == e[j];
      assert d[i + 1..n] == d[i..n][1..] == e[j + 1..j + (n - i)];
      ValueOfSlice(d, i + 1, n, e, j + 1);
    }
  }

  lemma VarintOfSlice(d: seq<byte>, i: nat, n: nat, e: seq<byte>, j: nat)
    requires IsVarint(d, i, n) && j + (n - i) <= |e|
    requires d[i..n] == e[j..j + (n - i)]
    ensures IsVarint(e, j, j + (n - i))
  {
    forall k | j <= k < j + (n - i) ensures e[k] == d[i + (k - j)] {
      assert e[k] == e[j..j + (n - i)][k - j] == d[i..n][k - j];
    }
  }

  // ----- Reading

  /** `r` is `acc` and the group of `b`, added in a word of `width` bits. */
  ghost predicate IsGroupSum(r: nat, acc: nat, b: byte, shift: nat, width: nat) {
    && r < Pow2(shift + 7)
    && (width == 32 ==> r == (acc + Pow2(shift) * (b % 128)) % WORD32)
    && (width == 64 ==> r == (acc + Pow2(shift) * (b % 128)) % WORD64)
  }

  /** `acc |= (b & 0x7f) << shift` in a word of `width` bits; the loops keep `acc` below `2^shift`. */
  function OrGroup(acc: nat, b: byte, shift: nat, width: nat): (r: nat)
    requires (width == 32 && acc < WORD32) || (width == 64 && acc < WORD64)
    requires acc < Pow2(shift)
    ensures IsGroupSum(r, acc, b, shift, width)
  {
    OrGroupIsSum(acc, b, shift, width);
    BitOr(acc, Shl(BitAnd(b, 0x7F), shift, width))
  }

  /** The operands share no bit, so their union is their sum. */
  lemma OrGroupIsSum(acc: nat, b: byte, shift: nat, width: nat)
    requires (width == 32 && acc < WORD32) || (width == 64 && acc < WORD64)
    requires acc < Pow2(shift)
    ensures IsGroupSum(BitOr(acc, Shl(BitAnd(b, 0x7F), shift, width)), acc, b, shift, width)
  {
    hide Pow2, BitOr, BitAnd;
    AndMask7(b);
    Pow2Values();
    GroupBelow(acc, b, shift);
    var low := b % 128;
    if shift <= width {
      var k := ShlIsMultiple(low, shift, width);
      OrIsPlus(acc, shift, k);
    } else {
      ShlPastWidth(low, shift, width);
      OrZero(acc);
    }
    ModSum(acc, Pow2(shift) * low);
  }

  lemma ModSum(x: nat, y: nat)
    ensures x + y % WORD32 < WORD32 ==> (x + y) % WORD32 == x + y % WORD32
    ensures x + y % WORD64 < WORD64 ==> (x + y) % WORD64 == x + y % WORD64
    ensures x % WORD32 <= x && x % WORD64 <= x && y % WORD32 <= y && y % WORD64 <= y
  {
  }

  lemma OrZero(x: nat)
    ensures BitOr(x, 0) == x
  {
  }

  lemma GroupBelow(acc: nat, b: byte, shift: nat)
    requires acc < Pow2(shift)
    ensures 0 <= acc + Pow2(shift) * (b % 128) < Pow2(shift + 7)
  {
    hide Pow2;
    Pow2Step(shift);
    MulMonotone(Pow2(shift), b % 128, 127);
  }

  lemma MulMonotone(p: nat, x: nat, y: nat)
    requires x <= y
    ensures 0 <= p * x <= p * y
  {
  }

  /** The read loop from index `i` on, with its shift counter and accumulator. */
  function ReadFrom(data: seq<byte>, i: nat, shift: nat, acc: uint64): (r: Read)
    requires acc < Pow2(shift)
    ensures r.Done? ==> i < r.next <= |data|
    decreases |data| - i
  {
    if shift >= 64 then IntOverflow(acc)
    else if i >= |data| then UnexpectedEOF(acc)
    else
      var acc' := OrGroup(acc, data[i], shift, 64);
      if data[i] < 0x80 then Done(acc', i + 1) else ReadFrom(data, i + 1, shift + 7, acc')
  }

  function ReadAt(data: seq<byte>, i: nat): (r: Read)
    ensures r.Done? ==> i < r.next <= |data|
  {
    ReadFrom(data, i, 0, 0)
  }

  lemma Pow2Step(n: nat)
    ensures Pow2(n + 7) == 128 * Pow2(n)
  {
    assert Pow2(n + 6) == 2 * Pow2(n + 5) == 4 * Pow2(n + 4);
    assert Pow2(n + 4) == 2 * Pow2(n + 3) == 4 * Pow2(n + 2) == 8 * Pow2(n + 1);
  }

  /** Folding a tail of groups in at the next shift is folding head and tail in together at this one. */
  lemma OrGroups(acc: uint64, b: byte, shift: nat, rest: nat)
    requires acc < Pow2(shift)
    ensures (OrGroup(acc, b, shift, 64) + Pow2(shift + 7) * rest) % WORD64
         == (acc + Pow2(shift) * (b % 128 + 128 * rest)) % WORD64
  {
    hide Pow2;
    Pow2Step(shift);
    Distribute(Pow2(shift), b % 128, rest);
    ModAdd(acc + Pow2(shift) * (b % 128), Pow2(shift + 7) * rest);
  }

  lemma Distribute(p: int, x: int, y: int)
    ensures p * (x + 128 * y) == p * x + (128 * p) * y
  {
  }

  lemma ModAdd(x: int, y: int)
    ensures (x % WORD64 + y) % WORD64 == (x + y) % WORD64
  {
  }

  lemma {:induction false} ReadsVarint(data: seq<byte>, i: nat, n: nat, shift: nat, acc: uint64)
    requires IsVarint(data, i, n) && shift + 7 * (n - i) <= 70 && acc < Pow2(shift)
    ensures ReadFrom(data, i, shift, acc) == Done((acc + Pow2(shift) * Value(data, i, n)) % WORD64, n)
    decreases n - i
  {
    hide Pow2;
    if i + 1 == n {
      assert Value(data, i, n) == data[i] % 128;
    } else {
      ReadsVarint(data, i + 1, n, shift + 7, OrGroup(acc, data[i], shift, 64));
      OrGroups(acc, data[i], shift, Value(data, i + 1, n));
    }
  }

  lemma {:induction false} ReadIsVarint(data: seq<byte>, i: nat, shift: nat, acc: uint64)
    requires shift % 7 == 0 && acc < Pow2(shift) && ReadFrom(data, i, shift, acc).Done?
    ensures var n := ReadFrom(data, i, shift, acc).next; IsVarint(data, i, n) && shift + 7 * (n - i) <= 70
    decreases |data| - i
  {
    if data[i] >= 0x80 {
      ReadIsVarint(data, i + 1, shift + 7, OrGroup(acc, data[i], shift, 64));
    }
  }

  /** The loop accepts exactly the varints, and yields their value modulo 2^64 and their end. */
  lemma ReadAtIff(data: seq<byte>, i: nat, v: uint64, n: nat)
    ensures ReadAt(data, i) == Done(v, n) <==> IsVarint(data, i, n) && v == Value(data, i, n) % WORD64
  {
    hide Pow2, Value, ReadFrom;
    Pow2Zero();
    if IsVarint(data, i, n) {
      ReadsVarint(data, i, n, 0, 0);
    }
    if ReadAt(data, i).Done? {
      ReadIsVarint(data, i, 0, 0);
      ReadsVarint(data, i, ReadAt(data, i).next, 0, 0);
    }
  }

  // ----- Reads that fail

  ghost predicate Continue(data: seq<byte>, i: nat, n: nat) {
    n <= |data| && forall j :: i <= j < n ==> data[j] >= 0x80
  }

  /** The data end within the varint at `i`, or before it. */
  ghost predicate Cut(data: seq<byte>, i: nat) {
    |data| < i + 10 && Continue(data, i, |data|)
  }

  /** Ten bytes from `i` on, and the varint still goes on. */
  ghost predicate Overlong(data: seq<byte>, i: nat) {
    Continue(data, i, i + 10)
  }

  lemma {:induction false} ReadsContinued(data: seq<byte>, i: nat, n: nat, shift: nat, acc: uint64)
    requires i <= n && Continue(data, i, n) && shift + 7 * (n - i) <= 70 && acc < Pow2(shift)
    requires shift + 7 * (n - i) == 70 || (n == |data| && shift + 7 * (n - i) < 64)
    ensures var partial := (acc + Pow2(shift) * Value(data, i, n)) % WORD64;
      ReadFrom(data, i, shift, acc) == if shift + 7 * (n - i) == 70 then IntOverflow(partial) else UnexpectedEOF(partial)
    decreases n - i
  {
    hide Pow2;
    if i < n {
      ReadsContinued(data, i + 1, n, shift + 7, OrGroup(acc, data[i], shift, 64));
      OrGroups(acc, data[i], shift, Value(data, i + 1, n));
    }
  }

  lemma {:induction false} FailedReadContinues(data: seq<byte>, i: nat, shift: nat, acc: uint64)
    requires shift % 7 == 0 && shift <= 70 && acc < Pow2(shift) && (shift > 0 ==> i <= |data|)
    ensures ReadFrom(data, i, shift, acc).IntOverflow? ==> Continue(data, i, i + (70 - shift) / 7)
    ensures ReadFrom(data, i, shift, acc).UnexpectedEOF? ==>
      Continue(data, i, |data|) && shift + 7 * (|data| - i) < 70
    decreases |data| - i
  {
    hide Pow2;
    if shift < 64 && i < |data| && data[i] >= 0x80 {
      FailedReadContinues(data, i + 1, shift + 7, OrGroup(acc, data[i], shift, 64));
    } else if shift >= 64 {
      assert shift == 70;
    }
  }

  /** A read ends with an unexpected end exactly where the data are cut, having accumulated what is there. */
  lemma CutIff(data: seq<byte>, i: nat)
    ensures ReadAt(data, i).UnexpectedEOF? <==> Cut(data, i)
    ensures Cut(data, i) && i <= |data| ==> ReadAt(data, i) == UnexpectedEOF(Value(data, i, |data|) % WORD64)
  {
    hide Pow2, Value;
    Pow2Zero();
    FailedReadContinues(data, i, 0, 0);
    if Cut(data, i) && i <= |data| {
      ReadsContinued(data, i, |data|, 0, 0);
    }
  }

  /** And with an overflow exactly where ten bytes go on. */
  lemma OverlongIff(data: seq<byte>, i: nat)
    ensures ReadAt(data, i).IntOverflow? <==> Overlong(data, i)
    ensures Overlong(data, i) ==> ReadAt(data, i) == IntOverflow(Value(data, i, i + 10) % WORD64)
  {
    hide Pow2, Value;
    Pow2Zero();
    FailedReadContinues(data, i, 0, 0);
    if Overlong(data, i) {
      ReadsContinued(data, i, i + 10, 0, 0);
    }
  }

  // ----- Writing

  function Encode(v: nat): (e: seq<byte>)
    ensures |e| > 0
  {
    if v < 128 then [v] else [v % 128 + 128] + Encode(v / 128)
  }

  /** How many bytes the size loop counts. */
  function Sov(v: nat): nat {
    if v / 128 == 0 then 1 else 1 + Sov(v / 128)
  }

  lemma {:induction false} EncodeSize(v: nat)
    ensures |Encode(v)| == Sov(v)
  {
    if v >= 128 {
      EncodeSize(v / 128);
    }
  }

  lemma {:induction false} EncodeFits(v: nat, k: nat)
    requires v < Pow2(7 * k)
    ensures |Encode(v)| <= if k == 0 then 1 else k
  {
    hide Pow2;
    if v >= 128 {
      if k == 0 {
        Pow2Zero();
      } else {
        Pow2Step(7 * (k - 1));
        EncodeFits(v / 128, k - 1);
        if k == 1 {
          Pow2Zero();
        }
      }
    }
  }

  lemma Pow2Zero()
    ensures Pow2(0) == 1
  {
  }

  lemma Word64Fits()
    ensures Pow2(70) == 64 * WORD64
  {
    hide Pow2;
    Pow2Step(0); Pow2Step(7); Pow2Step(14); Pow2Step(21); Pow2Step(28);
    Pow2Step(35); Pow2Step(42); Pow2Step(49); Pow2Step(56); Pow2Step(63);
    Pow2Zero();
  }

  lemma {:induction false} EncodeShape(v: nat)
    ensures var e := Encode(v);
      && e[|e| - 1] < 0x80
      && (forall j :: 0 <= j < |e| - 1 ==> e[j] >= 0x80)
      && Value(e, 0, |e|) == v
  {
    hide Value;
    var e := Encode(v);
    ValueStep(e, 0, |e|);
    if v >= 128 {
      var t := Encode(v / 128);
      EncodeShape(v / 128);
      assert e[1..|e|] == t[0..|t|];
      assert forall j :: 1 <= j < |e| ==> e[j] == t[j - 1];
      ValueOfSlice(e, 1, |e|, t, 0);
    }
  }

  /** Every 64-bit value is written as a varint of at most ten bytes with that value. */
  lemma EncodeIsVarint(v: uint64)
    ensures IsVarint(Encode(v), 0, |Encode(v)|)
    ensures Value(Encode(v), 0, |Encode(v)|) == v
  {
    Word64Fits();
    EncodeFits(v, 10);
    EncodeShape(v);
  }

  // ----- The code

  method ReadUvarint(data: seq<byte>, start: nat) returns (r: Read)
    ensures r == ReadAt(data, start)
  {
    hide Pow2, OrGroup;
    Pow2Zero();
    var i, shift, acc: uint64 := start, 0, 0;
    while true
      invariant i >= start && acc < Pow2(shift)
      invariant ReadFrom(data, i, shift, acc) == ReadAt(data, start)
      decreases |data| - i
    {
      if shift >= 64 {
        return IntOverflow(acc);
      }
      if i >= |data| {
        return UnexpectedEOF(acc);
      }
      var b := data[i];
      i := i + 1;
      acc := OrGroup(acc, b, shift, 64);
      if b < 0x80 {
        return Done(acc, i);
      }
      shift := shift + 7;
    }
  }

  function Truncate(r: Read): Read {
    match r
    case Done(v, n) => Done(v % WORD32, n)
    case IntOverflow(v) => IntOverflow(v % WORD32)
    case UnexpectedEOF(v) => UnexpectedEOF(v % WORD32)
  }

  lemma OrGroupTruncates(acc: uint64, b: byte, shift: nat)
    requires acc < Pow2(shift)
    ensures OrGroup(acc % WORD32, b, shift, 32) == OrGroup(acc, b, shift, 64) % WORD32
  {
    hide Pow2, OrGroup;
    ModMod(acc, Pow2(shift) * (b % 128));
  }

  lemma ModMod(x: nat, y: nat)
    ensures (x % WORD32 + y) % WORD32 == (x + y) % WORD64 % WORD32
  {
    var q := (x + y) / WORD64;
    assert (x + y) % WORD64 == x + y - (q * WORD32) * WORD32;
    assert x % WORD32 == x - (x / WORD32) * WORD32;
  }

  /** The loops that accumulate in an int32: they end alike, with the low 32 bits of the value. */
  method ReadInt32(data: seq<byte>, start: nat) returns (r: Read)
    ensures r == Truncate(ReadAt(data, start))
  {
    hide Pow2, OrGroup;
    Pow2Zero();
    var i, shift, acc: uint64 := start, 0, 0;
    ghost var whole: uint64 := 0;
    while true
      invariant i >= start && whole < Pow2(shift) && acc == whole % WORD32
      invariant ReadFrom(data, i, shift, whole) == ReadAt(data, start)
      decreases |data| - i
    {
      if shift >= 64 {
        return IntOverflow(acc);
      }
      if i >= |data| {
        return UnexpectedEOF(acc);
      }
      var b := data[i];
      i := i + 1;
      OrGroupTruncates(whole, b, shift);
      acc := OrGroup(acc, b, shift, 32);
      whole := OrGroup(whole, b, shift, 64);
      if b < 0x80 {
        return Done(acc, i);
      }
      shift := shift + 7;
    }
  }

  lemma ContinuationByte(v: nat)
    ensures BitOr(BitAnd(v, 0x7F), 0x80) == v % 128 + 128
  {
    AndMask7(v);
    OrTop(v % 128);
  }

  method EncodeVarint(a: array<byte>, start: nat, value: uint64) returns (offset: nat)
    requires start + Sov(value) <= a.Length
    modifies a
    ensures offset == start + Sov(value) && a[start..offset] == Encode(value)
    ensures a[..start] == old(a[..start]) && a[offset..] == old(a[offset..])
  {
    hide BitOr, BitAnd;
    var v: int := value;
    offset := start;
    EncodeSize(v);
    while v >= 128
      invariant 0 <= v && start <= offset && offset + |Encode(v)| == start + Sov(value) <= a.Length
      invariant a[start..offset] + Encode(v) == Encode(value)
      invariant forall k :: 0 <= k < start || offset <= k < a.Length ==> a[k] == old(a[k])
    {
      ghost var written := a[start..offset];
      assert written + Encode(v) == written + [v % 128 + 128] + Encode(v / 128);
      ContinuationByte(v);
      a[offset] := BitOr(BitAnd(v, 0x7F), 0x80);
      assert a[start..offset + 1] == written + [v % 128 + 128];
      v := v / 128;
      offset := offset + 1;
    }
    ghost var written := a[start..offset];
    a[offset] := v;
    offset := offset + 1;
    assert a[start..offset] == written + [v];
  }

  method SovLoop(value: uint64) returns (n: nat)
    ensures n == |Encode(value)|
  {
    EncodeSize(value);
    var x: int := value;
    n := 1;
    x := x / 128;
    while x != 0
      invariant 0 <= x && n + (if x == 0 then 0 else Sov(x)) == Sov(value)
    {
      n := n + 1;
      x := x / 128;
    }
  }
}
