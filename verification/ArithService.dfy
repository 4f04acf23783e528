/** The generated message of two int32 fields: size, marshalling and unmarshalling. */
module ArithService {
  import opened Common
  import opened Varint
  import opened Skipper

  type int32 = x: int | -0x8000_0000 <= x < 0x8000_0000

  datatype Args = Args(a: int32, b: int32)

  datatype Status =
    | Success
    | EndGroupForNonGroup
    | IllegalTag
    | WrongWireType
    | Stopped(why: Outcome)

  /** Go's conversion to int32: the low 32 bits, as a signed number. */
  function Int32(v: nat): int32 {
    var low := v % WORD32;
    if low < 0x8000_0000 then low else low - WORD32
  }

  /** Go's conversion of an int32 to uint64, which extends the sign. */
  function Uint64(x: int32): uint64 {
    x % WORD64
  }

  /** Both conversions keep the number modulo the smaller word. */
  lemma ConversionsAreCongruent(v: nat, x: int32)
    ensures (v - Int32(v)) % WORD32 == 0 && (Uint64(x) - x) % WORD64 == 0
  {
  }

  lemma Int32OfLow(v: nat)
    ensures Int32(v % WORD32) == Int32(v)
  {
  }

  lemma SignExtensionIsUndone(x: int32)
    ensures Int32(Uint64(x)) == x
  {
    assert x < 0 ==> Uint64(x) == (WORD32 - 1) * WORD32 + (WORD32 + x);
  }

  // ----- Unmarshalling

  function FieldNum(tag: uint64): int32 {
    Int32(tag / 8)
  }

  function Set(m: Args, num: int, x: int32): Args {
    if num == 1 then m.(a := x) else m.(b := x)
  }

  /** The outer loop from index `i` on; a failure leaves the fields as they are at that point. */
  function Unmarshal(m: Args, data: seq<byte>, i: nat): (r: (Status, Args))
    requires i <= |data| <= INT64_MAX
    decreases |data| - i
  {
    if i == |data| then (Success, m)
    else
      var tag := ReadAt(data, i);
      if !tag.Done? then (Stopped(Fail(tag)), m)
      else
        var num, wireType := FieldNum(tag.value), tag.value % 8;
        if wireType == 4 then (EndGroupForNonGroup, m)
        else if num <= 0 then (IllegalTag, m)
        else if num <= 2 then
          if wireType != 0 then (WrongWireType, m)
          else
            var v := ReadAt(data, tag.next);
            if v.Done? then Unmarshal(Set(m, num, Int32(v.value)), data, v.next)
            else (Stopped(Fail(v)), Set(m, num, Int32(v.partial)))
        else
          match Skip(data, i)
          case Index(n) =>
            if n < 0 then (Stopped(ErrInvalidLength), m)
            else if n > INT64_MAX then (Stopped(Panic), m)
            else if n > |data| then (Stopped(ErrUnexpectedEOF), m)
            else Unmarshal(m, data, n)
          case failure => (Stopped(failure), m)
  }

  // ----- What a message means

  function Num(f: Field): int32 {
    FieldNum(Word(f.tag))
  }

  /** A field a peer may send: its number is positive, and the two known ones are varints. */
  ghost predicate Acceptable(f: Field) {
    WellFormed(f) && Num(f) > 0 && (Num(f) <= 2 ==> f.VarintField?)
  }

  ghost predicate AllAcceptable(fs: seq<Field>) {
    fs == [] || (Acceptable(fs[0]) && AllAcceptable(fs[1..]))
  }

  function Apply(m: Args, f: Field): Args {
    if f.VarintField? && 0 < Num(f) <= 2 then Set(m, Num(f), Int32(Word(f.value))) else m
  }

  function ApplyAll(m: Args, fs: seq<Field>): Args
    decreases fs
  {
    if fs == [] then m else ApplyAll(Apply(m, fs[0]), fs[1..])
  }

  /** A field that gives field `num` of the message a value. */
  predicate Gives(f: Field, num: int) {
    f.VarintField? && Num(f) == num
  }

  /** The value the last field numbered `num` gives, or `x` without one. */
  function Last(fs: seq<Field>, num: int, x: int32): int32
    decreases fs
  {
    if fs == [] then x
    else Last(fs[1..], num, if Gives(fs[0], num) then Int32(Word(fs[0].value)) else x)
  }

  /** Said of positions: the value of the `k`-th field, if it gives one and none behind it does. */
  lemma {:induction false} LastIs(fs: seq<Field>, num: int, x: int32, k: nat)
    ensures (forall j :: 0 <= j < |fs| ==> !Gives(fs[j], num)) ==> Last(fs, num, x) == x
    ensures k < |fs| && Gives(fs[k], num) && (forall j :: k < j < |fs| ==> !Gives(fs[j], num)) ==>
      Last(fs, num, x) == Int32(Word(fs[k].value))
    decreases fs
  {
    hide Num, Word, Int32;
    if fs != [] {
      var rest := fs[1..];
      var x' := if Gives(fs[0], num) then Int32(Word(fs[0].value)) else x;
      assert forall j :: 0 <= j < |rest| ==> rest[j] == fs[j + 1];
      if k == 0 {
        LastIs(rest, num, x', 0);
        assert (forall j :: 0 < j < |fs| ==> !Gives(fs[j], num)) ==> forall j :: 0 <= j < |rest| ==> !Gives(rest[j], num);
      } else {
        LastIs(rest, num, x', k - 1);
      }
      assert (forall j :: 0 <= j < |fs| ==> !Gives(fs[j], num)) ==> !Gives(fs[0], num);
    }
  }

  lemma {:induction false} AppliedIsLast(m: Args, fs: seq<Field>)
    ensures ApplyAll(m, fs) == Args(Last(fs, 1, m.a), Last(fs, 2, m.b))
    decreases fs
  {
    hide Word, FieldNum, Int32;
    if fs != [] {
      AppliedIsLast(Apply(m, fs[0]), fs[1..]);
    }
  }

  /** Unmarshalling the bytes of a message sets each known field to its last value and skips the rest. */
  lemma UnmarshalsMessage(m: Args, data: seq<byte>, i: nat, fs: seq<Field>)
    requires |data| <= INT64_MAX && AllAcceptable(fs)
    requires At(data, i, AllBytes(fs)) && i + |AllBytes(fs)| == |data|
    ensures Unmarshal(m, data, i) == (Success, Args(Last(fs, 1, m.a), Last(fs, 2, m.b)))
  {
    hide At, Unmarshal, ApplyAll, Last, AllBytes, AllAcceptable;
    Unmarshals(m, data, i, fs);
    AppliedIsLast(m, fs);
  }

  lemma {:induction false} Unmarshals(m: Args, data: seq<byte>, i: nat, fs: seq<Field>)
    requires |data| <= INT64_MAX && AllAcceptable(fs)
    requires At(data, i, AllBytes(fs)) && i + |AllBytes(fs)| == |data|
    ensures Unmarshal(m, data, i) == (Success, ApplyAll(m, fs))
    decreases fs
  {
    hide At, Whole, Word, ReadAt, FieldNum, Skip;
    if fs != [] {
      var f := fs[0];
      AtSplit(data, i, FieldBytes(f), AllBytes(fs[1..]));
      AtSplit(data, i, f.tag, Payload(f));
      ReadsWhole(data, i, f.tag);
      if f.VarintField? {
        ReadsWhole(data, i + |f.tag|, f.value);
      }
      SkipsField(data, i, f);
      AtWithin(data, i + |FieldBytes(f)|, AllBytes(fs[1..]));
      Unmarshals(Apply(m, f), data, i + |FieldBytes(f)|, fs[1..]);
    }
  }

  /** Conversely, bytes that unmarshal are a message, with that meaning. */
  lemma {:induction false} UnmarshalsOnly(m: Args, data: seq<byte>, i: nat) returns (fs: seq<Field>)
    requires i <= |data| <= INT64_MAX && Unmarshal(m, data, i).0 == Success
    ensures AllAcceptable(fs) && At(data, i, AllBytes(fs)) && i + |AllBytes(fs)| == |data|
    ensures Unmarshal(m, data, i).1 == Args(Last(fs, 1, m.a), Last(fs, 2, m.b))
    decreases |data| - i
  {
    hide Whole, Word, ReadAt, FieldNum, Skip, Int32;
    if i == |data| {
      fs := [];
    } else {
      var f := FirstField(m, data, i);
      var n := i + |FieldBytes(f)|;
      var gs := UnmarshalsOnly(Apply(m, f), data, n);
      fs := [f] + gs;
      AtSplit(data, i, FieldBytes(f), AllBytes(gs));
    }
  }

  lemma FirstField(m: Args, data: seq<byte>, i: nat) returns (f: Field)
    requires i < |data| <= INT64_MAX && Unmarshal(m, data, i).0 == Success
    ensures Acceptable(f) && At(data, i, FieldBytes(f)) && i < i + |FieldBytes(f)| <= |data|
    ensures Unmarshal(m, data, i) == Unmarshal(Apply(m, f), data, i + |FieldBytes(f)|)
  {
    hide Whole, Word, ReadAt, FieldNum;
    WholeRead(data, i);
    var tag := ReadAt(data, i);
    if FieldNum(tag.value) <= 2 {
      WholeRead(data, tag.next);
      var n := ReadAt(data, tag.next).next;
      f := VarintField(data[i..tag.next], data[tag.next..n]);
      AtSplit(data, i, f.tag, f.value);
    } else {
      f := Parses(data, i);
      AtSplit(data, i, f.tag, Payload(f));
      ReadsWhole(data, i, f.tag);
    }
  }

  /** The same message without the fields its receiver does not know. */
  function KnownOnly(fs: seq<Field>): seq<Field> {
    if fs == [] then []
    else (if Num(fs[0]) <= 2 then [fs[0]] else []) + KnownOnly(fs[1..])
  }

  lemma {:induction false} KnownOnlyMeansTheSame(m: Args, fs: seq<Field>)
    requires AllAcceptable(fs)
    ensures AllAcceptable(KnownOnly(fs)) && ApplyAll(m, KnownOnly(fs)) == ApplyAll(m, fs)
    ensures |AllBytes(KnownOnly(fs))| <= |AllBytes(fs)|
    decreases fs
  {
    hide Word, Whole, FieldNum;
    if fs != [] {
      KnownOnlyMeansTheSame(Apply(m, fs[0]), fs[1..]);
      if Num(fs[0]) <= 2 {
        assert KnownOnly(fs)[1..] == KnownOnly(fs[1..]);
      } else {
        assert KnownOnly(fs) == KnownOnly(fs[1..]);
      }
    }
  }

  /** Unknown fields of every wire type, anywhere in a message, never change what it unmarshals to. */
  lemma UnknownFieldsAreIgnored(m: Args, fs: seq<Field>)
    requires AllAcceptable(fs) && |AllBytes(fs)| <= INT64_MAX
    ensures |AllBytes(KnownOnly(fs))| <= INT64_MAX
    ensures Unmarshal(m, AllBytes(fs), 0) == Unmarshal(m, AllBytes(KnownOnly(fs)), 0)
  {
    hide At, Unmarshal, ApplyAll, KnownOnly, AllBytes, AllAcceptable;
    KnownOnlyMeansTheSame(m, fs);
    AtWhole(AllBytes(fs));
    AtWhole(AllBytes(KnownOnly(fs)));
    Unmarshals(m, AllBytes(fs), 0, fs);
    Unmarshals(m, AllBytes(KnownOnly(fs)), 0, KnownOnly(fs));
  }

  // ----- Marshalling

  /** One field: nothing for zero, else its tag byte and its varint. */
  function MarshalField(tag: byte, x: int32): seq<byte> {
    if x == 0 then [] else [tag] + Encode(Uint64(x))
  }

  function Marshal(m: Args): seq<byte> {
    MarshalField(0x08, m.a) + MarshalField(0x10, m.b)
  }

  function SizeField(x: int32): nat {
    if x == 0 then 0 else 1 + Sov(Uint64(x))
  }

  function Size(m: Args): nat {
    SizeField(m.a) + SizeField(m.b)
  }

  lemma MarshalFieldSize(tag: byte, x: int32)
    ensures |MarshalField(tag, x)| == SizeField(x) <= 11
  {
    EncodeSize(Uint64(x));
    EncodeIsVarint(Uint64(x));
  }

  function FieldOf(tag: byte, x: int32): seq<Field> {
    if x == 0 then [] else [VarintField([tag], Encode(Uint64(x)))]
  }

  lemma TagByte(tag: byte)
    requires tag == 0x08 || tag == 0x10
    ensures IsTag([tag], 0) && FieldNum(Word([tag])) == tag / 8
  {
    ValueStep([tag], 0, 1);
  }

  lemma FieldOfMeans(m: Args, tag: byte, x: int32)
    requires tag == 0x08 || tag == 0x10
    ensures AllAcceptable(FieldOf(tag, x)) && AllBytes(FieldOf(tag, x)) == MarshalField(tag, x)
    ensures ApplyAll(m, FieldOf(tag, x)) == if x == 0 then m else Set(m, tag / 8, x)
  {
    hide FieldNum, Value, Encode;
    var e := Encode(Uint64(x));
    TagByte(tag);
    EncodeIsVarint(Uint64(x));
    SignExtensionIsUndone(x);
    if x != 0 {
      var f := VarintField([tag], e);
      assert FieldOf(tag, x)[1..] == [];
      assert MarshalField(tag, x) == [tag] + e;
      assert FieldBytes(f) == [tag] + e;
      assert Word(e) == Uint64(x);
    }
  }

  /** Field a goes under the tag of number 1 and wire type 0, field b under that of number 2; zero is not sent. */
  lemma MarshalledTags(x: int32)
    ensures Marshal(Args(0, 0)) == []
    ensures x != 0 ==> |Marshal(Args(x, 0))| >= 2 && Marshal(Args(x, 0))[0] == 8 * 1 + 0
    ensures x != 0 ==> |Marshal(Args(0, x))| >= 2 && Marshal(Args(0, x))[0] == 8 * 2 + 0
    ensures forall y: int32 :: Marshal(Args(x, y)) == Marshal(Args(x, 0)) + Marshal(Args(0, y))
  {
    hide Encode;
  }

  /** The examples of Protocol Buffers Encoding, section "Base 128 Varints". */
  lemma Documented()
    ensures Encode(300) == [0xAC, 0x02] && Marshal(Args(150, 0)) == [0x08, 0x96, 0x01]
  {
    hide Encode;
    assert Uint64(150) == 150;
    EncodeStep(300);
    EncodeStep(2);
    EncodeStep(150);
    EncodeStep(1);
  }

  lemma EncodeStep(v: nat)
    ensures Encode(v) == if v < 128 then [v] else [v % 128 + 128] + Encode(v / 128)
  {
  }

  /** What unmarshalling `m` into a message that already holds `prev` leaves: zero fields are not sent. */
  function Merge(prev: Args, m: Args): Args {
    Args(if m.a == 0 then prev.a else m.a, if m.b == 0 then prev.b else m.b)
  }

  lemma UnmarshalOfMarshal(prev: Args, m: Args)
    ensures |Marshal(m)| <= INT64_MAX && Unmarshal(prev, Marshal(m), 0) == (Success, Merge(prev, m))
  {
    hide Unmarshal, At, FieldNum, Word, MarshalField, FieldOf, FieldBytes;
    var fa, fb := FieldOf(0x08, m.a), FieldOf(0x10, m.b);
    FieldOfMeans(prev, 0x08, m.a);
    FieldOfMeans(ApplyAll(prev, fa), 0x10, m.b);
    MarshalFieldSize(0x08, m.a);
    MarshalFieldSize(0x10, m.b);
    Joined(prev, fa, fb);
    AtWhole(Marshal(m));
    Unmarshals(prev, Marshal(m), 0, fa + fb);
  }

  lemma {:induction false} Joined(m: Args, fs: seq<Field>, gs: seq<Field>)
    requires AllAcceptable(fs) && AllAcceptable(gs)
    ensures AllAcceptable(fs + gs) && AllBytes(fs + gs) == AllBytes(fs) + AllBytes(gs)
    ensures ApplyAll(m, fs + gs) == ApplyAll(ApplyAll(m, fs), gs)
    decreases fs
  {
    hide Apply, FieldBytes, Acceptable;
    if fs == [] {
      assert fs + gs == gs;
    } else {
      assert (fs + gs)[1..] == fs[1..] + gs;
      Joined(Apply(m, fs[0]), fs[1..], gs);
    }
  }

  /** Round trip: it restores the message exactly when no field it leaves out already holds something. */
  lemma RoundTripIff(prev: Args, m: Args)
    ensures |Marshal(m)| <= INT64_MAX
    ensures Unmarshal(prev, Marshal(m), 0) == (Success, m)
       <==> (m.a == 0 ==> prev.a == 0) && (m.b == 0 ==> prev.b == 0)
  {
    hide Unmarshal, Marshal;
    UnmarshalOfMarshal(prev, m);
  }

  // ----- The code

  class ProtoArgs {
    var A: int32
    var B: int32

    constructor (m: Args)
      ensures Contents() == m
    {
      A, B := m.a, m.b;
    }

    ghost function Contents(): Args
      reads this
    {
      Args(A, B)
    }

    method SizeLoop() returns (n: nat)
      ensures n == |Marshal(Contents())|
    {
      MarshalFieldSize(0x08, A);
      MarshalFieldSize(0x10, B);
      n := 0;
      if A != 0 {
        var k := SovLoop(Uint64(A));
        n := n + 1 + k;
      }
      if B != 0 {
        var k := SovLoop(Uint64(B));
        n := n + 1 + k;
      }
    }

    method MarshalTo(buf: array<byte>) returns (i: nat)
      requires Size(Contents()) <= buf.Length
      modifies buf
      ensures i == Size(Contents()) && buf[..i] == Marshal(Contents()) && buf[i..] == old(buf[i..])
    {
      hide Encode, Sov;
      MarshalFieldSize(0x08, A);
      MarshalFieldSize(0x10, B);
      i := 0;
      if A != 0 {
        i := MarshalFieldTo(buf, i, 0x08, A);
      }
      ghost var first := i;
      assert buf[..first] == MarshalField(0x08, A);
      if B != 0 {
        i := MarshalFieldTo(buf, i, 0x10, B);
      }
      assert buf[..i] == buf[..first] + buf[first..i];
    }

    /** `Marshal` allocates exactly the size, and all of it is written. */
    method MarshalBytes() returns (bytes: seq<byte>)
      ensures bytes == Marshal(Contents())
    {
      hide Marshal, Size;
      SizeIsMarshalLength(Contents());
      var size := SizeLoop();
      var buf := new byte[size];
      var n := MarshalTo(buf);
      bytes := buf[..n];
    }

    method UnmarshalBytes(data: seq<byte>) returns (status: Status)
      requires |data| <= INT64_MAX
      modifies this
      ensures (status, Contents()) == Unmarshal(old(Contents()), data, 0)
    {
      hide ReadAt, Skip, FieldNum, Int32;
      var i := 0;
      while i < |data|
        invariant 0 <= i <= |data|
        invariant Unmarshal(Contents(), data, i) == Unmarshal(old(Contents()), data, 0)
        decreases |data| - i
      {
        var tag := ReadUvarint(data, i);
        if !tag.Done? {
          return Stopped(Fail(tag));
        }
        var num, wireType := FieldNum(tag.value), tag.value % 8;
        if wireType == 4 {
          return EndGroupForNonGroup;
        }
        if num <= 0 {
          return IllegalTag;
        }
        if num == 1 || num == 2 {
          if wireType != 0 {
            return WrongWireType;
          }
          var v := ReadInt32(data, tag.next);
          ghost var whole := ReadAt(data, tag.next);
          Int32OfLow(if whole.Done? then whole.value else whole.partial);
          var x := Int32(if v.Done? then v.value else v.partial);
          if num == 1 {
            A := x;
          } else {
            B := x;
          }
          if !v.Done? {
            return Stopped(Fail(v));
          }
          i := v.next;
        } else {
          var skippy := SkipArithService(data, i);
          if !skippy.Index? {
            return Stopped(skippy);
          }
          if skippy.n < 0 {
            return Stopped(ErrInvalidLength);
          }
          if i + skippy.n > INT64_MAX {
            return Stopped(Panic);
          }
          if i + skippy.n > |data| {
            return Stopped(ErrUnexpectedEOF);
          }
          i := i + skippy.n;
        }
      }
      return Success;
    }
  }

  lemma SizeIsMarshalLength(m: Args)
    ensures |Marshal(m)| == Size(m)
  {
    MarshalFieldSize(0x08, m.a);
    MarshalFieldSize(0x10, m.b);
  }

  method MarshalFieldTo(buf: array<byte>, start: nat, tag: byte, x: int32) returns (i: nat)
    requires x != 0 && start + SizeField(x) <= buf.Length
    modifies buf
    ensures i == start + SizeField(x) && buf[start..i] == MarshalField(tag, x)
    ensures buf[..start] == old(buf[..start]) && buf[i..] == old(buf[i..])
  {
    hide Encode, Sov;
    buf[start] := tag;
    i := EncodeVarint(buf, start + 1, Uint64(x));
    assert buf[start] == buf[..start + 1][start] == tag;
    assert buf[start..i] == [buf[start]] + buf[start + 1..i];
    assert buf[..start] == buf[..start + 1][..start];
  }
}
