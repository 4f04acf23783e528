/** The twelve header bytes of a message and their bit fields. */
module Header {

  const MAGIC: bv8 := 0x08

  /** The header as a value; the message owns it as an array and updates it in place. */
  type HeaderBytes = h: seq<bv8> | |h| == 12 witness [0, 0, 0, 0, 0, 0, 0, 0, 0, 0, 0, 0]

  // ----- Getters

  predicate CheckMagicNumber(h: HeaderBytes) { h[0] == MAGIC }

  function Version(h: HeaderBytes): bv8 { h[1] }

  function MessageType(h: HeaderBytes): bv8 { (h[2] & 0x80) >> 7 }

  predicate IsHeartbeat(h: HeaderBytes) { h[2] & 0x40 == 0x40 }

  predicate IsOneway(h: HeaderBytes) { h[2] & 0x20 == 0x20 }

  function CompressType(h: HeaderBytes): bv8 { (h[2] & 0x1C) >> 2 }

  function MessageStatusType(h: HeaderBytes): bv8 { h[2] & 0x03 }

  function SerializeType(h: HeaderBytes): bv8 { (h[3] & 0xF0) >> 4 }

  function Seq(h: HeaderBytes): bv64 {
    (h[4] as bv64 << 56) | (h[5] as bv64 << 48) | (h[6] as bv64 << 40) | (h[7] as bv64 << 32)
    | (h[8] as bv64 << 24) | (h[9] as bv64 << 16) | (h[10] as bv64 << 8) | (h[11] as bv64)
  }

  // ----- Setters

  datatype Setter =
    | SetVersion(v: bv8)
    | SetMessageType(mt: bv8)
    | SetHeartbeat(hb: bool)
    | SetOneway(oneway: bool)
    | SetCompressType(ct: bv8)
    | SetMessageStatusType(st: bv8)
    | SetSerializeType(sz: bv8)
    | SetSeq(number: bv64)

  /** What each setter stores. */
  function Set(h: HeaderBytes, op: Setter): HeaderBytes {
    match op
    case SetVersion(v) => h[1 := v]
    case SetMessageType(mt) => h[2 := h[2] | (mt << 7)]
    case SetHeartbeat(hb) => h[2 := if hb then h[2] | 0x40 else h[2] & !0x40]
    case SetOneway(oneway) => h[2 := if oneway then h[2] | 0x20 else h[2] & !0x20]
    case SetCompressType(ct) => h[2 := (h[2] & !0x1C) | ((ct << 2) & 0x1C)]
    case SetMessageStatusType(st) => h[2 := (h[2] & !0x03) | (st & 0x03)]
    case SetSerializeType(sz) => h[3 := (h[3] & !0xF0) | (sz << 4)]
    case SetSeq(v) => h[..4] + SeqBytes(v)
  }

  function SeqBytes(v: bv64): (b: seq<bv8>)
    ensures |b| == 8
  {
    [(v >> 56) as bv8, ((v >> 48) & 0xFF) as bv8, ((v >> 40) & 0xFF) as bv8, ((v >> 32) & 0xFF) as bv8,
     ((v >> 24) & 0xFF) as bv8, ((v >> 16) & 0xFF) as bv8, ((v >> 8) & 0xFF) as bv8, (v & 0xFF) as bv8]
  }

  // ----- The record the header stands for

  datatype Fields = Fields(
    magic: bv8, version: bv8,
    response: bool, heartbeat: bool, oneway: bool, compress: bv8, status: bv8,
    serialize: bv8, reserved: bv8,
    number: bv64)

  function Abstract(h: HeaderBytes): Fields {
    Fields(h[0], Version(h), MessageType(h) == 1, IsHeartbeat(h), IsOneway(h), CompressType(h), MessageStatusType(h),
           SerializeType(h), h[3] & 0x0F, Seq(h))
  }

  /** Updating the record: the arguments lose the bits the field has no room for. */
  function Update(f: Fields, op: Setter): Fields {
    match op
    case SetVersion(v) => f.(version := v)
    case SetMessageType(mt) => f.(response := f.response || mt & 1 == 1)
    case SetHeartbeat(hb) => f.(heartbeat := hb)
    case SetOneway(oneway) => f.(oneway := oneway)
    case SetCompressType(ct) => f.(compress := ct & 0x07)
    case SetMessageStatusType(st) => f.(status := st & 0x03)
    case SetSerializeType(sz) => f.(serialize := sz & 0x0F)
    case SetSeq(v) => f.(number := v)
  }

  lemma SeqRoundTrip(h: HeaderBytes, v: bv64)
    ensures Seq(Set(h, SetSeq(v))) == v
  {
  }

  lemma SeqIsInLastBytes(h: HeaderBytes, h': HeaderBytes)
    requires h[4..] == h'[4..]
    ensures Seq(h) == Seq(h')
  {
    assert forall i :: 4 <= i < 12 ==> h[i] == h[4..][i - 4] == h'[i];
  }

  lemma FlagSetters(h: HeaderBytes, op: Setter)
    requires op.SetMessageType? || op.SetHeartbeat? || op.SetOneway?
    ensures Abstract(Set(h, op)) == Update(Abstract(h), op)
  {
    hide Seq;
    SeqIsInLastBytes(h, Set(h, op));
  }

  lemma TypeSetters(h: HeaderBytes, op: Setter)
    requires op.SetCompressType? || op.SetMessageStatusType? || op.SetSerializeType?
    ensures Abstract(Set(h, op)) == Update(Abstract(h), op)
  {
    hide Seq;
    SeqIsInLastBytes(h, Set(h, op));
  }

  lemma OtherSetters(h: HeaderBytes, op: Setter)
    requires op.SetVersion? || op.SetSeq?
    ensures Abstract(Set(h, op)) == Update(Abstract(h), op)
  {
    hide Seq, SeqBytes;
    if op.SetSeq? {
      SeqRoundTrip(h, op.number);
    } else {
      SeqIsInLastBytes(h, Set(h, op));
    }
  }

  /** Each setter is the update of one field, and leaves every other field alone. */
  lemma SetterRefinesUpdate(h: HeaderBytes, op: Setter)
    ensures Abstract(Set(h, op)) == Update(Abstract(h), op)
  {
    hide *;
    if op.SetVersion? || op.SetSeq? {
      OtherSetters(h, op);
    } else if op.SetMessageType? || op.SetHeartbeat? || op.SetOneway? {
      FlagSetters(h, op);
    } else {
      TypeSetters(h, op);
    }
  }

  function SetAll(h: HeaderBytes, ops: seq<Setter>, n: nat): HeaderBytes
    requires n <= |ops|
  {
    if n == 0 then h else Set(SetAll(h, ops, n - 1), ops[n - 1])
  }

  function UpdateAll(f: Fields, ops: seq<Setter>, n: nat): Fields
    requires n <= |ops|
  {
    if n == 0 then f else Update(UpdateAll(f, ops, n - 1), ops[n - 1])
  }

  /** Any sequence of setters refines the same sequence of record updates. */
  lemma {:induction false} SettersRefineUpdates(h: HeaderBytes, ops: seq<Setter>, n: nat)
    requires n <= |ops|
    ensures Abstract(SetAll(h, ops, n)) == UpdateAll(Abstract(h), ops, n)
  {
    hide Abstract, Set, Update;
    if n > 0 {
      SettersRefineUpdates(h, ops, n - 1);
      SetterRefinesUpdate(SetAll(h, ops, n - 1), ops[n - 1]);
    }
  }

  /** The record holds everything the bytes hold. */
  lemma AbstractIsInjective(h: HeaderBytes, h': HeaderBytes)
    requires Abstract(h) == Abstract(h')
    ensures h == h'
  {
    FlagsAreInjective(h, h');
    SeqIsInjective(h, h');
    forall i | 0 <= i < 12 ensures h[i] == h'[i] {
      if i >= 4 {
        assert h[i] == h[4..][i - 4] == h'[4..][i - 4] == h'[i];
      }
    }
  }

  lemma FlagsAreInjective(h: HeaderBytes, h': HeaderBytes)
    requires MessageType(h) == 1 <==> MessageType(h') == 1
    requires IsHeartbeat(h) == IsHeartbeat(h') && IsOneway(h) == IsOneway(h')
    requires CompressType(h) == CompressType(h') && MessageStatusType(h) == MessageStatusType(h')
    requires SerializeType(h) == SerializeType(h') && h[3] & 0x0F == h'[3] & 0x0F
    ensures h[2] == h'[2] && h[3] == h'[3]
  {
  }

  lemma SeqIsInjective(h: HeaderBytes, h': HeaderBytes)
    requires Seq(h) == Seq(h')
    ensures h[4..] == h'[4..]
  {
    SeqBytesOfSeq(h);
    SeqBytesOfSeq(h');
  }

  lemma SeqBytesOfSeq(h: HeaderBytes)
    ensures SeqBytes(Seq(h)) == h[4..]
  {
  }

  /** So a header that is the update of another in its record is what the setter stores, byte for byte. */
  lemma SetterIsDetermined(h: HeaderBytes, h': HeaderBytes, op: Setter)
    requires Abstract(h') == Update(Abstract(h), op)
    ensures h' == Set(h, op)
  {
    hide Abstract, Set, Update;
    SetterRefinesUpdate(h, op);
    AbstractIsInjective(h', Set(h, op));
  }

  predicate MakesResponse(op: Setter) {
    op.SetMessageType? && op.mt & 1 == 1
  }

  lemma UpdateResponse(f: Fields, op: Setter)
    ensures Update(f, op).response <==> f.response || MakesResponse(op)
  {
  }

  /** A message is a response exactly when it was one or some setter made it one: no setter undoes that. */
  lemma {:induction false} ResponseIff(h: HeaderBytes, ops: seq<Setter>, n: nat)
    requires n <= |ops|
    ensures Abstract(SetAll(h, ops, n)).response
       <==> Abstract(h).response || exists i :: 0 <= i < n && MakesResponse(ops[i])
  {
    hide Abstract, Set, Update, MakesResponse;
    if n > 0 {
      ResponseIff(h, ops, n - 1);
      SetterRefinesUpdate(SetAll(h, ops, n - 1), ops[n - 1]);
      UpdateResponse(Abstract(SetAll(h, ops, n - 1)), ops[n - 1]);
    }
  }

  /** The getters' ranges. */
  lemma FieldRanges(h: HeaderBytes)
    ensures MessageType(h) <= 1 && CompressType(h) < 8 && MessageStatusType(h) < 4 && SerializeType(h) < 16
  {
  }

  /** Where the fields are in the third and fourth bytes, as numbers. */
  lemma FieldPositions(h: HeaderBytes)
    ensures h[2] == (if Abstract(h).response then 0x80 else 0) + (if IsHeartbeat(h) then 0x40 else 0)
                    + (if IsOneway(h) then 0x20 else 0) + 4 * CompressType(h) + MessageStatusType(h)
    ensures h[3] == 16 * SerializeType(h) + Abstract(h).reserved && Abstract(h).reserved < 16
    ensures h[0] == Abstract(h).magic && h[1] == Abstract(h).version
  {
    hide Seq;
  }

  /** The number is big-endian: its most significant byte is the fifth of the header, its least the last. */
  lemma SeqPositions(h: HeaderBytes)
    ensures Seq(h) >> 56 == h[4] as bv64 && (Seq(h) >> 48) & 0xFF == h[5] as bv64
    ensures (Seq(h) >> 40) & 0xFF == h[6] as bv64 && (Seq(h) >> 32) & 0xFF == h[7] as bv64
    ensures (Seq(h) >> 24) & 0xFF == h[8] as bv64 && (Seq(h) >> 16) & 0xFF == h[9] as bv64
    ensures (Seq(h) >> 8) & 0xFF == h[10] as bv64 && Seq(h) & 0xFF == h[11] as bv64
  {
  }

  // ----- The code

  /** The header array that a message owns; its setters work in place. */
  class HeaderArray {
    const bytes: array<bv8>

    ghost predicate Valid() {
      bytes.Length == 12
    }

    constructor ()
      ensures Valid() && fresh(bytes) && Value() == [MAGIC] + seq(11, _ => 0 as bv8)
    {
      bytes := new bv8[12](i => if i == 0 then MAGIC else 0);
    }

    constructor Copy(h: HeaderBytes)
      ensures Valid() && fresh(bytes) && Value() == h
    {
      bytes := new bv8[12](i requires 0 <= i < |h| => h[i]);
      new;
      assert bytes[..] == h;
    }

    ghost function Value(): HeaderBytes
      requires Valid()
      reads bytes
    {
      bytes[..]
    }

    method SetVersion(v: bv8)
      requires Valid()
      modifies bytes
      ensures Valid() && Abstract(Value()) == Update(Abstract(old(Value())), Setter.SetVersion(v))
    {
      hide Abstract, Update;
      bytes[1] := v;
      SetterRefinesUpdate(old(Value()), Setter.SetVersion(v));
    }

    method SetMessageType(mt: bv8)
      requires Valid()
      modifies bytes
      ensures Valid() && Abstract(Value()) == Update(Abstract(old(Value())), Setter.SetMessageType(mt))
    {
      hide Abstract, Update;
      bytes[2] := bytes[2] | (mt << 7);
      SetterRefinesUpdate(old(Value()), Setter.SetMessageType(mt));
    }

    method SetHeartbeat(hb: bool)
      requires Valid()
      modifies bytes
      ensures Valid() && Abstract(Value()) == Update(Abstract(old(Value())), Setter.SetHeartbeat(hb))
    {
      hide Abstract, Update;
      if hb {
        bytes[2] := bytes[2] | 0x40;
      } else {
        bytes[2] := bytes[2] & !0x40;
      }
      SetterRefinesUpdate(old(Value()), Setter.SetHeartbeat(hb));
    }

    method SetOneway(oneway: bool)
      requires Valid()
      modifies bytes
      ensures Valid() && Abstract(Value()) == Update(Abstract(old(Value())), Setter.SetOneway(oneway))
    {
      hide Abstract, Update;
      if oneway {
        bytes[2] := bytes[2] | 0x20;
      } else {
        bytes[2] := bytes[2] & !0x20;
      }
      SetterRefinesUpdate(old(Value()), Setter.SetOneway(oneway));
    }

    method SetCompressType(ct: bv8)
      requires Valid()
      modifies bytes
      ensures Valid() && Abstract(Value()) == Update(Abstract(old(Value())), Setter.SetCompressType(ct))
    {
      hide Abstract, Update;
      bytes[2] := (bytes[2] & !0x1C) | ((ct << 2) & 0x1C);
      SetterRefinesUpdate(old(Value()), Setter.SetCompressType(ct));
    }

    method SetMessageStatusType(st: bv8)
      requires Valid()
      modifies bytes
      ensures Valid() && Abstract(Value()) == Update(Abstract(old(Value())), Setter.SetMessageStatusType(st))
    {
      hide Abstract, Update;
      bytes[2] := (bytes[2] & !0x03) | (st & 0x03);
      SetterRefinesUpdate(old(Value()), Setter.SetMessageStatusType(st));
    }

    method SetSerializeType(sz: bv8)
      requires Valid()
      modifies bytes
      ensures Valid() && Abstract(Value()) == Update(Abstract(old(Value())), Setter.SetSerializeType(sz))
    {
      hide Abstract, Update;
      bytes[3] := (bytes[3] & !0xF0) | (sz << 4);
      SetterRefinesUpdate(old(Value()), Setter.SetSerializeType(sz));
    }

    method SetSeq(number: bv64)
      requires Valid()
      modifies bytes
      ensures Valid() && Abstract(Value()) == Update(Abstract(old(Value())), Setter.SetSeq(number))
    {
      hide Abstract, Update;
      hide SeqBytes;
      var b := SeqBytes(number);
      for i := 0 to 8
        invariant bytes[..4 + i] == old(bytes[..4]) + b[..i]
      {
        bytes[4 + i] := b[i];
      }
      assert b[..8] == b;
      assert bytes[..12] == bytes[..] == Set(old(Value()), Setter.SetSeq(number));
      SetterRefinesUpdate(old(Value()), Setter.SetSeq(number));
    }
  }
}
