/**
 * The generated code that skips one field it does not know
 * (Protocol Buffers Encoding, section "Message Structure").
 */
module Skipper {
  import opened Common
  import opened Varint

  const INT64_MAX: int := 0x7FFF_FFFF_FFFF_FFFF

  /** A Go call that returns an index, returns an error, or panics. */
  datatype Outcome =
    | Index(n: int)
    | ErrIntOverflow
    | ErrUnexpectedEOF
    | ErrInvalidLength
    | ErrIllegalWireType
    | Panic

  function Fail(r: Read): Outcome
    requires !r.Done?
  {
    if r.IntOverflow? then ErrIntOverflow else ErrUnexpectedEOF
  }

  /** Addition of two non-negative int64 values, wrapping around. */
  function WrapAdd(x: nat, y: nat): int {
    if x + y <= INT64_MAX then x + y else x + y - WORD64
  }

  // ----- Skipping, on indices of the whole buffer: the slice `dAtA[base:]` starts at `base`

  function Skip(data: seq<byte>, base: nat): (r: Outcome)
    requires base <= |data| <= INT64_MAX
    ensures r.Index? ==> r.n < 0 || r.n > base
    decreases |data| - base, 0
  {
    if base == |data| then Panic
    else
      var tag := ReadAt(data, base);
      if !tag.Done? then Fail(tag)
      else
        var i := tag.next;
        match tag.value % 8
        case 0 => var v := ReadAt(data, i); if v.Done? then Index(v.next) else Fail(v)
        case 1 => Index(i + 8)
        case 2 =>
          var len := ReadAt(data, i);
          if !len.Done? then Fail(len)
          else if len.value > INT64_MAX then ErrInvalidLength
          else
            var n := WrapAdd(len.next - base, len.value);
            Index(if n < 0 then n else base + n)
        case 3 => SkipGroup(data, base, i)
        case 4 => Index(i)
        case 5 => Index(i + 4)
        case _ => ErrIllegalWireType
  }

  /** The inner loop of a group, from index `i` on; an index that wraps around is out of range at its next use. */
  function SkipGroup(data: seq<byte>, base: nat, i: nat): (r: Outcome)
    requires base <= i && |data| <= INT64_MAX
    ensures r.Index? ==> i < r.n <= |data|
    decreases |data| - i, 1
  {
    var tag := ReadAt(data, i);
    if !tag.Done? then Fail(tag)
    else if tag.value % 8 == 4 then Index(tag.next)
    else
      match Skip(data, i)
      case Index(n) => if n < 0 || n - base > INT64_MAX then Panic else SkipGroup(data, base, n)
      case failure => failure
  }

  // ----- The format

  datatype Field =
    | VarintField(tag: seq<byte>, value: seq<byte>)
    | Fixed64Field(tag: seq<byte>, bits: seq<byte>)
    | BytesField(tag: seq<byte>, length: seq<byte>, bytes: seq<byte>)
    | GroupField(tag: seq<byte>, body: seq<Field>, end: seq<byte>)
    | Fixed32Field(tag: seq<byte>, bits: seq<byte>)

  function WireType(f: Field): int {
    match f
    case VarintField(_, _) => 0
    case Fixed64Field(_, _) => 1
    case BytesField(_, _, _) => 2
    case GroupField(_, _, _) => 3
    case Fixed32Field(_, _) => 5
  }

  /** The bytes are one whole varint, canonical or padded. */
  ghost predicate Whole(bytes: seq<byte>) {
    IsVarint(bytes, 0, |bytes|)
  }

  function Word(bytes: seq<byte>): uint64 {
    Value(bytes, 0, |bytes|) % WORD64
  }

  ghost predicate IsTag(tag: seq<byte>, wireType: int) {
    Whole(tag) && Word(tag) % 8 == wireType
  }

  ghost predicate WellFormed(f: Field) {
    && IsTag(f.tag, WireType(f))
    && match f
       case VarintField(_, value) => Whole(value)
       case Fixed64Field(_, bits) => |bits| == 8
       case BytesField(_, length, bytes) => Whole(length) && Word(length) == |bytes|
       case GroupField(_, body, end) => AllWellFormed(body) && IsTag(end, 4)
       case Fixed32Field(_, bits) => |bits| == 4
  }

  ghost predicate AllWellFormed(fs: seq<Field>) {
    fs == [] || (WellFormed(fs[0]) && AllWellFormed(fs[1..]))
  }

  function FieldBytes(f: Field): seq<byte>
    decreases f, 1
  {
    f.tag + Payload(f)
  }

  function Payload(f: Field): seq<byte>
    decreases f, 0
  {
    match f
    case VarintField(_, value) => value
    case Fixed64Field(_, bits) => bits
    case BytesField(_, length, bytes) => length + bytes
    case GroupField(_, body, end) => AllBytes(body) + end
    case Fixed32Field(_, bits) => bits
  }

  function AllBytes(fs: seq<Field>): seq<byte>
    decreases fs, 1
  {
    if fs == [] then [] else FieldBytes(fs[0]) + AllBytes(fs[1..])
  }

  lemma ReadsWhole(data: seq<byte>, i: nat, bytes: seq<byte>)
    requires Whole(bytes) && At(data, i, bytes)
    ensures ReadAt(data, i) == Done(Word(bytes), i + |bytes|)
  {
    assert bytes[0..|bytes|] == data[i..i + |bytes|];
    VarintOfSlice(bytes, 0, |bytes|, data, i);
    ValueOfSlice(bytes, 0, |bytes|, data, i);
    ReadAtIff(data, i, Word(bytes), i + |bytes|);
  }

  /** The skipper steps over exactly one well-formed field, however deeply its groups nest. */
  lemma {:induction false} SkipsField(data: seq<byte>, i: nat, f: Field)
    requires |data| <= INT64_MAX && WellFormed(f) && At(data, i, FieldBytes(f))
    ensures Skip(data, i) == Index(i + |FieldBytes(f)|)
    decreases f, 0
  {
    var j := i + |f.tag|;
    hide At, Whole, Word, ReadAt;
    AtSplit(data, i, f.tag, Payload(f));
    ReadsWhole(data, i, f.tag);
    match f
    case VarintField(_, value) =>
      ReadsWhole(data, j, value);
    case BytesField(_, length, bytes) =>
      AtSplit(data, j, length, bytes);
      ReadsWhole(data, j, length);
      AtWithin(data, i, FieldBytes(f));
    case GroupField(_, body, end) =>
      SkipsGroup(data, i, j, body, end);
    case Fixed64Field(_, _) =>
    case Fixed32Field(_, _) =>
  }

  lemma {:induction false} SkipsGroup(data: seq<byte>, base: nat, i: nat, fs: seq<Field>, end: seq<byte>)
    requires base <= i && |data| <= INT64_MAX && AllWellFormed(fs) && IsTag(end, 4)
    requires At(data, i, AllBytes(fs) + end)
    ensures SkipGroup(data, base, i) == Index(i + |AllBytes(fs)| + |end|)
    decreases fs, 1
  {
    hide At, Whole, Word, ReadAt, Payload;
    if fs == [] {
      assert AllBytes(fs) + end == end;
      ReadsWhole(data, i, end);
    } else {
      var f, rest := fs[0], AllBytes(fs[1..]) + end;
      assert AllBytes(fs) + end == FieldBytes(f) + rest;
      AtSplit(data, i, FieldBytes(f), rest);
      SkipsField(data, i, f);
      AtWithin(data, i, FieldBytes(f));
      AtSplit(data, i, f.tag, Payload(f));
      ReadsWhole(data, i, f.tag);
      SkipsGroup(data, base, i + |FieldBytes(f)|, fs[1..], end);
    }
  }

  // ----- The converse: whatever is skipped within bounds is a well-formed field

  lemma WholeRead(data: seq<byte>, i: nat)
    requires ReadAt(data, i).Done?
    ensures var r := ReadAt(data, i); var bytes := data[i..r.next];
      Whole(bytes) && Word(bytes) == r.value && At(data, i, bytes)
  {
    var r := ReadAt(data, i);
    var bytes := data[i..r.next];
    ReadAtIff(data, i, r.value, r.next);
    assert bytes[0..|bytes|] == bytes;
    VarintOfSlice(data, i, r.next, bytes, 0);
    ValueOfSlice(data, i, r.next, bytes, 0);
  }

  lemma ParsesCounted(data: seq<byte>, i: nat) returns (f: Field)
    requires i < |data| <= INT64_MAX && ReadAt(data, i).Done? && ReadAt(data, i).value % 8 == 2
    requires Skip(data, i).Index? && 0 <= Skip(data, i).n <= |data|
    ensures WellFormed(f) && At(data, i, FieldBytes(f)) && Skip(data, i).n == i + |FieldBytes(f)|
  {
    hide Whole, Word, ReadAt;
    var n, j := Skip(data, i).n, ReadAt(data, i).next;
    var k := ReadAt(data, j).next;
    WholeRead(data, i);
    WholeRead(data, j);
    f := BytesField(data[i..j], data[j..k], data[k..n]);
    AtSplit(data, j, data[j..k], data[k..n]);
    AtSplit(data, i, f.tag, data[j..k] + data[k..n]);
  }

  lemma {:induction false} Parses(data: seq<byte>, i: nat) returns (f: Field)
    requires i < |data| <= INT64_MAX && ReadAt(data, i).Done? && ReadAt(data, i).value % 8 != 4
    requires Skip(data, i).Index? && 0 <= Skip(data, i).n <= |data|
    ensures WellFormed(f) && At(data, i, FieldBytes(f)) && Skip(data, i).n == i + |FieldBytes(f)|
    decreases |data| - i, 0
  {
    hide Whole, Word, ReadAt;
    WholeRead(data, i);
    var n := Skip(data, i).n;
    var j := ReadAt(data, i).next;
    var tag := data[i..j];
    match ReadAt(data, i).value % 8
    case 0 =>
      WholeRead(data, j);
      f := VarintField(tag, data[j..n]);
      AtSplit(data, i, tag, data[j..n]);
    case 1 =>
      f := Fixed64Field(tag, data[j..n]);
      AtSplit(data, i, tag, data[j..n]);
    case 2 =>
      f := ParsesCounted(data, i);
    case 3 =>
      var fs, end := ParsesGroup(data, i, j);
      f := GroupField(tag, fs, end);
      AtSplit(data, i, tag, AllBytes(fs) + end);
    case 5 =>
      f := Fixed32Field(tag, data[j..n]);
      AtSplit(data, i, tag, data[j..n]);
  }

  lemma {:induction false} ParsesGroup(data: seq<byte>, base: nat, i: nat)
    returns (fs: seq<Field>, end: seq<byte>)
    requires base <= i && |data| <= INT64_MAX && SkipGroup(data, base, i).Index?
    ensures AllWellFormed(fs) && IsTag(end, 4) && At(data, i, AllBytes(fs) + end)
    ensures SkipGroup(data, base, i).n == i + |AllBytes(fs) + end|
    decreases |data| - i, 1
  {
    hide Whole, Word, ReadAt, Payload;
    WholeRead(data, i);
    var tag := ReadAt(data, i);
    if tag.value % 8 == 4 {
      fs, end := [], data[i..tag.next];
      assert AllBytes(fs) + end == end;
    } else {
      var n := Skip(data, i).n;
      var f := Parses(data, i);
      var gs;
      gs, end := ParsesGroup(data, base, n);
      fs := [f] + gs;
      assert AllBytes(fs) + end == FieldBytes(f) + (AllBytes(gs) + end);
      AtSplit(data, i, FieldBytes(f), AllBytes(gs) + end);
    }
  }

  ghost predicate HoldsField(data: seq<byte>, i: nat, n: int) {
    exists f :: WellFormed(f) && At(data, i, FieldBytes(f)) && n == i + |FieldBytes(f)|
  }

  ghost predicate HoldsEndTag(data: seq<byte>, i: nat) {
    ReadAt(data, i).Done? && ReadAt(data, i).value % 8 == 4
  }

  /** Skipping ends within the buffer exactly at the end of a well-formed field or of a stray end-group tag. */
  lemma SkipIff(data: seq<byte>, i: nat, n: int)
    requires i <= |data| <= INT64_MAX
    ensures Skip(data, i) == Index(n) && 0 <= n <= |data|
       <==> HoldsField(data, i, n) || (HoldsEndTag(data, i) && n == ReadAt(data, i).next)
  {
    hide ReadAt;
    if Skip(data, i) == Index(n) && 0 <= n <= |data| && !HoldsEndTag(data, i) {
      var f := Parses(data, i);
    }
    if HoldsField(data, i, n) {
      var f :| WellFormed(f) && At(data, i, FieldBytes(f)) && n == i + |FieldBytes(f)|;
      SkipsField(data, i, f);
    }
  }

  // ----- The code

  /** An index of the whole buffer as an index of the slice that starts at `base`. */
  function Relative(o: Outcome, base: nat): Outcome {
    if o.Index? && o.n >= 0 then Index(o.n - base) else o
  }

  method SkipArithService(data: seq<byte>, base: nat) returns (r: Outcome)
    requires base <= |data| <= INT64_MAX
    ensures r == Relative(Skip(data, base), base)
    decreases |data| - base
  {
    hide ReadAt;
    if base == |data| {
      return Panic;
    }
    var tag := ReadUvarint(data, base);
    if !tag.Done? {
      return Fail(tag);
    }
    var i := tag.next - base;
    match tag.value % 8
    case 0 =>
      var v := ReadUvarint(data, base + i);
      return if v.Done? then Index(v.next - base) else Fail(v);
    case 1 =>
      return Index(i + 8);
    case 2 =>
      var length := ReadUvarint(data, base + i);
      if !length.Done? {
        return Fail(length);
      }
      if length.value > INT64_MAX {
        return ErrInvalidLength;
      }
      return Index(WrapAdd(length.next - base, length.value));
    case 3 =>
      while true
        invariant i > 0 && SkipGroup(data, base, base + i) == Skip(data, base)
        decreases |data| - i
      {
        var start := i;
        var inner := ReadUvarint(data, base + i);
        if !inner.Done? {
          return Fail(inner);
        }
        i := inner.next - base;
        if inner.value % 8 == 4 {
          return Index(i);
        }
        var next := SkipArithService(data, base + start);
        if !next.Index? {
          return next;
        }
        if next.n < 0 || start + next.n > INT64_MAX {
          return Panic;
        }
        i := start + next.n;
      }
    case 4 =>
      return Index(i);
    case 5 =>
      return Index(i + 4);
    case _ =>
      return ErrIllegalWireType;
  }
}
