/**
 * Bytes that are no message: what the skipper and the unmarshalling code report for them. A flaw says
 * where, at any depth of nested groups, the bytes go wrong and how; the code reports exactly the flaws.
 */
module Malformed {
  import opened Common
  import opened Varint
  import opened Skipper
  import opened ArithService

  datatype Flaw =
    | BadTag                                                  // the tag itself cannot be read
    | BadNumber(tag: seq<byte>)                               // the value or the length after it cannot
    | NegativeLength(tag: seq<byte>, length: seq<byte>)       // a length above the largest int64
    | IllegalType(tag: seq<byte>)
    | ShortField(tag: seq<byte>, length: seq<byte>)           // the field goes beyond the data
    | InGroup(tag: seq<byte>, before: seq<Field>, flaw: Flaw) // after well-formed fields of a group

  /** The varint at `i` cannot be read: the data are cut, or it does not end. */
  ghost predicate Unreadable(data: seq<byte>, i: nat, e: Outcome) {
    (Cut(data, i) && e == ErrUnexpectedEOF) || (Overlong(data, i) && e == ErrIntOverflow)
  }

  function TypeOf(tag: seq<byte>): nat {
    Word(tag) % 8
  }

  /** Where a field that is too short would end. */
  function EndOf(tag: seq<byte>, length: seq<byte>, i: nat): nat {
    if TypeOf(tag) == 1 then i + |tag| + 8
    else if TypeOf(tag) == 5 then i + |tag| + 4
    else i + |tag| + |length| + Word(length)
  }

  ghost predicate IsShort(data: seq<byte>, i: nat, tag: seq<byte>, length: seq<byte>) {
    && Whole(tag) && At(data, i, tag) && (TypeOf(tag) == 1 || TypeOf(tag) == 2 || TypeOf(tag) == 5)
    && (TypeOf(tag) == 2 ==> Whole(length) && At(data, i + |tag|, length) && Word(length) <= INT64_MAX)
    && EndOf(tag, length, i) > |data|
  }

  /** The field at `i` has the flaw, which stands for the error `e`. */
  ghost predicate Flawed(data: seq<byte>, i: nat, f: Flaw, e: Outcome)
    decreases f
  {
    match f
    case BadTag => Unreadable(data, i, e)
    case BadNumber(tag) =>
      Whole(tag) && At(data, i, tag) && (TypeOf(tag) == 0 || TypeOf(tag) == 2) && Unreadable(data, i + |tag|, e)
    case NegativeLength(tag, length) =>
      && Whole(tag) && At(data, i, tag) && TypeOf(tag) == 2
      && Whole(length) && At(data, i + |tag|, length) && Word(length) > INT64_MAX && e == ErrInvalidLength
    case IllegalType(tag) => Whole(tag) && At(data, i, tag) && TypeOf(tag) >= 6 && e == ErrIllegalWireType
    case ShortField(tag, length) => IsShort(data, i, tag, length) && e == ErrUnexpectedEOF
    case InGroup(tag, before, flaw) =>
      && IsTag(tag, 3) && At(data, i, tag) && AllWellFormed(before) && At(data, i + |tag|, AllBytes(before))
      && Flawed(data, i + |tag| + |AllBytes(before)|, flaw, e)
      && Addressable(flaw, i, i + |tag| + |AllBytes(before)|)
  }

  /** The end of a short field is an index, counted from the start of its group. */
  ghost predicate Addressable(flaw: Flaw, base: nat, i: nat) {
    flaw.ShortField? ==> EndOf(flaw.tag, flaw.length, i) - base <= INT64_MAX
  }

  // ----- Every flaw is reported

  lemma UnreadableRead(data: seq<byte>, i: nat, e: Outcome)
    requires Unreadable(data, i, e)
    ensures !ReadAt(data, i).Done? && e == if ReadAt(data, i).UnexpectedEOF? then ErrUnexpectedEOF else ErrIntOverflow
    ensures Fail(ReadAt(data, i)) == e
  {
    CutIff(data, i);
    OverlongIff(data, i);
  }

  ghost predicate IsError(e: Outcome) {
    !e.Index? && !e.Panic?
  }

  lemma {:induction false} FlawIsError(data: seq<byte>, i: nat, f: Flaw, e: Outcome)
    requires Flawed(data, i, f, e)
    ensures IsError(e)
    decreases f
  {
    if f.InGroup? {
      FlawIsError(data, i + |f.tag| + |AllBytes(f.before)|, f.flaw, e);
    }
  }

  lemma WholeIsShort(bytes: seq<byte>)
    requires Whole(bytes)
    ensures 1 <= |bytes| <= 10
  {
  }

  lemma {:induction false} SkipReports(data: seq<byte>, i: nat, f: Flaw, e: Outcome)
    requires i < |data| <= INT64_MAX && Flawed(data, i, f, e) && !f.ShortField?
    ensures Skip(data, i) == e
    decreases f, 0
  {
    hide At, Whole, Word, ReadAt, Cut, Overlong, IsShort;
    match f
    case BadTag =>
      UnreadableRead(data, i, e);
    case BadNumber(tag) =>
      ReadsWhole(data, i, tag);
      UnreadableRead(data, i + |tag|, e);
    case NegativeLength(tag, length) =>
      ReadsWhole(data, i, tag);
      ReadsWhole(data, i + |tag|, length);
    case IllegalType(tag) =>
      ReadsWhole(data, i, tag);
    case InGroup(tag, before, flaw) =>
      ReadsWhole(data, i, tag);
      GroupReports(data, i, i + |tag|, before, flaw, e);
  }

  lemma {:induction false} GroupReports(data: seq<byte>, base: nat, i: nat, before: seq<Field>, flaw: Flaw, e: Outcome)
    requires base <= i && |data| <= INT64_MAX && AllWellFormed(before) && At(data, i, AllBytes(before))
    requires Flawed(data, i + |AllBytes(before)|, flaw, e) && Addressable(flaw, base, i + |AllBytes(before)|)
    ensures SkipGroup(data, base, i) == e
    decreases flaw, |before| + 1
  {
    hide At, Whole, Word, ReadAt, Payload, Cut, Overlong;
    if before == [] {
      assert i + |AllBytes(before)| == i;
      FirstFlaw(data, base, i, flaw, e);
      FlawIsError(data, i, flaw, e);
      if !flaw.BadTag? && !flaw.ShortField? {
        SkipReports(data, i, flaw, e);
      }
    } else {
      var f := before[0];
      AtSplit(data, i, FieldBytes(f), AllBytes(before[1..]));
      SkipsField(data, i, f);
      AtWithin(data, i, FieldBytes(f));
      AtSplit(data, i, f.tag, Payload(f));
      ReadsWhole(data, i, f.tag);
      GroupReports(data, base, i + |FieldBytes(f)|, before[1..], flaw, e);
    }
  }

  /** The first thing in the rest of a group is flawed: the group fails as the field would. */
  lemma FirstFlaw(data: seq<byte>, base: nat, i: nat, flaw: Flaw, e: Outcome)
    requires base <= i && |data| <= INT64_MAX && Flawed(data, i, flaw, e) && Addressable(flaw, base, i)
    ensures flaw.BadTag? || flaw.ShortField? ==> SkipGroup(data, base, i) == e
    ensures !flaw.BadTag? && !flaw.ShortField? ==>
      i < |data| && (Skip(data, i) == e && !e.Index? ==> SkipGroup(data, base, i) == e)
  {
    hide At, Whole, Word, ReadAt, Cut, Overlong, Flawed, Skip;
    FlawedTag(data, i, flaw, e);
    if flaw.BadTag? {
      UnreadableRead(data, i, e);
    } else if flaw.ShortField? {
      ShortSkip(data, i, flaw.tag, flaw.length);
      BeyondTheEnd(data, base, EndOf(flaw.tag, flaw.length, i));
    }
  }

  lemma FlawedTag(data: seq<byte>, i: nat, flaw: Flaw, e: Outcome)
    requires Flawed(data, i, flaw, e)
    ensures flaw.BadTag? ==> Unreadable(data, i, e)
    ensures !flaw.BadTag? ==>
      && i < |data| && Whole(flaw.tag) && At(data, i, flaw.tag) && TypeOf(flaw.tag) != 4
      && ReadAt(data, i) == Done(Word(flaw.tag), i + |flaw.tag|)
    ensures flaw.ShortField? ==> IsShort(data, i, flaw.tag, flaw.length) && e == ErrUnexpectedEOF
  {
    hide Word, ReadAt, Cut, Overlong;
    if !flaw.BadTag? {
      ReadsWhole(data, i, flaw.tag);
    }
  }

  lemma ShortSkip(data: seq<byte>, i: nat, tag: seq<byte>, length: seq<byte>)
    requires i < |data| <= INT64_MAX && IsShort(data, i, tag, length) && EndOf(tag, length, i) - i <= INT64_MAX
    ensures Skip(data, i) == Index(EndOf(tag, length, i))
  {
    hide At, Whole, Word, ReadAt;
    ReadsWhole(data, i, tag);
    if TypeOf(tag) == 2 {
      ReadsWhole(data, i + |tag|, length);
    }
  }

  lemma BeyondTheEnd(data: seq<byte>, base: nat, n: nat)
    requires base <= n && |data| <= INT64_MAX && n > |data|
    ensures SkipGroup(data, base, n) == ErrUnexpectedEOF
  {
    hide ReadAt;
    UnreadableRead(data, n, ErrUnexpectedEOF);
  }

  // ----- Only flaws are

  lemma ReadFails(data: seq<byte>, i: nat)
    requires !ReadAt(data, i).Done?
    ensures Unreadable(data, i, Fail(ReadAt(data, i)))
  {
    CutIff(data, i);
    OverlongIff(data, i);
  }

  lemma {:induction false} SkipFails(data: seq<byte>, i: nat) returns (f: Flaw)
    requires i < |data| <= INT64_MAX && IsError(Skip(data, i))
    ensures Flawed(data, i, f, Skip(data, i)) && !f.ShortField?
    decreases |data| - i, 0
  {
    hide At, Whole, Word, ReadAt, Cut, Overlong;
    if !ReadAt(data, i).Done? {
      ReadFails(data, i);
      f := BadTag;
    } else {
      WholeRead(data, i);
      var j := ReadAt(data, i).next;
      var tag := data[i..j];
      if TypeOf(tag) == 3 {
        var before, flaw := GroupFails(data, i, j);
        f := InGroup(tag, before, flaw);
      } else if TypeOf(tag) >= 6 {
        f := IllegalType(tag);
      } else if !ReadAt(data, j).Done? {
        ReadFails(data, j);
        f := BadNumber(tag);
      } else {
        WholeRead(data, j);
        f := NegativeLength(tag, data[j..ReadAt(data, j).next]);
      }
    }
  }

  lemma {:induction false} GroupFails(data: seq<byte>, base: nat, i: nat) returns (before: seq<Field>, flaw: Flaw)
    requires base <= i <= |data| <= INT64_MAX && IsError(SkipGroup(data, base, i))
    ensures AllWellFormed(before) && At(data, i, AllBytes(before))
    ensures Flawed(data, i + |AllBytes(before)|, flaw, SkipGroup(data, base, i))
    ensures Addressable(flaw, base, i + |AllBytes(before)|)
    decreases |data| - i, 1
  {
    hide Whole, Word, ReadAt, Payload, Skip, Flawed, EndOf;
    var tag := ReadAt(data, i);
    if !tag.Done? || !Skip(data, i).Index? || Skip(data, i).n > |data| {
      before := [];
      flaw := FirstFails(data, base, i);
      assert i + |AllBytes(before)| == i;
    } else {
      var f := Parses(data, i);
      var n := i + |FieldBytes(f)|;
      var rest;
      rest, flaw := GroupFails(data, base, n);
      before := [f] + rest;
      AtSplit(data, i, FieldBytes(f), AllBytes(rest));
      assert n + |AllBytes(rest)| == i + |AllBytes(before)|;
    }
  }

  lemma FirstFails(data: seq<byte>, base: nat, i: nat) returns (flaw: Flaw)
    requires base <= i <= |data| <= INT64_MAX && IsError(SkipGroup(data, base, i))
    requires !ReadAt(data, i).Done? || !Skip(data, i).Index? || Skip(data, i).n > |data|
    ensures Flawed(data, i, flaw, SkipGroup(data, base, i)) && Addressable(flaw, base, i)
    decreases |data| - i, 1, 0
  {
    hide Whole, Word, ReadAt, Cut, Overlong, Skip;
    if !ReadAt(data, i).Done? {
      ReadFails(data, i);
      flaw := BadTag;
    } else if !Skip(data, i).Index? {
      assert i < |data|;
      flaw := SkipFails(data, i);
    } else {
      var tag, length := ShortFails(data, i);
      BeyondTheEnd(data, base, Skip(data, i).n);
      flaw := ShortField(tag, length);
    }
  }

  /** Skipping ends beyond the data, or wraps around, only after the field that would. */
  lemma ShortFails(data: seq<byte>, i: nat) returns (tag: seq<byte>, length: seq<byte>)
    requires i < |data| <= INT64_MAX && Skip(data, i).Index? && (Skip(data, i).n > |data| || Skip(data, i).n < 0)
    ensures IsShort(data, i, tag, length)
    ensures Skip(data, i).n == if EndOf(tag, length, i) - i <= INT64_MAX then EndOf(tag, length, i)
                               else EndOf(tag, length, i) - i - WORD64
  {
    hide Whole, Word, ReadAt;
    WholeRead(data, i);
    var j := ReadAt(data, i).next;
    tag, length := data[i..j], [];
    WholeIsShort(tag);
    if TypeOf(tag) == 2 {
      WholeRead(data, j);
      length := data[j..ReadAt(data, j).next];
      WholeIsShort(length);
    }
  }

  ghost predicate HasFlaw(data: seq<byte>, i: nat, e: Outcome) {
    exists f :: Flawed(data, i, f, e) && !f.ShortField?
  }

  /** The skipper returns an error exactly when the field has a flaw, and the error that the flaw stands for. */
  lemma SkipErrorIff(data: seq<byte>, i: nat, e: Outcome)
    requires i < |data| <= INT64_MAX && IsError(e)
    ensures Skip(data, i) == e <==> HasFlaw(data, i, e)
  {
    hide Skip, Flawed;
    if Skip(data, i) == e {
      var f := SkipFails(data, i);
    }
    if HasFlaw(data, i, e) {
      var f :| Flawed(data, i, f, e) && !f.ShortField?;
      SkipReports(data, i, f, e);
    }
  }

  // ----- Unmarshalling

  /** Fields it accepts, at the front, are taken over, and unmarshalling goes on behind them. */
  lemma {:induction false} UnmarshalsPrefix(m: Args, data: seq<byte>, i: nat, fs: seq<Field>)
    requires |data| <= INT64_MAX && AllAcceptable(fs) && At(data, i, AllBytes(fs))
    ensures i + |AllBytes(fs)| <= |data|
    ensures Unmarshal(m, data, i) == Unmarshal(ApplyAll(m, fs), data, i + |AllBytes(fs)|)
    decreases fs
  {
    hide At, Whole, Word, ReadAt, FieldNum, Skip;
    AtWithin(data, i, AllBytes(fs));
    if fs != [] {
      var f := fs[0];
      AtSplit(data, i, FieldBytes(f), AllBytes(fs[1..]));
      AtSplit(data, i, f.tag, Payload(f));
      ReadsWhole(data, i, f.tag);
      if f.VarintField? {
        ReadsWhole(data, i + |f.tag|, f.value);
      }
      SkipsField(data, i, f);
      UnmarshalsPrefix(Apply(m, f), data, i + |FieldBytes(f)|, fs[1..]);
    }
  }

  /** A counted field whose end, as an int64, wraps around. */
  ghost predicate Wraps(data: seq<byte>, i: nat) {
    exists tag, length :: IsShort(data, i, tag, length) && EndOf(tag, length, i) - i > INT64_MAX
  }

  ghost predicate GoesBeyond(data: seq<byte>, i: nat) {
    exists tag, length :: IsShort(data, i, tag, length) && EndOf(tag, length, i) <= INT64_MAX
  }

  /** The tag at `i`, whole, with the number of its field and its wire type. */
  ghost predicate TagAt(data: seq<byte>, i: nat, num: int, wireType: nat) {
    ReadAt(data, i).Done? && ReadAt(data, i).value % 8 == wireType && FieldNum(ReadAt(data, i).value) == num
  }

  /** Why unmarshalling stops at the field at `i`. */
  ghost predicate StopsAt(data: seq<byte>, i: nat, st: Status) {
    i < |data| &&
    match st
    case Success => false
    case EndGroupForNonGroup => exists num :: TagAt(data, i, num, 4)
    case IllegalTag => exists num, wireType :: TagAt(data, i, num, wireType) && wireType != 4 && num <= 0
    case WrongWireType =>
      exists num, wireType :: TagAt(data, i, num, wireType) && wireType != 4 && wireType != 0 && 1 <= num <= 2
    case Stopped(e) =>
      || Unreadable(data, i, e)
      || (exists num :: TagAt(data, i, num, 0) && 1 <= num <= 2 && Unreadable(data, ReadAt(data, i).next, e))
      || (exists num, wireType ::
            && TagAt(data, i, num, wireType) && wireType != 4 && num > 2
            && ((IsError(e) && HasFlaw(data, i, e))
                || (e == ErrInvalidLength && Wraps(data, i)) || (e == ErrUnexpectedEOF && GoesBeyond(data, i))))
  }

  lemma UnknownStops(data: seq<byte>, i: nat)
    requires i < |data| <= INT64_MAX
    ensures Wraps(data, i) ==> Skip(data, i).Index? && Skip(data, i).n < 0
    ensures GoesBeyond(data, i) ==> Skip(data, i).Index? && |data| < Skip(data, i).n <= INT64_MAX
    ensures Skip(data, i).Index? && Skip(data, i).n < 0 ==> Wraps(data, i)
    ensures Skip(data, i).Index? && |data| < Skip(data, i).n <= INT64_MAX ==> GoesBeyond(data, i)
  {
    hide Skip, IsShort, EndOf;
    if Wraps(data, i) {
      var tag, length :| IsShort(data, i, tag, length) && EndOf(tag, length, i) - i > INT64_MAX;
      WrappedSkip(data, i, tag, length);
    }
    if GoesBeyond(data, i) {
      var tag, length :| IsShort(data, i, tag, length) && EndOf(tag, length, i) <= INT64_MAX;
      ShortSkip(data, i, tag, length);
      ShortEnds(data, i, tag, length);
    }
    if Skip(data, i).Index? && (Skip(data, i).n > |data| || Skip(data, i).n < 0) {
      var tag, length := ShortFails(data, i);
      ShortEnds(data, i, tag, length);
    }
  }

  lemma ShortEnds(data: seq<byte>, i: nat, tag: seq<byte>, length: seq<byte>)
    requires |data| <= INT64_MAX && IsShort(data, i, tag, length)
    ensures |data| < EndOf(tag, length, i) <= i + INT64_MAX + 20
  {
    hide Word, Whole, At;
    WholeIsShort(tag);
    if TypeOf(tag) == 2 {
      WholeIsShort(length);
    }
  }

  lemma WrappedSkip(data: seq<byte>, i: nat, tag: seq<byte>, length: seq<byte>)
    requires i < |data| <= INT64_MAX && IsShort(data, i, tag, length) && EndOf(tag, length, i) - i > INT64_MAX
    ensures Skip(data, i).Index? && Skip(data, i).n < 0
  {
    hide At, Whole, Word, ReadAt;
    ReadsWhole(data, i, tag);
    WholeIsShort(tag);
    if TypeOf(tag) == 2 {
      ReadsWhole(data, i + |tag|, length);
      WholeIsShort(length);
    }
  }

  /** A field that unmarshalling accepts begins at `i`. */
  ghost predicate AcceptsAt(data: seq<byte>, i: nat) {
    exists f :: Acceptable(f) && At(data, i, FieldBytes(f))
  }

  lemma AcceptedWhen(data: seq<byte>, i: nat)
    requires i < |data| <= INT64_MAX && ReadAt(data, i).Done?
    ensures var tag := ReadAt(data, i); var num, wireType := FieldNum(tag.value), tag.value % 8;
      && (1 <= num <= 2 && wireType == 0 && ReadAt(data, tag.next).Done? ==> AcceptsAt(data, i))
      && (num > 2 && wireType != 4 && Skip(data, i).Index? && 0 <= Skip(data, i).n <= |data| ==> AcceptsAt(data, i))
  {
    hide Whole, Word, ReadAt, FieldNum, Skip;
    var tag := ReadAt(data, i);
    var num, wireType := FieldNum(tag.value), tag.value % 8;
    WholeRead(data, i);
    if 1 <= num <= 2 && wireType == 0 && ReadAt(data, tag.next).Done? {
      WholeRead(data, tag.next);
      var f := VarintField(data[i..tag.next], data[tag.next..ReadAt(data, tag.next).next]);
      AtSplit(data, i, f.tag, f.value);
      assert At(data, i, FieldBytes(f)) && Acceptable(f);
    }
    if num > 2 && wireType != 4 && Skip(data, i).Index? && 0 <= Skip(data, i).n <= |data| {
      var f := Parses(data, i);
      AtSplit(data, i, f.tag, Payload(f));
      ReadsWhole(data, i, f.tag);
      assert Acceptable(f);
    }
  }

  /** At a field it does not accept, unmarshalling stops with exactly the status for it. */
  lemma StopsIff(m: Args, data: seq<byte>, i: nat, st: Status)
    requires i < |data| <= INT64_MAX && !st.Success? && st != Stopped(Panic) && !AcceptsAt(data, i)
    ensures Unmarshal(m, data, i).0 == st <==> StopsAt(data, i, st)
  {
    hide At, Whole, Word, ReadAt, FieldNum, Skip, Cut, Overlong, Flawed, Wraps, GoesBeyond, AcceptsAt;
    CutIff(data, i);
    OverlongIff(data, i);
    UnknownStops(data, i);
    if st.Stopped? && IsError(st.why) {
      SkipErrorIff(data, i, st.why);
    }
    var tag := ReadAt(data, i);
    if tag.Done? {
      assert TagAt(data, i, FieldNum(tag.value), tag.value % 8);
      CutIff(data, tag.next);
      OverlongIff(data, tag.next);
      AcceptedWhen(data, i);
    }
  }

  /** The fields in front are accepted, and what follows them stops the unmarshalling. */
  ghost predicate StopsAfter(data: seq<byte>, i: nat, fs: seq<Field>, st: Status) {
    && AllAcceptable(fs) && At(data, i, AllBytes(fs))
    && !AcceptsAt(data, i + |AllBytes(fs)|) && StopsAt(data, i + |AllBytes(fs)|, st)
  }

  /** As many fields as are accepted from `i` on. */
  lemma {:induction false} AcceptedPrefix(data: seq<byte>, i: nat) returns (fs: seq<Field>)
    requires i <= |data| <= INT64_MAX
    ensures AllAcceptable(fs) && At(data, i, AllBytes(fs)) && i + |AllBytes(fs)| <= |data|
    ensures !AcceptsAt(data, i + |AllBytes(fs)|)
    decreases |data| - i
  {
    hide At, FieldBytes, Acceptable;
    if AcceptsAt(data, i) {
      var f :| Acceptable(f) && At(data, i, FieldBytes(f));
      AtWithin(data, i, FieldBytes(f));
      FieldIsNotEmpty(f);
      var rest := AcceptedPrefix(data, i + |FieldBytes(f)|);
      fs := [f] + rest;
      AtSplit(data, i, FieldBytes(f), AllBytes(rest));
      assert AllBytes(fs) == FieldBytes(f) + AllBytes(rest);
    } else {
      fs := [];
      NothingAt(data, i);
    }
  }

  lemma FieldIsNotEmpty(f: Field)
    requires Acceptable(f)
    ensures |FieldBytes(f)| > 0
  {
  }

  lemma NothingAt(data: seq<byte>, i: nat)
    requires i <= |data|
    ensures At(data, i, [])
  {
  }

  /**
   * Whole inputs: unmarshalling fails with a status exactly when some acceptable fields are followed by
   * what that status stands for. (A panic is left to the skipper.)
   */
  lemma UnmarshalFailsIff(m: Args, data: seq<byte>, i: nat, st: Status)
    requires i <= |data| <= INT64_MAX && !st.Success? && st != Stopped(Panic)
    ensures Unmarshal(m, data, i).0 == st <==> exists fs :: StopsAfter(data, i, fs, st)
  {
    hide At, StopsAt, AcceptsAt, Unmarshal, AllAcceptable, ApplyAll;
    if Unmarshal(m, data, i).0 == st {
      var fs := AcceptedPrefix(data, i);
      UnmarshalsPrefix(m, data, i, fs);
      EndIsSuccess(ApplyAll(m, fs), data, i + |AllBytes(fs)|);
      StopsIff(ApplyAll(m, fs), data, i + |AllBytes(fs)|, st);
      assert StopsAfter(data, i, fs, st);
    }
    if fs :| StopsAfter(data, i, fs, st) {
      StopsWithin(data, i + |AllBytes(fs)|, st);
      UnmarshalsPrefix(m, data, i, fs);
      StopsIff(ApplyAll(m, fs), data, i + |AllBytes(fs)|, st);
    }
  }

  lemma EndIsSuccess(m: Args, data: seq<byte>, i: nat)
    requires i <= |data| <= INT64_MAX
    ensures i == |data| ==> Unmarshal(m, data, i) == (Success, m)
  {
  }

  lemma StopsWithin(data: seq<byte>, i: nat, st: Status)
    requires StopsAt(data, i, st)
    ensures i < |data|
  {
  }

  /** What a failure leaves: the fields so far, and in a known field that cannot be read what was read of it. */
  lemma LeftByFailure(m: Args, data: seq<byte>, i: nat)
    requires i < |data| <= INT64_MAX && !AcceptsAt(data, i)
    ensures var left := Unmarshal(m, data, i).1;
      if TagAt(data, i, 1, 0) then left == Args(Partial(data, ReadAt(data, i).next), m.b)
      else if TagAt(data, i, 2, 0) then left == Args(m.a, Partial(data, ReadAt(data, i).next))
      else left == m
  {
    hide At, Whole, Word, ReadAt, FieldNum, Skip, Cut, Overlong, Value, AcceptsAt;
    CutIff(data, i);
    OverlongIff(data, i);
    var tag := ReadAt(data, i);
    if tag.Done? {
      AcceptedWhen(data, i);
      CutIff(data, tag.next);
      OverlongIff(data, tag.next);
      PartialIs(data, tag.next);
    }
  }

  /** What a failing read, which looks at ten bytes at most, has put together. */
  function Partial(data: seq<byte>, i: nat): int32
    requires i <= |data|
  {
    Int32(Value(data, i, if i + 10 <= |data| then i + 10 else |data|) % WORD64)
  }

  lemma PartialIs(data: seq<byte>, i: nat)
    requires i <= |data|
    ensures Cut(data, i) ==> Partial(data, i) == Int32(Value(data, i, |data|) % WORD64)
    ensures Overlong(data, i) ==> i + 10 <= |data| && Partial(data, i) == Int32(Value(data, i, i + 10) % WORD64)
  {
  }
}
