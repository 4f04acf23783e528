/**
 * The pool of messages that client and server share: what a message that was decoded into, changed,
 * cloned, freed and handed out again carries with it.
 */
module MessagePool {
  import opened Common
  import opened Header
  import opened Wire
  import opened M = Message

  /** Where a message is: with whoever got it, in the pool, or left to the garbage collector. */
  datatype Place = Held | Free | Gone

  /**
   * A message object and the capacity of its internal buffer. `refused` tells how the last decoding that
   * read a byte went, of this header or of the one it was cloned from: whether that byte was not the
   * magic number. `decoded` tells whether it was decoded into since it was handed out.
   */
  datatype Slot = Slot(m: Message, cap: nat, place: Place, refused: bool, decoded: bool)

  type Pool = seq<Slot>

  datatype Action =
    | Get(pick: Option<nat>)                                                    // `GetPooledMsg`
    | DecodeInto(k: nat, cs: Compressors, maxLength: nat, stream: Bytes, i: nat)
    | Change(k: nat, m: Message)                                                // setters and assignments
    | CloneInto(k: nat, from: nat)                                              // after the `Get` in `Clone`
    | Release(k: nat)                                                           // `FreeMsg`
    | Collect(k: nat)                                                           // the pool drops a message

  const MAX_CAP := 1024

  predicate IsHeld(p: Pool, k: nat) {
    k < |p| && p[k].place.Held?
  }

  predicate Enabled(p: Pool, a: Action) {
    match a
    case Get(pick) => pick.Some? ==> pick.value < |p| && p[pick.value].place.Free?
    case DecodeInto(k, _, _, _, _) => IsHeld(p, k)
    case Change(k, m) => IsHeld(p, k) && m.header[0] == p[k].m.header[0]
    case CloneInto(k, from) => IsHeld(p, k) && IsHeld(p, from) && k != from
    case Release(k) => IsHeld(p, k)
    case Collect(k) => k < |p| && p[k].place.Free?
  }

  /** The buffer is replaced when a frame within the limit does not fit. */
  function DecodedCap(cap: nat, maxLength: nat, stream: Bytes, i: nat): nat {
    if i + 16 > |stream| || Octet(stream[i]) != MAGIC then cap
    else
      var l := Get32(stream, i + 12);
      if (maxLength > 0 && l > maxLength) || l <= cap then cap else l
  }

  /** The buffer never shrinks, and after a successful decoding it holds the body, being no larger than needed. */
  lemma DecodedCapIs(m: Message, cap: nat, cs: Compressors, maxLength: nat, stream: Bytes, i: nat)
    ensures DecodedCap(cap, maxLength, stream, i) >= cap
    ensures var d := Decode(m, cs, maxLength, stream, i);
      d.Got? ==>
        && i + 16 <= d.next
        && DecodedCap(cap, maxLength, stream, i) == if cap < d.next - i - 16 then d.next - i - 16 else cap
  {
    hide Octet, Cooked, DecodeMetadata, Get32, SectionEnd;
  }

  predicate RefusedBy(stream: Bytes, i: nat, before: bool) {
    if i < |stream| then Octet(stream[i]) != MAGIC else before
  }

  function NewSlot(): Slot {
    Slot(NewMessage(), 0, Held, false, false)
  }

  /** Only a message with a small buffer is reset and pooled. */
  function Released(s: Slot): Slot {
    if s.cap < MAX_CAP then s.(m := Reset(s.m), place := Free) else s.(place := Gone)
  }

  function Next(p: Pool, a: Action): Pool
    requires Enabled(p, a)
  {
    match a
    case Get(pick) =>
      if pick.Some? then p[pick.value := p[pick.value].(place := Held, decoded := false)] else p + [NewSlot()]
    case DecodeInto(k, cs, maxLength, stream, i) =>
      p[k := Slot(Decode(p[k].m, cs, maxLength, stream, i).m, DecodedCap(p[k].cap, maxLength, stream, i), Held,
                  RefusedBy(stream, i, p[k].refused), true)]
    case Change(k, m) => p[k := p[k].(m := m)]
    case CloneInto(k, from) => p[k := p[k].(m := Clone(p[from].m, p[k].m), refused := p[from].refused)]
    case Release(k) => p[k := Released(p[k])]
    case Collect(k) => p[k := p[k].(place := Gone)]
  }

  ghost predicate Runs(run: seq<Action>, p: Pool)
    decreases |run|
  {
    if run == [] then p == []
    else
      var n := |run| - 1;
      exists q :: Runs(run[..n], q) && Enabled(q, run[n]) && p == Next(q, run[n])
  }

  ghost predicate Reachable(p: Pool) {
    exists run :: Runs(run, p)
  }

  // ----- Every run

  /** What holds of each message, wherever it is. */
  ghost predicate SlotOk(s: Slot) {
    && (CheckMagicNumber(s.m.header) <==> !s.refused)
    && (s.place.Free? ==> s.m == Reset(s.m) && s.cap < MAX_CAP)
    && (s.place.Held? && !s.decoded ==> s.cap < MAX_CAP)
  }

  ghost predicate AllOk(p: Pool) {
    forall k :: 0 <= k < |p| ==> SlotOk(p[k])
  }

  lemma StepOk(p: Pool, a: Action)
    requires AllOk(p) && Enabled(p, a)
    ensures AllOk(Next(p, a))
  {
    hide Decode, DecodedCap, Set, Octet;
    if a.DecodeInto? {
      FirstByteLeft(p[a.k].m, a.cs, a.maxLength, a.stream, a.i);
    } else if a.CloneInto? {
      CloneMagic(p[a.from].m, p[a.k].m);
    }
  }

  lemma CloneMagic(m: Message, pooled: Message)
    ensures Clone(m, pooled).header[0] == m.header[0]
  {
  }

  lemma {:induction false} RunOk(run: seq<Action>, p: Pool)
    requires Runs(run, p)
    ensures AllOk(p)
    decreases |run|
  {
    hide Next, Enabled, SlotOk;
    if run != [] {
      var n := |run| - 1;
      var q :| Runs(run[..n], q) && Enabled(q, run[n]) && p == Next(q, run[n]);
      RunOk(run[..n], q);
      StepOk(q, run[n]);
    }
  }

  lemma ReachableOk(p: Pool, k: nat)
    requires Reachable(p) && k < |p|
    ensures SlotOk(p[k])
  {
    hide SlotOk;
    var run :| Runs(run, p);
    RunOk(run, p);
  }

  /**
   * Whatever was done to a message before, the pool hands it out empty; it is as new exactly when the
   * last decoding into it was not refused for its first byte, and otherwise differs in that byte alone.
   */
  lemma HandedOut(p: Pool, k: nat)
    requires Reachable(p) && k < |p| && p[k].place.Free?
    ensures var got := Next(p, Get(Some(k)))[k];
      && got.m == NewMessage().(header := NewMessage().header[0 := got.m.header[0]])
      && (got.m == NewMessage() <==> !p[k].refused)
      && got.cap < MAX_CAP
  {
    ReachableOk(p, k);
    var h := NewMessage().header;
    assert Reset(p[k].m).header == h[0 := p[k].m.header[0]];
  }

  /**
   * Freeing resets a message and pools it exactly when its buffer is small, and the buffer of a message
   * that was not decoded into since it was handed out always is. A freed message is then an ordinary
   * request: its marks are gone.
   */
  lemma ReleasedIsReset(p: Pool, k: nat)
    requires Reachable(p) && IsHeld(p, k)
    ensures var freed := Next(p, Release(k))[k];
      && (freed.place.Free? <==> p[k].cap < MAX_CAP)
      && (freed.place.Free? ==> !IsOneway(freed.m.header) && !IsHeartbeat(freed.m.header) && freed.m == Reset(p[k].m))
      && (!freed.place.Free? ==> freed.m == p[k].m)
      && (!p[k].decoded ==> freed.place.Free?)
  {
    ReachableOk(p, k);
    ResetForgetsOneway(p[k].m);
  }

  /**
   * A frame made of a message that somebody holds, whatever it is changed to, is accepted by the receiver
   * exactly when the last decoding into the message was not refused for its first byte.
   */
  lemma FrameAcceptedIff(p: Pool, k: nat, target: Message, order: seq<Bytes>, cs: Compressors, maxLength: nat,
                         stream: Bytes, i: nat)
    requires Reachable(p) && IsHeld(p, k)
    requires Lawful(cs) && IsIterationOrder(order, p[k].m.metadata) && Fits(BodyOf(p[k].m, order, cs), maxLength)
    requires At(stream, i, Frame(p[k].m, order, cs))
    ensures Decode(target, cs, maxLength, stream, i).Got? <==> !p[k].refused
    ensures p[k].refused ==>
      Decode(target, cs, maxLength, stream, i) == Failed(WrongMagicNumber, WithFirstByte(target, p[k].m.header[0]))
  {
    hide Reachable, Lawful, Fits, BodyOf, Frame, At, Decode;
    ReachableOk(p, k);
    RoundTrip(target, p[k].m, order, cs, maxLength, stream, i);
  }

  // ----- A run in which that happens

  lemma Step(p: Pool, a: Action) returns (q: Pool)
    requires Reachable(p) && Enabled(p, a)
    ensures q == Next(p, a) && Reachable(q)
  {
    var run :| Runs(run, p);
    q := Next(p, a);
    assert (run + [a])[..|run|] == run;
    assert Runs(run + [a], q);
  }

  lemma EmptyReachable()
    ensures Reachable([])
  {
    assert Runs([], []);
  }

  /**
   * A server reads a request whose first byte is wrong and frees the message; the next request that
   * somebody builds in it is refused by its receiver.
   */
  lemma RefusedAfterReuse(b: byte, cs: Compressors, maxLength: nat) returns (p: Pool)
    requires Octet(b) != MAGIC
    ensures Reachable(p) && |p| == 1 && IsHeld(p, 0) && !p[0].decoded && p[0].m.metadata == map[]
    ensures forall target ::
      Decode(target, cs, maxLength, Frame(p[0].m, [], cs), 0) == Failed(WrongMagicNumber, WithFirstByte(target, Octet(b)))
  {
    hide Reachable, Decode, Octet;
    EmptyReachable();
    p := Step([], Get(None));
    WrongFirstByte(NewMessage(), cs, maxLength, b);
    p := Step(p, DecodeInto(0, cs, maxLength, [b], 0));
    p := Step(p, Release(0));
    HandedOut(p, 0);
    p := Step(p, Get(Some(0)));
    forall target
      ensures Decode(target, cs, maxLength, Frame(p[0].m, [], cs), 0) == Failed(WrongMagicNumber, WithFirstByte(target, Octet(b)))
    {
      FrameRefused(p[0].m, cs, maxLength, target);
    }
  }

  lemma FrameRefused(m: Message, cs: Compressors, maxLength: nat, target: Message)
    requires !CheckMagicNumber(m.header)
    ensures Decode(target, cs, maxLength, Frame(m, [], cs), 0)
         == Failed(WrongMagicNumber, WithFirstByte(target, m.header[0]))
  {
    hide Octet, Raw, Set, Prefixed, BodyOf;
    var h, frame := Zipped(m, cs).0.header, Frame(m, [], cs);
    SentMagic(m, cs);
    assert frame[0..12] == Raw(h);
    FirstByte(frame, 0, h);
  }

  lemma WrongFirstByte(m: Message, cs: Compressors, maxLength: nat, b: byte)
    requires Octet(b) != MAGIC
    ensures Decode(m, cs, maxLength, [b], 0).m == WithFirstByte(m, Octet(b))
    ensures DecodedCap(0, maxLength, [b], 0) == 0 && RefusedBy([b], 0, false)
  {
  }
}
