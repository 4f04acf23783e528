/**
 * The client's pending calls as a protocol: any number of calling goroutines, the reader and
 * `Close` share a sequence counter and a map under one mutex. Every mutex section is one atomic
 * step; the `done` that a goroutine owes the call it removed is a later step of its own.
 */
module PendingCalls {
  import opened Common

  type CallId = nat

  // ----- The fields the mutex protects

  datatype Shared = Shared(
    nextSeq: nat,
    pending: map<nat, CallId>,
    closing: bool,
    shutdown: bool,
    pluginClosed: bool)

  /** `send`'s section when it is not refused. */
  function Register(sh: Shared, c: CallId): Shared {
    sh.(nextSeq := (sh.nextSeq + 1) % WORD64, pending := sh.pending[sh.nextSeq := c])
  }

  /** The section of every goroutine that takes a call out: look up, then delete. */
  function Take(sh: Shared, k: nat): Shared {
    sh.(pending := sh.pending - {k})
  }

  function Taken(sh: Shared, k: nat): Option<CallId> {
    if k in sh.pending then Some(sh.pending[k]) else None
  }

  /** `Close`, which empties the map; only the first of all closes and exits sets the flag. */
  function CloseShared(sh: Shared): Shared {
    sh.(pending := map[], pluginClosed := true, closing := sh.closing || !sh.shutdown)
  }

  /** The reader's exit, which leaves the map alone. */
  function ExitShared(sh: Shared): Shared {
    sh.(shutdown := true, pluginClosed := true)
  }

  // ----- The goroutines

  datatype Pc =
    | Created                                 // `send` not entered
    | Encoding                                // registered, mutex released
    | Writing                                 // arguments encoded
    | Sent                                    // written; the freed message's one-way bit is read next, see `OnewayCalls`
    | Owing(target: CallId, cancelled: bool)  // out of a section, owes `target` a `done`
    | Waiting                                 // `send` returned
    | Returned

  /**
   * One call and the goroutine that makes it. `cell` is what the context's sequence cell holds.
   * `completed` counts `done`s; `extra` counts the `done`s owed beyond the one that removal owes.
   */
  datatype CallState = CallState(
    pc: Pc, cancellable: bool, number: Option<nat>, cell: nat, completed: nat, extra: nat)

  datatype Reader = Reading | ReaderOwing(target: CallId) | Exited

  datatype State = State(
    sh: Shared,
    calls: seq<CallState>,
    reader: Reader,
    sends: nat,                        // calls registered so far
    deliveries: seq<(nat, CallId)>,    // replies handed to calls, by reply number
    pluginRuns: nat,                   // runs of the connection-close plugin
    unlocksOwed: nat,                  // `Unlock`s beyond the `Lock`s, still to come
    crashed: bool)                     // an unlocked mutex was unlocked

  datatype Action =
    | Start(cancellable: bool)
    | Send(c: CallId, supported: bool)
    | Encoded(c: CallId, ok: bool)
    | Written(c: CallId, ok: bool)
    | CheckOneway(c: CallId, oneway: bool)
    | Complete(c: CallId)
    | Cancel(c: CallId)
    | Receive(c: CallId)
    | Reply(k: nat)
    | ReaderComplete
    | ReaderExit
    | Close
    | SecondUnlock(held: bool)

  function Init(): State {
    State(Shared(0, map[], false, false, false), [], Reading, 0, [], 0, 0, false)
  }

  predicate At(s: State, c: CallId, pc: Pc) {
    c < |s.calls| && s.calls[c].pc == pc
  }

  predicate Enabled(s: State, a: Action) {
    && !s.crashed
    && match a
       case Start(_) => true
       case Send(c, _) => At(s, c, Created)
       case Encoded(c, _) => At(s, c, Encoding) && s.calls[c].number.Some?
       case Written(c, _) => At(s, c, Writing) && s.calls[c].number.Some?
       case CheckOneway(c, _) => At(s, c, Sent) && s.calls[c].number.Some?
       case Complete(c) => c < |s.calls| && s.calls[c].pc.Owing? && s.calls[c].pc.target < |s.calls|
       case Cancel(c) => At(s, c, Waiting) && s.calls[c].cancellable
       case Receive(c) => At(s, c, Waiting) && s.calls[c].completed > 0
       case Reply(_) => s.reader == Reading
       case ReaderComplete => s.reader.ReaderOwing? && s.reader.target < |s.calls|
       case ReaderExit => s.reader == Reading
       case Close => true
       case SecondUnlock(_) => s.unlocksOwed > 0
  }

  function Resume(cancelled: bool): Pc {
    if cancelled then Returned else Waiting
  }

  function Move(s: State, c: CallId, pc: Pc): State
    requires c < |s.calls|
  {
    s.(calls := s.calls[c := s.calls[c].(pc := pc)])
  }

  /** Goroutine `c` takes out whatever is pending under `k`; it owes that call a `done`. */
  function TakeBy(s: State, c: CallId, k: nat, cancelled: bool): State
    requires c < |s.calls|
  {
    match Taken(s.sh, k)
    case Some(t) => Move(s.(sh := Take(s.sh, k)), c, Owing(t, cancelled))
    case None => Move(s, c, Resume(cancelled))
  }

  predicate IsPending(s: State, c: CallId) {
    && c < |s.calls| && s.calls[c].number.Some?
    && s.calls[c].number.value in s.sh.pending && s.sh.pending[s.calls[c].number.value] == c
  }

  /** `done` for one call. */
  function Done(calls: seq<CallState>, t: CallId): seq<CallState>
    requires t < |calls|
  {
    calls[t := calls[t].(completed := calls[t].completed + 1)]
  }

  /** `done` for every pending call among the first `n`, by a section that removes it or by one that does not. */
  function DonePending(s: State, n: nat, removed: bool): (r: seq<CallState>)
    requires n <= |s.calls|
    ensures |r| == n
    ensures forall c :: 0 <= c < n ==> r[c] == DoneIfPending(s, c, removed)
  {
    if n == 0 then [] else DonePending(s, n - 1, removed) + [DoneIfPending(s, n - 1, removed)]
  }

  function DoneIfPending(s: State, c: CallId, removed: bool): CallState
    requires c < |s.calls|
  {
    var call := s.calls[c];
    if IsPending(s, c)
    then call.(completed := call.completed + 1, extra := call.extra + if removed then 0 else 1)
    else call
  }

  function Next(s: State, a: Action): State
    requires Enabled(s, a)
  {
    match a
    case Start(cancellable) =>
      s.(calls := s.calls + [CallState(Created, cancellable, None, 0, 0, 0)])
    case Send(c, supported) =>
      if s.sh.shutdown || s.sh.closing || !supported then Move(s, c, Owing(c, false))
      else
        var call := s.calls[c].(pc := Encoding, number := Some(s.sh.nextSeq), cell := s.sh.nextSeq);
        s.(sh := Register(s.sh, c), calls := s.calls[c := call], sends := s.sends + 1)
    case Encoded(c, ok) =>
      if ok then Move(s, c, Writing)
      else
        var call := s.calls[c].(pc := Owing(c, false),
                                extra := s.calls[c].extra + if IsPending(s, c) then 0 else 1);
        s.(sh := Take(s.sh, call.number.value), calls := s.calls[c := call])
    case Written(c, ok) =>
      if ok then Move(s, c, Sent) else TakeBy(s, c, s.calls[c].number.value, false)
    case CheckOneway(c, oneway) =>
      if oneway then TakeBy(s, c, s.calls[c].number.value, false) else Move(s, c, Waiting)
    case Complete(c) =>
      var pc := s.calls[c].pc;
      Move(s.(calls := Done(s.calls, pc.target)), c, Resume(pc.cancelled))
    case Cancel(c) =>
      TakeBy(s, c, s.calls[c].cell, true)
    case Receive(c) =>
      Move(s, c, Returned)
    case Reply(k) =>
      (match Taken(s.sh, k)
       case Some(t) => s.(sh := Take(s.sh, k), reader := ReaderOwing(t), deliveries := s.deliveries + [(k, t)])
       case None => s)
    case ReaderComplete =>
      s.(calls := Done(s.calls, s.reader.target), reader := Reading)
    case ReaderExit =>
      s.(sh := ExitShared(s.sh), calls := DonePending(s, |s.calls|, false), reader := Exited,
         pluginRuns := s.pluginRuns + if s.sh.pluginClosed then 0 else 1)
    case Close =>
      s.(sh := CloseShared(s.sh), calls := DonePending(s, |s.calls|, true),
         pluginRuns := s.pluginRuns + (if s.sh.pluginClosed then 0 else 1),
         unlocksOwed := s.unlocksOwed + if s.sh.closing || s.sh.shutdown then 1 else 0)
    case SecondUnlock(held) =>
      // On a mutex that another goroutine holds it releases that goroutine's lock, whose own unlock is then
      // the one too many; on a free mutex it is fatal.
      if held then s else s.(unlocksOwed := s.unlocksOwed - 1, crashed := true)
  }

  /** `s` runs to `t` by the actions `run`, in order. */
  ghost predicate Runs(s: State, run: seq<Action>, t: State)
    decreases |run|
  {
    if run == [] then s == t
    else Enabled(s, run[0]) && Runs(Next(s, run[0]), run[1..], t)
  }

  ghost predicate Reachable(t: State) {
    exists run :: Runs(Init(), run, t)
  }

  // ----- Debts

  predicate Owes(call: CallState, t: CallId) {
    call.pc.Owing? && call.pc.target == t
  }

  /** How many of the first `n` calling goroutines owe call `t` a `done`. */
  function OwedBy(calls: seq<CallState>, t: CallId, n: nat): nat
    requires n <= |calls|
  {
    if n == 0 then 0 else OwedBy(calls, t, n - 1) + if Owes(calls[n - 1], t) then 1 else 0
  }

  /** How many goroutines owe call `t` a `done`. */
  function Owed(s: State, t: CallId): nat {
    OwedBy(s.calls, t, |s.calls|) + if s.reader == ReaderOwing(t) then 1 else 0
  }

  lemma {:induction false} OwedBySame(calls: seq<CallState>, calls': seq<CallState>, t: CallId, n: nat)
    requires n <= |calls| && n <= |calls'|
    requires forall i :: 0 <= i < n ==> calls[i].pc == calls'[i].pc
    ensures OwedBy(calls, t, n) == OwedBy(calls', t, n)
  {
    if n > 0 {
      OwedBySame(calls, calls', t, n - 1);
    }
  }

  lemma {:induction false} OwedByUpdate(calls: seq<CallState>, c: CallId, call: CallState, t: CallId, n: nat)
    requires c < |calls| && n <= |calls|
    ensures OwedBy(calls[c := call], t, n) == OwedBy(calls, t, n)
         + if c < n then (if Owes(call, t) then 1 else 0) - (if Owes(calls[c], t) then 1 else 0) else 0
  {
    if n > 0 {
      OwedByUpdate(calls, c, call, t, n - 1);
    }
  }

  // ----- The invariant

  /** Numbers and map agree: what is pending under a number is the call that was given that number. */
  ghost predicate Numbered(s: State) {
    && s.sh.nextSeq == s.sends % WORD64
    && (forall c :: 0 <= c < |s.calls| ==> CallNumbered(s, c))
    && (forall c, d :: 0 <= c < d < |s.calls| && s.calls[c].number.Some? ==> s.calls[c].number != s.calls[d].number)
    && (forall k :: k in s.sh.pending ==> k < s.sends && IsPending(s, s.sh.pending[k]) && Number(s, s.sh.pending[k]) == k)
    && (forall i :: 0 <= i < |s.deliveries| ==> Delivered(s, s.deliveries[i].0, s.deliveries[i].1))
    && (s.reader.ReaderOwing? ==> s.reader.target < |s.calls|)
  }

  ghost function Number(s: State, c: CallId): int {
    if c < |s.calls| && s.calls[c].number.Some? then s.calls[c].number.value else -1
  }

  ghost predicate Delivered(s: State, k: nat, c: CallId) {
    c < |s.calls| && s.calls[c].number == Some(k)
  }

  ghost predicate CallNumbered(s: State, c: CallId)
    requires c < |s.calls|
  {
    var call := s.calls[c];
    && (call.number.Some? ==> call.number.value < s.sends && call.cell == call.number.value)
    && (call.number.None? ==> call.cell == 0)
    && (call.pc.Encoding? || call.pc.Writing? || call.pc.Sent? ==> call.number.Some?)
    && (call.pc.Created? ==> call.number.None?)
    && (call.pc.Owing? ==> call.pc.target < |s.calls|)
  }

  /**
   * The books of one call. A registered call's `done`s, made and owed, and its place in the map
   * add up to one, plus the surplus that the reader's exit and failed encodings cause; a refused
   * call gets exactly one `done`.
   */
  ghost predicate Accounted(s: State, c: CallId)
    requires c < |s.calls|
  {
    var call := s.calls[c];
    if call.number.Some?
    then call.completed + Owed(s, c) + (if IsPending(s, c) then 1 else 0) == 1 + call.extra
    else call.completed + Owed(s, c) == (if call.pc.Created? then 0 else 1) && call.extra == 0
  }

  ghost predicate AllAccounted(s: State) {
    forall c :: 0 <= c < |s.calls| ==> Accounted(s, c)
  }

  /** What the flags promise. */
  ghost predicate Flagged(s: State) {
    && (s.sh.closing ==> s.sh.pending == map[])
    && (s.sh.shutdown <==> s.reader == Exited)
    && (s.sh.shutdown ==> forall c :: 0 <= c < |s.calls| && IsPending(s, c) ==> s.calls[c].completed > 0)
    && (s.sh.closing || s.sh.shutdown ==> s.sh.pluginClosed)
    && s.pluginRuns == (if s.sh.pluginClosed then 1 else 0)
    && (s.unlocksOwed > 0 || s.crashed ==> (s.sh.closing || s.sh.shutdown) && s.sh.pending == map[])
  }

  ghost predicate Invariant(s: State) {
    Numbered(s) && AllAccounted(s) && Flagged(s)
  }

  // ----- Every step keeps it

  /** Nothing is registered: numbers and cells stay, and the map at most loses entries. */
  ghost predicate Shrinks(s: State, s': State) {
    && |s'.calls| == |s.calls| && s'.sh.nextSeq == s.sh.nextSeq && s'.sends == s.sends
    && (forall c :: 0 <= c < |s.calls| ==>
          s'.calls[c].number == s.calls[c].number && s'.calls[c].cell == s.calls[c].cell)
    && (forall k :: k in s'.sh.pending ==> k in s.sh.pending && s'.sh.pending[k] == s.sh.pending[k])
  }

  predicate Registers(s: State, a: Action) {
    a.Send? && !s.sh.shutdown && !s.sh.closing && a.supported
  }

  lemma OtherStepsShrink(s: State, a: Action)
    requires Enabled(s, a) && !a.Start? && !Registers(s, a)
    ensures Shrinks(s, Next(s, a))
  {
    hide DonePending;
  }

  /** The goroutine-local part of the invariant, for every step that registers nothing. */
  lemma OtherStepsKeepCalls(s: State, a: Action, c: CallId)
    requires Numbered(s) && Enabled(s, a) && !a.Start? && !Registers(s, a) && c < |s.calls|
    ensures CallNumbered(Next(s, a), c)
  {
    hide DonePending;
    assert CallNumbered(s, c);
  }

  lemma ShrinkNumbered(s: State, a: Action)
    requires Numbered(s) && Enabled(s, a) && !a.Start? && !Registers(s, a)
    ensures Numbered(Next(s, a))
  {
    var s' := Next(s, a);
    OtherStepsShrink(s, a);
    forall c | 0 <= c < |s.calls| ensures CallNumbered(s', c) {
      OtherStepsKeepCalls(s, a, c);
    }
    ReaderNumbered(s, a);
    hide Next;
  }

  lemma ReaderNumbered(s: State, a: Action)
    requires Numbered(s) && Enabled(s, a) && !a.Start? && !Registers(s, a)
    ensures var s' := Next(s, a);
      && (s'.reader.ReaderOwing? ==> s'.reader.target < |s'.calls|)
      && (s'.deliveries == s.deliveries
          || (a.Reply? && a.k in s.sh.pending && s'.deliveries == s.deliveries + [(a.k, s.sh.pending[a.k])]))
  {
  }

  lemma StartNumbered(s: State, a: Action)
    requires Numbered(s) && Enabled(s, a) && a.Start?
    ensures Numbered(Next(s, a))
  {
    var s' := Next(s, a);
    forall c | 0 <= c < |s'.calls| ensures CallNumbered(s', c) {
      if c < |s.calls| {
        assert CallNumbered(s, c);
      }
    }
  }

  lemma RegisterNumbered(s: State, a: Action)
    requires Numbered(s) && Enabled(s, a) && Registers(s, a) && s.sends < WORD64
    ensures Numbered(Next(s, a))
  {
    var s' := Next(s, a);
    assert s.sh.nextSeq == s.sends && CallNumbered(s, a.c);
    forall c | 0 <= c < |s.calls|
      ensures CallNumbered(s', c)
      ensures c != a.c ==> s'.calls[c] == s.calls[c] && s.calls[c].number != Some(s.sends)
    {
      assert CallNumbered(s, c);
    }
    forall k | k in s.sh.pending
      ensures k < s.sends && s.sh.pending[k] != a.c
      ensures IsPending(s', s.sh.pending[k]) && Number(s', s.sh.pending[k]) == k
    {
      assert IsPending(s, s.sh.pending[k]);
    }
    forall i | 0 <= i < |s.deliveries| ensures Delivered(s', s.deliveries[i].0, s.deliveries[i].1) {
      assert Delivered(s, s.deliveries[i].0, s.deliveries[i].1);
    }
  }

  lemma StepNumbered(s: State, a: Action)
    requires Numbered(s) && Enabled(s, a) && Next(s, a).sends <= WORD64
    ensures Numbered(Next(s, a))
  {
    hide Numbered;
    if a.Start? {
      StartNumbered(s, a);
    } else if Registers(s, a) {
      RegisterNumbered(s, a);
    } else {
      ShrinkNumbered(s, a);
    }
  }

  /** The steps of one calling goroutine that change no other call's record. */
  predicate ByCaller(a: Action) {
    a.Send? || a.Encoded? || a.Written? || a.CheckOneway? || a.Cancel? || a.Receive?
  }

  lemma CallerStep(s: State, a: Action)
    requires Enabled(s, a) && ByCaller(a)
    ensures var s' := Next(s, a);
      && a.c < |s.calls| == |s'.calls| && s'.calls == s.calls[a.c := s'.calls[a.c]] && s'.reader == s.reader
      && s'.calls[a.c].completed == s.calls[a.c].completed
  {
  }

  function One(b: bool): int {
    if b then 1 else 0
  }

  /** Goroutine `c`'s step on the books of call `x`: a new debt is matched by a removal or by surplus. */
  ghost predicate Balanced(s: State, s': State, c: CallId, x: CallId)
    requires c < |s.calls| == |s'.calls| && x < |s.calls|
  {
    var before, after := s.calls[x], s'.calls[x];
    var debt := One(Owes(s'.calls[c], x)) - One(Owes(s.calls[c], x));
    && (before.number.Some? ==>
          && after.number == before.number
          && debt + One(IsPending(s', x)) - One(IsPending(s, x)) == after.extra - before.extra)
    && (before.number.None? && after.number.Some? ==>
          before.pc.Created? && debt == 0 && IsPending(s', x) && after.extra == before.extra)
    && (before.number.None? && after.number.None? ==>
          after.extra == before.extra && debt == One(before.pc.Created?) - One(after.pc.Created?))
  }

  lemma TakeBalanced(s: State, c: CallId, k: nat, cancelled: bool, x: CallId)
    requires Numbered(s) && c < |s.calls| && x < |s.calls| && !s.calls[c].pc.Created? && !s.calls[c].pc.Owing?
    ensures Balanced(s, TakeBy(s, c, k, cancelled), c, x)
  {
    if k in s.sh.pending {
      assert IsPending(s, s.sh.pending[k]);
    }
  }

  lemma MoveBalanced(s: State, c: CallId, pc: Pc, x: CallId)
    requires c < |s.calls| && x < |s.calls| && !s.calls[c].pc.Created? && !s.calls[c].pc.Owing?
    requires !pc.Created? && !pc.Owing?
    ensures Balanced(s, Move(s, c, pc), c, x)
  {
  }

  lemma SendBalanced(s: State, a: Action, x: CallId)
    requires Numbered(s) && Enabled(s, a) && a.Send? && x < |s.calls| && Next(s, a).sends <= WORD64
    ensures Balanced(s, Next(s, a), a.c, x)
  {
    assert CallNumbered(s, a.c) && CallNumbered(s, x);
  }

  lemma EncodedBalanced(s: State, a: Action, x: CallId)
    requires Numbered(s) && Enabled(s, a) && a.Encoded? && x < |s.calls|
    ensures Balanced(s, Next(s, a), a.c, x)
  {
    var k := s.calls[a.c].number.value;
    if k in s.sh.pending {
      assert IsPending(s, s.sh.pending[k]);
    }
  }

  lemma CallerBalanced(s: State, a: Action, x: CallId)
    requires Numbered(s) && Enabled(s, a) && ByCaller(a) && x < |s.calls| && Next(s, a).sends <= WORD64
    ensures a.c < |s.calls| == |Next(s, a).calls| && Balanced(s, Next(s, a), a.c, x)
  {
    hide Numbered, IsPending, OwedBy;
    match a
    case Send(_, _) => SendBalanced(s, a, x);
    case Encoded(_, _) => EncodedBalanced(s, a, x);
    case Written(c, ok) =>
      MoveBalanced(s, c, Sent, x);
      TakeBalanced(s, c, s.calls[c].number.value, false, x);
    case CheckOneway(c, oneway) =>
      MoveBalanced(s, c, Waiting, x);
      TakeBalanced(s, c, s.calls[c].number.value, false, x);
    case Cancel(c) => TakeBalanced(s, c, s.calls[c].cell, true, x);
    case Receive(c) => MoveBalanced(s, c, Returned, x);
  }

  lemma CallerAccounted(s: State, a: Action, x: CallId)
    requires Numbered(s) && Enabled(s, a) && ByCaller(a) && x < |s.calls| && Accounted(s, x)
    requires Next(s, a).sends <= WORD64
    ensures x < |Next(s, a).calls| && Accounted(Next(s, a), x)
  {
    hide Next, Numbered, Enabled, OwedBy, IsPending;
    CallerStep(s, a);
    CallerBalanced(s, a, x);
    OwedByUpdate(s.calls, a.c, Next(s, a).calls[a.c], x, |s.calls|);
  }

  lemma CompleteAccounted(s: State, a: Action, x: CallId)
    requires Numbered(s) && Enabled(s, a) && a.Complete? && x < |s.calls| && Accounted(s, x)
    ensures x < |Next(s, a).calls| && Accounted(Next(s, a), x)
  {
    var c, t := a.c, s.calls[a.c].pc.target;
    var calls := Done(s.calls, t);
    hide OwedBy, Numbered;
    OwedBySame(s.calls, calls, x, |s.calls|);
    OwedByUpdate(calls, c, Next(s, a).calls[c], x, |calls|);
    assert IsPending(Next(s, a), x) == IsPending(s, x);
  }

  lemma StartAccounted(s: State, a: Action, x: CallId)
    requires Numbered(s) && AllAccounted(s) && Enabled(s, a) && a.Start? && x <= |s.calls|
    ensures x < |Next(s, a).calls| && Accounted(Next(s, a), x)
  {
    var s' := Next(s, a);
    OwedBySame(s.calls, s'.calls, x, |s.calls|);
    if x == |s.calls| {
      NobodyOwesNewCalls(s, x, |s.calls|);
    } else {
      assert Accounted(s, x) && IsPending(s', x) == IsPending(s, x);
    }
  }

  lemma {:induction false} NobodyOwesNewCalls(s: State, x: CallId, n: nat)
    requires Numbered(s) && |s.calls| <= x && n <= |s.calls|
    ensures OwedBy(s.calls, x, n) == 0
  {
    if n > 0 {
      NobodyOwesNewCalls(s, x, n - 1);
      assert CallNumbered(s, n - 1);
    }
  }

  lemma ReaderAccounted(s: State, a: Action, x: CallId)
    requires Numbered(s) && Enabled(s, a) && (a.Reply? || a.ReaderComplete?) && x < |s.calls| && Accounted(s, x)
    ensures x < |Next(s, a).calls| && Accounted(Next(s, a), x)
  {
    hide OwedBy;
    OwedBySame(s.calls, Next(s, a).calls, x, |s.calls|);
    if a.Reply? && a.k in s.sh.pending {
      assert IsPending(s, s.sh.pending[a.k]);
    }
  }

  lemma SweepAccounted(s: State, a: Action, x: CallId)
    requires Enabled(s, a) && (a.Close? || a.ReaderExit?) && x < |s.calls| && Accounted(s, x)
    ensures x < |Next(s, a).calls| && Accounted(Next(s, a), x)
  {
    hide OwedBy, DonePending;
    OwedBySame(s.calls, Next(s, a).calls, x, |s.calls|);
  }

  lemma StepAccounted(s: State, a: Action)
    requires Numbered(s) && AllAccounted(s) && Enabled(s, a) && Next(s, a).sends <= WORD64
    ensures AllAccounted(Next(s, a))
  {
    StepSize(s, a);
    forall x | 0 <= x < |Next(s, a).calls| ensures Accounted(Next(s, a), x) {
      hide Next, Numbered, Accounted;
      if a.Start? {
        StartAccounted(s, a, x);
      } else if a.Complete? {
        CompleteAccounted(s, a, x);
      } else if a.Close? || a.ReaderExit? {
        SweepAccounted(s, a, x);
      } else if a.Reply? || a.ReaderComplete? {
        ReaderAccounted(s, a, x);
      } else if a.SecondUnlock? {
        UnlockAccounted(s, a, x);
      } else {
        CallerAccounted(s, a, x);
      }
    }
  }

  lemma StepSize(s: State, a: Action)
    requires Enabled(s, a)
    ensures |Next(s, a).calls| == |s.calls| + if a.Start? then 1 else 0
  {
  }

  lemma UnlockAccounted(s: State, a: Action, x: CallId)
    requires Enabled(s, a) && a.SecondUnlock? && x < |s.calls| && Accounted(s, x)
    ensures x < |Next(s, a).calls| && Accounted(Next(s, a), x)
  {
  }

  lemma StepFlagged(s: State, a: Action)
    requires Numbered(s) && Flagged(s) && Enabled(s, a)
    ensures Flagged(Next(s, a))
  {
    hide Numbered;
    var s' := Next(s, a);
    StepPluginAndUnlocks(s, a);
    if !Registers(s, a) && !a.Start? {
      OtherStepsShrink(s, a);
    }
    if s'.sh.shutdown {
      forall c | 0 <= c < |s'.calls| && IsPending(s', c) ensures s'.calls[c].completed > 0 {
        StepKeepsCompleted(s, a, c);
      }
    }
  }

  lemma StepPluginAndUnlocks(s: State, a: Action)
    requires Flagged(s) && Enabled(s, a)
    ensures var s' := Next(s, a);
      && (s'.sh.closing ==> s'.sh.pending == map[])
      && (s'.sh.shutdown <==> s'.reader == Exited)
      && (s'.sh.closing || s'.sh.shutdown ==> s'.sh.pluginClosed)
      && s'.pluginRuns == (if s'.sh.pluginClosed then 1 else 0)
      && (s'.unlocksOwed > 0 || s'.crashed ==> (s'.sh.closing || s'.sh.shutdown) && s'.sh.pending == map[])
  {
    hide DonePending;
  }

  /** Once the connection is down, whatever is still pending has been completed. */
  lemma StepKeepsCompleted(s: State, a: Action, c: CallId)
    requires Flagged(s) && Enabled(s, a)
    requires var s' := Next(s, a); s'.sh.shutdown && c < |s'.calls| && IsPending(s', c)
    ensures Next(s, a).calls[c].completed > 0
  {
    hide DonePending;
    assert c < |s.calls| && IsPending(s, c);
  }

  lemma StepKeepsInvariant(s: State, a: Action)
    requires Invariant(s) && Enabled(s, a) && Next(s, a).sends <= WORD64
    ensures Invariant(Next(s, a))
  {
    hide Next, Numbered, AllAccounted, Flagged;
    StepNumbered(s, a);
    StepAccounted(s, a);
    StepFlagged(s, a);
  }

  // ----- Every run

  lemma StepSends(s: State, a: Action)
    requires Enabled(s, a)
    ensures Next(s, a).sends == s.sends + if Registers(s, a) then 1 else 0
  {
  }

  lemma {:induction false} RunSends(s: State, run: seq<Action>, t: State)
    requires Runs(s, run, t)
    ensures s.sends <= t.sends
    decreases |run|
  {
    hide Next;
    if run != [] {
      StepSends(s, run[0]);
      RunSends(Next(s, run[0]), run[1..], t);
    }
  }

  lemma {:induction false} RunKeepsInvariant(s: State, run: seq<Action>, t: State)
    requires Invariant(s) && Runs(s, run, t) && t.sends <= WORD64
    ensures Invariant(t)
    decreases |run|
  {
    hide Next, Invariant;
    if run != [] {
      var s' := Next(s, run[0]);
      RunSends(s', run[1..], t);
      StepKeepsInvariant(s, run[0]);
      RunKeepsInvariant(s', run[1..], t);
    }
  }

  /** Every reachable state, until the sequence counter has wrapped around. */
  lemma ReachableInvariant(t: State)
    requires Reachable(t) && t.sends <= WORD64
    ensures Invariant(t)
  {
    var run :| Runs(Init(), run, t);
    RunKeepsInvariant(Init(), run, t);
  }

  /** No registered call is ever lost: it is pending, somebody owes it a `done`, or it has completed. */
  lemma NoCallIsLost(t: State, c: CallId)
    requires Reachable(t) && t.sends <= WORD64 && c < |t.calls| && t.calls[c].number.Some?
    ensures IsPending(t, c) || Owed(t, c) > 0 || t.calls[c].completed > 0
    ensures t.calls[c].completed + Owed(t, c) + (if IsPending(t, c) then 1 else 0) == 1 + t.calls[c].extra
  {
    ReachableInvariant(t);
    hide Owed;
    assert Accounted(t, c);
  }

  /** A refused call is completed exactly once. */
  lemma RefusedCallsCompleteOnce(t: State, c: CallId)
    requires Reachable(t) && t.sends <= WORD64 && c < |t.calls|
    requires t.calls[c].number.None? && !t.calls[c].pc.Created?
    ensures t.calls[c].completed + Owed(t, c) == 1
  {
    ReachableInvariant(t);
    hide Owed;
    assert Accounted(t, c);
  }

  /** Once the client is closed or its connection is down, and no `done` is owed, every call has completed. */
  lemma QuietMeansComplete(t: State, c: CallId)
    requires Reachable(t) && t.sends <= WORD64 && (t.sh.shutdown || t.sh.closing)
    requires c < |t.calls| && !t.calls[c].pc.Created? && Owed(t, c) == 0
    ensures t.calls[c].completed > 0
  {
    ReachableInvariant(t);
    hide Owed;
    assert Accounted(t, c);
  }

  /** From then on no run registers a call or removes the flags. */
  lemma {:induction false} NothingRegistersAfterwards(s: State, run: seq<Action>, t: State)
    requires Runs(s, run, t) && (s.sh.shutdown || s.sh.closing)
    ensures t.sends == s.sends && (t.sh.shutdown || t.sh.closing)
    ensures |s.calls| <= |t.calls| && forall c :: 0 <= c < |s.calls| ==> t.calls[c].number == s.calls[c].number
    ensures forall k :: k in t.sh.pending ==> k in s.sh.pending
    decreases |run|
  {
    if run != [] {
      StepAfterwards(s, run[0]);
      hide Next;
      NothingRegistersAfterwards(Next(s, run[0]), run[1..], t);
    }
  }

  lemma StepAfterwards(s: State, a: Action)
    requires Enabled(s, a) && (s.sh.shutdown || s.sh.closing)
    ensures var s' := Next(s, a);
      && s'.sends == s.sends && (s'.sh.shutdown || s'.sh.closing) && |s.calls| <= |s'.calls|
      && (forall c :: 0 <= c < |s.calls| ==> s'.calls[c].number == s.calls[c].number)
      && (forall k :: k in s'.sh.pending ==> k in s.sh.pending)
  {
    hide DonePending;
  }

  /** A reply is only ever handed to the call that was sent under the reply's number. */
  lemma RepliesReachTheirCall(t: State, i: nat)
    requires Reachable(t) && t.sends <= WORD64 && i < |t.deliveries|
    ensures var (k, c) := t.deliveries[i];
      && c < |t.calls| && t.calls[c].number == Some(k)
      && (forall d :: 0 <= d < |t.calls| && t.calls[d].number == Some(k) ==> d == c)
  {
    ReachableInvariant(t);
    assert Delivered(t, t.deliveries[i].0, t.deliveries[i].1);
  }

  /** The next number is always free, so registering never drops a pending call. */
  lemma NextNumberIsFree(t: State)
    requires Reachable(t) && t.sends < WORD64
    ensures t.sh.nextSeq == t.sends && t.sh.nextSeq !in t.sh.pending
    ensures forall c :: 0 <= c < |t.calls| ==> t.calls[c].number != Some(t.sh.nextSeq)
  {
    ReachableInvariant(t);
    forall c | 0 <= c < |t.calls| ensures t.calls[c].number != Some(t.sh.nextSeq) {
      assert CallNumbered(t, c);
    }
  }

  /** Cancelling removes somebody else's call exactly when the caller was refused and number 0 is pending. */
  lemma CancelTouchesAnotherIff(t: State, c: CallId)
    requires Reachable(t) && t.sends <= WORD64 && c < |t.calls|
    ensures (exists d :: Taken(t.sh, t.calls[c].cell) == Some(d) && d != c)
       <==> t.calls[c].number.None? && 0 in t.sh.pending
  {
    ReachableInvariant(t);
    assert CallNumbered(t, c);
    var k := t.calls[c].cell;
    if k in t.sh.pending {
      assert IsPending(t, t.sh.pending[k]) && Number(t, t.sh.pending[k]) == k;
      assert Taken(t.sh, k) == Some(t.sh.pending[k]);
    }
  }

  // ----- When a call is pending

  predicate Has(s: State, c: CallId, k: nat) {
    c < |s.calls| && s.calls[c].number == Some(k)
  }

  /**
   * Steps after which call `c` is no longer in the map: a reply with its number, its own failed encoding
   * or write, its own one-way read that found the mark, a cancellation whose cell holds its number, and
   * `Close`.
   */
  predicate TakesOut(s: State, a: Action, c: CallId) {
    match a
    case Reply(k) => Has(s, c, k)
    case Encoded(d, ok) => d == c && !ok
    case Written(d, ok) => d == c && !ok
    case CheckOneway(d, oneway) => d == c && oneway
    case Cancel(d) => d < |s.calls| && Has(s, c, s.calls[d].cell)
    case Close => true
    case _ => false
  }

  predicate PutsIn(s: State, a: Action, c: CallId) {
    Registers(s, a) && a.c == c
  }

  /** Numbers are unique, so taking out under a call's number takes out that call. */
  lemma SameNumber(s: State, c: CallId, d: CallId)
    requires Numbered(s) && c < |s.calls| && s.calls[c].number.Some?
    ensures Has(s, d, s.calls[c].number.value) <==> d == c
  {
  }

  lemma TakePending(s: State, d: CallId, k: nat, cancelled: bool, c: CallId)
    requires d < |s.calls|
    ensures IsPending(TakeBy(s, d, k, cancelled), c) <==> IsPending(s, c) && !Has(s, c, k)
  {
  }

  lemma MovePending(s: State, d: CallId, pc: Pc, c: CallId)
    requires d < |s.calls|
    ensures IsPending(Move(s, d, pc), c) <==> IsPending(s, c)
  {
  }

  lemma SendPending(s: State, a: Action, c: CallId)
    requires Numbered(s) && Enabled(s, a) && a.Send? && Next(s, a).sends <= WORD64
    ensures IsPending(Next(s, a), c) <==> PutsIn(s, a, c) || IsPending(s, c)
  {
    assert CallNumbered(s, a.c);
    if c < |s.calls| {
      assert CallNumbered(s, c);
    }
  }

  lemma EncodedPending(s: State, a: Action, c: CallId)
    requires Numbered(s) && Enabled(s, a) && a.Encoded?
    ensures IsPending(Next(s, a), c) <==> IsPending(s, c) && (c == a.c ==> a.ok)
  {
    SameNumber(s, a.c, c);
  }

  lemma CallerPending(s: State, a: Action, c: CallId)
    requires Numbered(s) && Enabled(s, a) && ByCaller(a) && Next(s, a).sends <= WORD64
    ensures IsPending(Next(s, a), c) <==> PutsIn(s, a, c) || (IsPending(s, c) && !TakesOut(s, a, c))
  {
    hide Numbered, IsPending, TakeBy, Has;
    match a
    case Send(_, _) => SendPending(s, a, c);
    case Encoded(_, _) => EncodedPending(s, a, c);
    case Written(d, ok) =>
      MovePending(s, d, Sent, c);
      TakePending(s, d, s.calls[d].number.value, false, c);
      SameNumber(s, d, c);
    case CheckOneway(d, oneway) =>
      MovePending(s, d, Waiting, c);
      TakePending(s, d, s.calls[d].number.value, false, c);
      SameNumber(s, d, c);
    case Cancel(d) => TakePending(s, d, s.calls[d].cell, true, c);
    case Receive(d) => MovePending(s, d, Returned, c);
  }

  lemma OtherPending(s: State, a: Action, c: CallId)
    requires Numbered(s) && Enabled(s, a) && !ByCaller(a)
    ensures IsPending(Next(s, a), c) <==> IsPending(s, c) && !TakesOut(s, a, c)
  {
    hide DonePending;
    if IsPending(s, c) {
      assert s.sh.pending[s.calls[c].number.value] == c;
    }
  }

  /** After a step a call is in the map exactly if the step put it there, or it was there and the step did not take it out. */
  lemma StepPending(s: State, a: Action, c: CallId)
    requires Numbered(s) && Enabled(s, a) && Next(s, a).sends <= WORD64
    ensures IsPending(Next(s, a), c) <==> PutsIn(s, a, c) || (IsPending(s, c) && !TakesOut(s, a, c))
  {
    hide Next, Numbered, TakesOut;
    if ByCaller(a) {
      CallerPending(s, a, c);
    } else {
      OtherPending(s, a, c);
    }
  }

  /** The state after the first `n` actions of a run. */
  function After(s: State, run: seq<Action>, n: nat): State
    requires n <= |run|
  {
    if n == 0 then s
    else
      var t := After(s, run, n - 1);
      if Enabled(t, run[n - 1]) then Next(t, run[n - 1]) else t
  }

  lemma {:induction false} AfterShift(s: State, run: seq<Action>, n: nat)
    requires 1 <= n <= |run| && Enabled(s, run[0])
    ensures After(s, run, n) == After(Next(s, run[0]), run[1..], n - 1)
  {
    hide Next, Enabled;
    if n > 1 {
      AfterShift(s, run, n - 1);
    } else {
      assert After(s, run, 0) == s;
    }
  }

  /** A run's actions are enabled one after the other and lead to its end. */
  lemma {:induction false} RunIsAfter(s: State, run: seq<Action>, t: State)
    requires Runs(s, run, t)
    ensures After(s, run, |run|) == t
    ensures forall i :: 0 <= i < |run| ==> Enabled(After(s, run, i), run[i])
    decreases |run|
  {
    hide Next, Enabled;
    if run != [] {
      RunIsAfter(Next(s, run[0]), run[1..], t);
      AfterShift(s, run, |run|);
      forall i | 0 <= i < |run| ensures Enabled(After(s, run, i), run[i]) {
        if i > 0 {
          AfterShift(s, run, i);
          assert run[1..][i - 1] == run[i];
        }
      }
    }
  }

  lemma {:induction false} AfterInvariant(run: seq<Action>, n: nat)
    requires n <= |run| && After(Init(), run, n).sends <= WORD64
    ensures Invariant(After(Init(), run, n))
  {
    hide Next, Enabled, Invariant;
    if n > 0 {
      var s := After(Init(), run, n - 1);
      if Enabled(s, run[n - 1]) {
        StepSends(s, run[n - 1]);
        AfterInvariant(run, n - 1);
        StepKeepsInvariant(s, run[n - 1]);
      } else {
        AfterInvariant(run, n - 1);
      }
    } else {
      InitInvariant();
    }
  }

  lemma InitInvariant()
    ensures Invariant(Init())
  {
  }

  /** Call `c` was put into the map by one of the first `n` actions and by none after it taken out. */
  ghost predicate PutInAndLeft(run: seq<Action>, n: nat, c: CallId)
    requires n <= |run|
  {
    exists i :: 0 <= i < n && PutsIn(After(Init(), run, i), run[i], c) && LeftAlone(run, i + 1, n, c)
  }

  ghost predicate LeftAlone(run: seq<Action>, i: nat, n: nat, c: CallId)
    requires n <= |run|
  {
    forall j :: i <= j < n ==> !TakesOut(After(Init(), run, j), run[j], c)
  }

  lemma {:induction false} PendingAfter(run: seq<Action>, n: nat, c: CallId)
    requires n <= |run| && After(Init(), run, n).sends <= WORD64
    requires forall i :: 0 <= i < n ==> Enabled(After(Init(), run, i), run[i])
    ensures IsPending(After(Init(), run, n), c) <==> PutInAndLeft(run, n, c)
  {
    hide Next, Enabled, IsPending, PutsIn, TakesOut, Invariant;
    if n == 0 {
      NothingPending(c);
    } else {
      var s, a := After(Init(), run, n - 1), run[n - 1];
      assert Enabled(s, a) && After(Init(), run, n) == Next(s, a);
      StepSends(s, a);
      PendingAfter(run, n - 1, c);
      AfterInvariant(run, n - 1);
      InvariantNumbered(s);
      StepPending(s, a, c);
      if PutsIn(s, a, c) {
        assert LeftAlone(run, n, n, c);
      }
      if PutInAndLeft(run, n - 1, c) && !TakesOut(s, a, c) {
        var i :| 0 <= i < n - 1 && PutsIn(After(Init(), run, i), run[i], c) && LeftAlone(run, i + 1, n - 1, c);
        assert LeftAlone(run, i + 1, n, c);
      }
      if PutInAndLeft(run, n, c) && !PutsIn(s, a, c) {
        var i :| 0 <= i < n && PutsIn(After(Init(), run, i), run[i], c) && LeftAlone(run, i + 1, n, c);
        assert LeftAlone(run, i + 1, n - 1, c);
      }
    }
  }

  lemma NothingPending(c: CallId)
    ensures !IsPending(Init(), c)
  {
  }

  lemma InvariantNumbered(s: State)
    requires Invariant(s)
    ensures Numbered(s)
  {
  }

  /** Over every run: a call is pending exactly when it was registered and nothing since then has taken it out. */
  lemma PendingIff(run: seq<Action>, t: State, c: CallId)
    requires Runs(Init(), run, t) && t.sends <= WORD64
    ensures IsPending(t, c) <==> PutInAndLeft(run, |run|, c)
  {
    hide Next, Enabled, IsPending, PutInAndLeft, Runs;
    RunIsAfter(Init(), run, t);
    PendingAfter(run, |run|, c);
  }

  ghost predicate OwedByTaker(s: State, a: Action, c: CallId) {
    && (a.Reply? ==> s.reader == ReaderOwing(c))
    && (ByCaller(a) ==> a.c < |s.calls| && Owes(s.calls[a.c], c))
  }

  /**
   * A call that a step takes out is owed a `done` by the goroutine that took it, or has got it: `Close`
   * completes calls on the spot, the reader and the callers owe them.
   */
  lemma TakenOutIsOwed(s: State, a: Action, c: CallId)
    requires Invariant(s) && Enabled(s, a) && Next(s, a).sends <= WORD64
    requires IsPending(s, c) && TakesOut(s, a, c)
    ensures !IsPending(Next(s, a), c) && c < |Next(s, a).calls|
    ensures Next(s, a).calls[c].completed == s.calls[c].completed + One(a.Close?)
    ensures Owed(Next(s, a), c) == Owed(s, c) + One(!a.Close?)
    ensures OwedByTaker(Next(s, a), a, c)
  {
    hide Owed, Numbered, AllAccounted, Flagged;
    InvariantNumbered(s);
    StepPending(s, a, c);
    assert Registers(s, a) ==> a.Send?;
    StepKeepsInvariant(s, a);
    StepSize(s, a);
    AccountOf(s, c);
    AccountOf(Next(s, a), c);
    TakenOutBooks(s, a, c);
    StepExtra(s, a, c);
  }

  lemma AccountOf(s: State, c: CallId)
    requires Invariant(s) && c < |s.calls|
    ensures Accounted(s, c)
  {
    hide Accounted;
  }

  lemma TakenOutBooks(s: State, a: Action, c: CallId)
    requires Numbered(s) && Enabled(s, a) && IsPending(s, c) && TakesOut(s, a, c)
    ensures var s' := Next(s, a);
      && c < |s'.calls| == |s.calls| && s'.calls[c].number == s.calls[c].number
      && s'.calls[c].completed == s.calls[c].completed + One(a.Close?)
      && OwedByTaker(s', a, c)
  {
    hide DonePending;
    assert s.sh.pending[s.calls[c].number.value] == c;
  }

  // ----- The flags

  ghost predicate ReaderExited(run: seq<Action>, n: nat) {
    n <= |run| && exists i :: 0 <= i < n && run[i].ReaderExit?
  }

  /** Somebody closed the client before the reader had exited. */
  ghost predicate ClosedInTime(run: seq<Action>, n: nat) {
    n <= |run| && exists i :: 0 <= i < n && run[i].Close? && !ReaderExited(run, i)
  }

  lemma StepFlags(s: State, a: Action)
    requires Enabled(s, a)
    ensures var s' := Next(s, a);
      && (s'.sh.shutdown <==> s.sh.shutdown || a.ReaderExit?)
      && (s'.sh.closing <==> s.sh.closing || (a.Close? && !s.sh.shutdown))
  {
    hide DonePending;
  }

  /** What the flags say of a run: the reader has exited; a close came before that. */
  lemma {:induction false} FlagsIff(run: seq<Action>, n: nat)
    requires n <= |run| && forall i :: 0 <= i < n ==> Enabled(After(Init(), run, i), run[i])
    ensures var t := After(Init(), run, n);
      (t.sh.shutdown <==> ReaderExited(run, n)) && (t.sh.closing <==> ClosedInTime(run, n))
  {
    hide Next, Enabled;
    if n > 0 {
      var s, a := After(Init(), run, n - 1), run[n - 1];
      FlagsIff(run, n - 1);
      assert Enabled(s, a) && After(Init(), run, n) == Next(s, a);
      StepFlags(s, a);
    }
  }

  // ----- Where a goroutine goes

  /**
   * The steps of the goroutine of call `c`, in the order `send` and `call` take them: what it waits for
   * decides, and a cancelled call returns where another waits.
   */
  ghost predicate Follows(a: Action, c: CallId, pc: Pc, pc': Pc) {
    match pc
    case Created => a.Send? && a.c == c && (pc' == Encoding || pc' == Owing(c, false))
    case Encoding =>
      || (a == Encoded(c, true) && pc' == Writing)
      || (a == Encoded(c, false) && pc' == Owing(c, false))
    case Writing =>
      || (a == Written(c, true) && pc' == Sent)
      || (a == Written(c, false) && (pc' == Owing(c, false) || pc' == Waiting))
    case Sent =>
      || (a == CheckOneway(c, true) && (pc' == Owing(c, false) || pc' == Waiting))
      || (a == CheckOneway(c, false) && pc' == Waiting)
    case Owing(_, cancelled) => a == Complete(c) && pc' == if cancelled then Returned else Waiting
    case Waiting =>
      || (a == Receive(c) && pc' == Returned)
      || (a == Cancel(c) && (pc' == Returned || (pc'.Owing? && pc'.cancelled)))
    case Returned => false
  }

  /** A step of its own moves a goroutine along that way, and no other step moves it. */
  lemma StepFollows(s: State, a: Action, c: CallId)
    requires Numbered(s) && Enabled(s, a) && c < |s.calls|
    ensures c < |Next(s, a).calls|
    ensures if (ByCaller(a) || a.Complete?) && a.c == c
      then Follows(a, c, s.calls[c].pc, Next(s, a).calls[c].pc)
      else Next(s, a).calls[c].pc == s.calls[c].pc
  {
    hide DonePending, IsPending;
    StepSize(s, a);
    if s.calls[c].number.Some? {
      TakenIsOwn(s, c);
    }
    hide Numbered;
  }

  lemma TakenIsOwn(s: State, c: CallId)
    requires Numbered(s) && c < |s.calls| && s.calls[c].number.Some?
    ensures Taken(s.sh, s.calls[c].number.value).Some? ==> Taken(s.sh, s.calls[c].number.value) == Some(c)
  {
    var k := s.calls[c].number.value;
    if k in s.sh.pending {
      assert IsPending(s, s.sh.pending[k]);
      SameNumber(s, c, s.sh.pending[k]);
    }
  }

  // ----- The mutex

  predicate Ending(s: State) {
    s.sh.closing || s.sh.shutdown
  }

  predicate IsSecondClose(s: State, a: Action) {
    a.Close? && Ending(s)
  }

  /** How many steps of a run are a `Close` on a client that is closing or shut down. */
  function SecondCloses(s: State, run: seq<Action>): nat
    decreases |run|
  {
    if run == [] || !Enabled(s, run[0]) then 0
    else (if IsSecondClose(s, run[0]) then 1 else 0) + SecondCloses(Next(s, run[0]), run[1..])
  }

  lemma StepUnlocks(s: State, a: Action)
    requires Enabled(s, a)
    ensures var s' := Next(s, a);
      && s'.unlocksOwed + One(s'.crashed) == s.unlocksOwed + One(s.crashed) + One(IsSecondClose(s, a))
      && (Ending(s') <==> Ending(s) || a.Close? || a.ReaderExit?)
  {
    hide DonePending;
  }

  /** Every `Close` of a client that is closing or shut down unlocks once too often, and nothing else does. */
  lemma {:induction false} UnlockCount(s: State, run: seq<Action>, t: State)
    requires Runs(s, run, t)
    ensures t.unlocksOwed + One(t.crashed) == s.unlocksOwed + One(s.crashed) + SecondCloses(s, run)
    decreases |run|
  {
    hide Next, One, IsSecondClose;
    if run != [] {
      StepUnlocks(s, run[0]);
      OneIs(IsSecondClose(s, run[0]));
      UnlockCount(Next(s, run[0]), run[1..], t);
    }
  }

  lemma OneIs(b: bool)
    ensures One(b) == if b then 1 else 0
  {
  }

  /** No `Close` comes after another or after the reader's exit; `ended` tells whether one came before the run. */
  ghost predicate ClosedOnce(run: seq<Action>, ended: bool) {
    forall i :: 0 <= i < |run| && run[i].Close? ==>
      !ended && forall j :: 0 <= j < i ==> !run[j].Close? && !run[j].ReaderExit?
  }

  lemma {:induction false} ClosedOnceIff(s: State, run: seq<Action>, t: State)
    requires Runs(s, run, t)
    ensures SecondCloses(s, run) == 0 <==> ClosedOnce(run, Ending(s))
    decreases |run|
  {
    hide Next, Ending;
    if run != [] {
      StepUnlocks(s, run[0]);
      ClosedOnceIff(Next(s, run[0]), run[1..], t);
      ClosedOnceStep(run, Ending(s));
    }
  }

  lemma ClosedOnceStep(run: seq<Action>, ended: bool)
    requires run != []
    ensures ClosedOnce(run, ended)
       <==> (run[0].Close? ==> !ended) && ClosedOnce(run[1..], ended || run[0].Close? || run[0].ReaderExit?)
  {
    var rest, ended' := run[1..], ended || run[0].Close? || run[0].ReaderExit?;
    if (run[0].Close? ==> !ended) && ClosedOnce(rest, ended') {
      forall i | 0 <= i < |run| && run[i].Close?
        ensures !ended && forall j :: 0 <= j < i ==> !run[j].Close? && !run[j].ReaderExit?
      {
        if i > 0 {
          assert rest[i - 1].Close?;
          forall j | 0 <= j < i ensures !run[j].Close? && !run[j].ReaderExit? {
            if j > 0 {
              assert !rest[j - 1].Close? && !rest[j - 1].ReaderExit?;
            }
          }
        }
      }
    }
    if ClosedOnce(run, ended) {
      forall i | 0 <= i < |rest| && rest[i].Close?
        ensures !ended' && forall j :: 0 <= j < i ==> !rest[j].Close? && !rest[j].ReaderExit?
      {
        assert run[i + 1].Close?;
      }
    }
  }

  /** Locks and unlocks of the mutex balance, now and to come, exactly when the client is closed once at most. */
  lemma LocksBalanceIff(run: seq<Action>, t: State)
    requires Runs(Init(), run, t)
    ensures t.unlocksOwed == 0 && !t.crashed <==> ClosedOnce(run, false)
  {
    hide Runs, SecondCloses, ClosedOnce;
    UnlockCount(Init(), run, t);
    ClosedOnceIff(Init(), run, t);
  }

  /**
   * Once an unlock is owed, two goroutines may be in their sections at once. It makes no difference:
   * there is nothing to take, nothing is registered or completed by a sweep, and no section writes a
   * field except that the reader's exit says so.
   */
  lemma SectionsAreInert(t: State, a: Action)
    requires Reachable(t) && t.sends <= WORD64 && t.unlocksOwed > 0 && Enabled(t, a)
    ensures Next(t, a).sh == t.sh.(shutdown := t.sh.shutdown || a.ReaderExit?)
    ensures forall k :: Taken(t.sh, k) == None
    ensures a.Close? || a.ReaderExit? ==> Next(t, a).calls == t.calls
  {
    ReachableInvariant(t);
    hide DonePending, Numbered, AllAccounted;
    if a.Close? || a.ReaderExit? {
      assert forall c :: 0 <= c < |t.calls| ==> Next(t, a).calls[c] == t.calls[c];
    }
    assert forall k :: t.sh.pending - {k} == t.sh.pending;
  }

  // ----- How often a call completes

  /** Steps that make one more `done` due than removals do. */
  predicate IsSurplus(s: State, a: Action, c: CallId) {
    (a.ReaderExit? && IsPending(s, c)) || (a == Encoded(c, false) && !IsPending(s, c))
  }

  function Surplus(s: State, run: seq<Action>, c: CallId): nat
    decreases |run|
  {
    if run == [] || !Enabled(s, run[0]) then 0
    else (if IsSurplus(s, run[0], c) then 1 else 0) + Surplus(Next(s, run[0]), run[1..], c)
  }

  function Extra(s: State, c: CallId): nat {
    if c < |s.calls| then s.calls[c].extra else 0
  }

  lemma StepExtra(s: State, a: Action, c: CallId)
    requires Enabled(s, a)
    ensures Extra(Next(s, a), c) == Extra(s, c) + if IsSurplus(s, a, c) then 1 else 0
  {
    hide DonePending;
  }

  lemma {:induction false} RunExtra(s: State, run: seq<Action>, t: State, c: CallId)
    requires Runs(s, run, t)
    ensures Extra(t, c) == Extra(s, c) + Surplus(s, run, c)
    decreases |run|
  {
    hide Next, Extra, IsSurplus;
    if run != [] {
      StepExtra(s, run[0], c);
      RunExtra(Next(s, run[0]), run[1..], t, c);
    }
  }

  /** The exact number of `done`s, made and owed, that a whole run brings a registered call. */
  lemma CompletionCount(run: seq<Action>, t: State, c: CallId)
    requires Runs(Init(), run, t) && t.sends <= WORD64 && c < |t.calls| && t.calls[c].number.Some?
    ensures t.calls[c].completed + Owed(t, c)
         == 1 + Surplus(Init(), run, c) - if IsPending(t, c) then 1 else 0
  {
    hide Runs, Owed, Surplus;
    assert Reachable(t);
    NoCallIsLost(t, c);
    RunExtra(Init(), run, t, c);
  }

  /** A run in which the reader does not exit and no encoding fails. */
  ghost predicate Undisturbed(run: seq<Action>) {
    forall i :: 0 <= i < |run| ==> !run[i].ReaderExit? && (run[i].Encoded? ==> run[i].ok)
  }

  lemma {:induction false} UndisturbedHasNoSurplus(s: State, run: seq<Action>, c: CallId)
    requires Undisturbed(run)
    ensures Surplus(s, run, c) == 0
    decreases |run|
  {
    hide Next;
    if run != [] && Enabled(s, run[0]) {
      UndisturbedHasNoSurplus(Next(s, run[0]), run[1..], c);
    }
  }

  /** In such a run every call completes at most once. */
  lemma AtMostOnce(run: seq<Action>, t: State, c: CallId)
    requires Runs(Init(), run, t) && Undisturbed(run) && t.sends <= WORD64 && c < |t.calls|
    ensures t.calls[c].completed + Owed(t, c) <= 1
  {
    hide Runs, Owed, Surplus;
    assert Reachable(t);
    ReachableInvariant(t);
    assert Accounted(t, c);
    if t.calls[c].number.Some? {
      UndisturbedHasNoSurplus(Init(), run, c);
      CompletionCount(run, t, c);
    }
  }

  lemma {:induction false} RunsAppend(s: State, run: seq<Action>, t: State, a: Action)
    requires Runs(s, run, t) && Enabled(t, a)
    ensures Runs(s, run + [a], Next(t, a))
    decreases |run|
  {
    hide Next, Enabled;
    if run == [] {
      assert (run + [a])[1..] == [];
    } else {
      assert (run + [a])[1..] == run[1..] + [a];
      RunsAppend(Next(s, run[0]), run[1..], t, a);
    }
  }

  lemma ReachableStep(s: State, a: Action) returns (t: State)
    requires Reachable(s) && Enabled(s, a)
    ensures t == Next(s, a) && Reachable(t)
  {
    var run :| Runs(Init(), run, s);
    RunsAppend(Init(), run, s, a);
    t := Next(s, a);
  }

  lemma InitReachable()
    ensures Reachable(Init())
  {
    assert Runs(Init(), [], Init());
  }

  /** Otherwise a call can complete twice: the reader's exit completes it and leaves it for `Close`. */
  lemma CompletedTwice() returns (t: State)
    ensures Reachable(t) && |t.calls| == 1 && t.calls[0].completed == 2
  {
    InitReachable();
    t := ReachableStep(Init(), Start(true));
    t := ReachableStep(t, Send(0, true));
    t := ReachableStep(t, ReaderExit);
    t := ReachableStep(t, Close);
  }

  /** So it can when its encoding fails after `Close` has removed it. */
  lemma CompletedTwiceByEncoding() returns (t: State)
    ensures Reachable(t) && |t.calls| == 1 && t.calls[0].completed == 2 && t.reader == Reading
  {
    InitReachable();
    t := ReachableStep(Init(), Start(true));
    t := ReachableStep(t, Send(0, true));
    t := ReachableStep(t, Close);
    t := ReachableStep(t, Encoded(0, false));
    t := ReachableStep(t, Complete(0));
  }

  /** Closing a client twice can end in the unlock of an unlocked mutex. */
  lemma ClosedTwice() returns (t: State)
    ensures Reachable(t) && t.crashed
  {
    InitReachable();
    t := ReachableStep(Init(), Close);
    t := ReachableStep(t, Close);
    t := ReachableStep(t, SecondUnlock(false));
  }

  /** And a refused call's cancellation can complete the heartbeat that was sent under number 0. */
  lemma CancelledForAnother() returns (t: State)
    ensures Reachable(t) && |t.calls| == 2 && t.calls[0].number == Some(0) && t.calls[1].number == None
    ensures t.calls[1].pc == Owing(0, true)
  {
    InitReachable();
    t := ReachableStep(Init(), Start(true));
    t := ReachableStep(t, Start(true));
    t := ReachableStep(t, Send(0, true));
    t := ReachableStep(t, Send(1, false));
    t := ReachableStep(t, Complete(1));
    t := ReachableStep(t, Cancel(1));
  }
}
