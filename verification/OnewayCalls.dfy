/**
 * The pending-call protocol with the pooled messages that requests are built in. `send` marks the
 * message of a one-way call, frees it after the write, and only then reads the mark again. This module
 * adds the messages to the states of `PendingCalls` and so says what that late read can find.
 */
module OnewayCalls {
  import opened Common
  import opened P = PendingCalls

  /** Who may write to a message: nobody while it lies in the pool, a call's `send`, or other users of the pool. */
  datatype User = Nobody | Caller(c: CallId) | Elsewhere

  /** A message object, which the pool hands out again and again. */
  datatype Pooled = Pooled(user: User, oneway: bool)

  /**
   * For each call whether it is one-way (it has no reply), the message its request was built in, and
   * whether `send`, after a failed write, has yet to free that message.
   */
  datatype Client = Client(
    base: State, oneway: seq<bool>, message: seq<Option<nat>>, unfreed: seq<bool>, pool: seq<Pooled>)

  datatype Event =
    | StartCall(cancellable: bool, oneway: bool)
    | Prepare(c: CallId, pick: Option<nat>)       // take a message from the pool or a new one, and mark it
    | ReadBit(c: CallId)                          // after the message was freed
    | FreeUnsent(c: CallId)                       // the last step of a `send` whose write failed
    | Base(a: Action)                             // any other step of the protocol
    | Borrow(pick: Option<nat>, oneway: bool)     // another user takes a message and marks it or not
    | GiveBack(m: nat)

  function PoolInit(): Client {
    Client(Init(), [], [], [], [])
  }

  predicate HasMessage(s: Client, c: CallId) {
    c < |s.message| && s.message[c].Some? && s.message[c].value < |s.pool|
  }

  /** What `send` reads after it has freed its message. */
  predicate Bit(s: Client, c: CallId)
    requires HasMessage(s, c)
  {
    s.pool[s.message[c].value].oneway
  }

  /** `send` has not returned yet: its write failed and it will free its message after the `done`. */
  predicate MustFree(s: Client, c: CallId) {
    c < |s.unfreed| && s.unfreed[c]
  }

  /** The pool hands out a message that nobody uses, or makes a new one. */
  predicate Pickable(s: Client, pick: Option<nat>) {
    pick.Some? ==> pick.value < |s.pool| && s.pool[pick.value].user.Nobody?
  }

  predicate Can(s: Client, e: Event) {
    match e
    case StartCall(cancellable, _) => Enabled(s.base, Start(cancellable))
    case Prepare(c, pick) =>
      !s.base.crashed && P.At(s.base, c, Encoding) && c < |s.message| == |s.oneway| && s.message[c].None? && Pickable(s, pick)
    case ReadBit(c) => Enabled(s.base, CheckOneway(c, false)) && HasMessage(s, c)
    case FreeUnsent(c) =>
      !s.base.crashed && MustFree(s, c) && HasMessage(s, c) && c < |s.base.calls| && !s.base.calls[c].pc.Owing?
    case Base(a) =>
      && Enabled(s.base, a) && !a.Start? && !a.CheckOneway?
      && (a.Encoded? || a.Written? ==> HasMessage(s, a.c) && a.c < |s.unfreed|)
      && (a.Cancel? || a.Receive? ==> !MustFree(s, a.c))
    case Borrow(pick, _) => !s.base.crashed && Pickable(s, pick)
    case GiveBack(m) => !s.base.crashed && m < |s.pool| && s.pool[m].user.Elsewhere?
  }

  function PickedIndex(s: Client, pick: Option<nat>): nat {
    if pick.Some? then pick.value else |s.pool|
  }

  /** The pool after `user` took a message; `mark` is set on it, and a mark it carries stays. */
  function Picked(s: Client, pick: Option<nat>, user: User, mark: bool): seq<Pooled>
    requires Pickable(s, pick)
  {
    if pick.Some? then s.pool[pick.value := Pooled(user, s.pool[pick.value].oneway || mark)]
    else s.pool + [Pooled(user, mark)]
  }

  /** The action of the protocol that an event is, if any. */
  function ActionOf(s: Client, e: Event): Option<Action>
    requires Can(s, e)
  {
    match e
    case StartCall(cancellable, _) => Some(Start(cancellable))
    case ReadBit(c) => Some(CheckOneway(c, Bit(s, c)))
    case Base(a) => Some(a)
    case _ => None
  }

  function BaseAfter(s: Client, e: Event): State
    requires Can(s, e)
  {
    match ActionOf(s, e)
    case Some(a) => Next(s.base, a)
    case None => s.base
  }

  /** Freeing a message clears its mark; one whose arguments failed to encode is never freed. */
  function PoolAfter(s: Client, e: Event): seq<Pooled>
    requires Can(s, e)
  {
    match e
    case Prepare(c, pick) => Picked(s, pick, Caller(c), s.oneway[c])
    case Borrow(pick, oneway) => Picked(s, pick, Elsewhere, oneway)
    case GiveBack(m) => s.pool[m := Pooled(Nobody, false)]
    case FreeUnsent(c) => s.pool[s.message[c].value := Pooled(Nobody, false)]
    case Base(a) => if a.Written? && a.ok then s.pool[s.message[a.c].value := Pooled(Nobody, false)] else s.pool
    case _ => s.pool
  }

  function UnfreedAfter(s: Client, e: Event): seq<bool>
    requires Can(s, e)
  {
    match e
    case StartCall(_, _) => s.unfreed + [false]
    case FreeUnsent(c) => s.unfreed[c := false]
    case Base(a) => if a.Written? && !a.ok then s.unfreed[a.c := true] else s.unfreed
    case _ => s.unfreed
  }

  function Step(s: Client, e: Event): Client
    requires Can(s, e)
  {
    Client(BaseAfter(s, e),
           if e.StartCall? then s.oneway + [e.oneway] else s.oneway,
           if e.StartCall? then s.message + [None]
           else if e.Prepare? then s.message[e.c := Some(PickedIndex(s, e.pick))] else s.message,
           UnfreedAfter(s, e), PoolAfter(s, e))
  }

  ghost predicate PoolRuns(s: Client, run: seq<Event>, t: Client)
    decreases |run|
  {
    if run == [] then s == t
    else
      var n := |run| - 1;
      exists m :: PoolRuns(s, run[..n], m) && Can(m, run[n]) && t == Step(m, run[n])
  }

  ghost predicate PoolReachable(t: Client) {
    exists run :: PoolRuns(PoolInit(), run, t)
  }

  lemma PoolStep(s: Client, e: Event) returns (t: Client)
    requires PoolReachable(s) && Can(s, e)
    ensures t == Step(s, e) && PoolReachable(t)
  {
    hide Step, Can;
    var run :| PoolRuns(PoolInit(), run, s);
    t := Step(s, e);
    assert (run + [e])[..|run|] == run;
    assert PoolRuns(PoolInit(), run + [e], t);
  }

  // ----- Its runs are runs of the protocol

  lemma {:induction false} RunProjects(run: seq<Event>, t: Client)
    requires PoolRuns(PoolInit(), run, t)
    ensures Reachable(t.base)
    decreases |run|
  {
    hide Next, Enabled, PoolAfter, UnfreedAfter, Reachable;
    if run == [] {
      InitReachable();
    } else {
      var n := |run| - 1;
      var m :| PoolRuns(PoolInit(), run[..n], m) && Can(m, run[n]) && t == Step(m, run[n]);
      RunProjects(run[..n], m);
      ActionEnabled(m, run[n]);
      if ActionOf(m, run[n]).Some? {
        var b := ReachableStep(m.base, ActionOf(m, run[n]).value);
      }
    }
  }

  lemma ActionEnabled(s: Client, e: Event)
    requires Can(s, e)
    ensures ActionOf(s, e).Some? ==> Enabled(s.base, ActionOf(s, e).value)
  {
  }

  /** So everything proved of the protocol's reachable states holds here too. */
  lemma RefinesPendingCalls(t: Client)
    requires PoolReachable(t)
    ensures Reachable(t.base)
  {
    hide PoolRuns, Reachable;
    var run :| PoolRuns(PoolInit(), run, t);
    RunProjects(run, t);
  }

  // ----- What a message's mark says

  /** From preparing to writing, and until a failed write is cleaned up, a call has its message to itself. */
  ghost predicate CallerOk(s: Client, c: CallId)
    requires c < |s.base.calls| == |s.message| == |s.unfreed|
  {
    var pc := s.base.calls[c].pc;
    && (s.message[c].Some? ==> s.message[c].value < |s.pool|)
    && (pc.Created? ==> s.message[c].None?)
    && (pc.Sent? ==> s.message[c].Some?)
    && (s.unfreed[c] ==> !pc.Created? && !pc.Encoding? && !pc.Writing? && !pc.Sent?)
    && (pc.Writing? || (pc.Encoding? && s.message[c].Some?) || s.unfreed[c] ==>
          HasMessage(s, c) && s.pool[s.message[c].value].user == Caller(c))
  }

  /** A message in the pool is unmarked; one that a call uses is marked exactly when the call is one-way. */
  ghost predicate MessageOk(s: Client, m: nat)
    requires m < |s.pool| && |s.base.calls| == |s.message| == |s.oneway|
  {
    match s.pool[m].user
    case Nobody => !s.pool[m].oneway
    case Caller(d) =>
      && d < |s.base.calls| && s.message[d] == Some(m) && s.pool[m].oneway == s.oneway[d]
      && !s.base.calls[d].pc.Created? && !s.base.calls[d].pc.Sent?
    case Elsewhere => true
  }

  ghost predicate PoolInvariant(s: Client) {
    && |s.base.calls| == |s.message| == |s.oneway| == |s.unfreed|
    && (forall c :: 0 <= c < |s.base.calls| ==> CallerOk(s, c))
    && (forall m :: 0 <= m < |s.pool| ==> MessageOk(s, m))
  }

  /** How an action of the protocol moves the goroutine of call `c`. */
  lemma PcChange(s: State, a: Action, c: CallId)
    requires Enabled(s, a) && c < |s.calls|
    ensures |Next(s, a).calls| == |s.calls| + if a.Start? then 1 else 0
    ensures var pc, pc' := s.calls[c].pc, Next(s, a).calls[c].pc;
      && (pc'.Created? ==> pc.Created?)
      && (pc'.Encoding? ==> pc.Encoding? || pc.Created?)
      && (pc'.Writing? ==> pc.Writing? || pc.Encoding?)
      && (pc'.Sent? ==> pc.Sent? || a == Written(c, true))
      && (pc'.Created? || pc'.Encoding? || pc'.Writing? || pc'.Sent? ==>
            pc.Created? || pc.Encoding? || pc.Writing? || pc.Sent?)
      && (a == Encoded(c, true) ==> pc.Encoding?)
      && (pc.Encoding? && pc'.Writing? ==> a == Encoded(c, true))
      && (a.Written? && a.c == c ==> pc.Writing? && !pc'.Writing? && !pc'.Encoding? && !pc'.Created?)
      && (a.Written? && a.c == c ==> (pc'.Sent? <==> a.ok))
  {
    hide DonePending;
  }

  lemma StartPcs(s: State, cancellable: bool)
    requires Enabled(s, Start(cancellable))
    ensures Next(s, Start(cancellable)).calls == s.calls + [CallState(Created, cancellable, None, 0, 0, 0)]
  {
  }

  lemma StepSizes(s: Client, e: Event)
    requires PoolInvariant(s) && Can(s, e)
    ensures var t := Step(s, e); |t.base.calls| == |t.message| == |t.oneway| == |t.unfreed|
    ensures |s.base.calls| <= |Step(s, e).base.calls|
    ensures |s.pool| <= |Step(s, e).pool|
  {
    hide Next;
    if ActionOf(s, e).Some? {
      ActionEnabled(s, e);
      StepSize(s.base, ActionOf(s, e).value);
    }
  }

  lemma BaseCallerOk(s: Client, e: Event, c: CallId)
    requires PoolInvariant(s) && Can(s, e) && (e.Base? || e.ReadBit?) && c < |s.base.calls|
    ensures var t := Step(s, e); |t.base.calls| == |t.message| == |t.unfreed| && c < |t.base.calls| && CallerOk(t, c)
  {
    hide Next, Enabled;
    StepSizes(s, e);
    ActionEnabled(s, e);
    assert CallerOk(s, c);
    PcChange(s.base, ActionOf(s, e).value, c);
    if e.Base? && e.a.Written? && e.a.c < |s.base.calls| {
      assert CallerOk(s, e.a.c);
      PcChange(s.base, e.a, e.a.c);
    }
  }

  lemma BaseMessageOk(s: Client, e: Event, m: nat)
    requires PoolInvariant(s) && Can(s, e) && (e.Base? || e.ReadBit?) && m < |s.pool|
    ensures var t := Step(s, e); m < |t.pool| && |t.base.calls| == |t.message| == |t.oneway| && MessageOk(t, m)
  {
    hide Next, Enabled;
    StepSizes(s, e);
    ActionEnabled(s, e);
    assert MessageOk(s, m);
    if s.pool[m].user.Caller? {
      PcChange(s.base, ActionOf(s, e).value, s.pool[m].user.c);
    }
  }

  lemma StartOk(s: Client, e: Event)
    requires PoolInvariant(s) && Can(s, e) && e.StartCall?
    ensures PoolInvariant(Step(s, e))
  {
    hide Next, Enabled;
    StartPcs(s.base, e.cancellable);
    var t := Step(s, e);
    forall c | 0 <= c < |t.base.calls| ensures CallerOk(t, c) {
      if c < |s.base.calls| {
        assert CallerOk(s, c);
      }
    }
    forall m | 0 <= m < |t.pool| ensures MessageOk(t, m) {
      assert MessageOk(s, m);
    }
  }

  lemma PoolOnlyOk(s: Client, e: Event)
    requires PoolInvariant(s) && Can(s, e) && (e.Prepare? || e.FreeUnsent? || e.Borrow? || e.GiveBack?)
    ensures PoolInvariant(Step(s, e))
  {
    if e.FreeUnsent? {
      assert CallerOk(s, e.c);
    }
    var t := Step(s, e);
    forall c | 0 <= c < |t.base.calls| ensures CallerOk(t, c) {
      assert CallerOk(s, c);
    }
    forall m | 0 <= m < |t.pool| ensures MessageOk(t, m) {
      if m < |s.pool| {
        assert MessageOk(s, m);
      }
    }
  }

  lemma StepKeepsPool(s: Client, e: Event)
    requires PoolInvariant(s) && Can(s, e)
    ensures PoolInvariant(Step(s, e))
  {
    if e.StartCall? {
      StartOk(s, e);
    } else if e.Base? || e.ReadBit? {
      hide Next, Enabled, CallerOk, MessageOk;
      StepSizes(s, e);
      var t := Step(s, e);
      BaseSameSize(s, e);
      forall c | 0 <= c < |t.base.calls| ensures CallerOk(t, c) {
        BaseCallerOk(s, e, c);
      }
      forall m | 0 <= m < |t.pool| ensures MessageOk(t, m) {
        BaseMessageOk(s, e, m);
      }
    } else {
      PoolOnlyOk(s, e);
    }
  }

  lemma BaseSameSize(s: Client, e: Event)
    requires Can(s, e) && (e.Base? || e.ReadBit?)
    ensures |Step(s, e).base.calls| == |s.base.calls| && |Step(s, e).pool| == |s.pool|
  {
    hide Next;
    ActionEnabled(s, e);
    StepSize(s.base, ActionOf(s, e).value);
  }

  lemma {:induction false} RunKeepsPool(run: seq<Event>, t: Client)
    requires PoolRuns(PoolInit(), run, t)
    ensures PoolInvariant(t)
    decreases |run|
  {
    if run != [] {
      hide Step, Can, PoolInvariant;
      var n := |run| - 1;
      var m :| PoolRuns(PoolInit(), run[..n], m) && Can(m, run[n]) && t == Step(m, run[n]);
      RunKeepsPool(run[..n], m);
      StepKeepsPool(m, run[n]);
    }
  }

  // ----- What the late read finds

  /** Somebody else has taken the message since it was freed, and marked it. */
  ghost predicate MarkedByAnother(s: Client, c: CallId) {
    && HasMessage(s, c)
    && var p := s.pool[s.message[c].value];
    || (p.user.Elsewhere? && p.oneway)
    || (p.user.Caller? && p.user.c != c && p.user.c < |s.oneway| && s.oneway[p.user.c])
  }

  /** The mark that `send` finds is never its own: it is there exactly when somebody else has set it meanwhile. */
  lemma LateReadIff(t: Client, c: CallId)
    requires PoolReachable(t) && P.At(t.base, c, Sent)
    ensures HasMessage(t, c) && (Bit(t, c) <==> MarkedByAnother(t, c))
  {
    hide PoolRuns;
    var run :| PoolRuns(PoolInit(), run, t);
    RunKeepsPool(run, t);
    assert CallerOk(t, c);
    assert MessageOk(t, t.message[c].value);
  }

  /**
   * So `send` takes its call out of the map exactly then, and whether the call is one-way has nothing to
   * do with it.
   */
  lemma RemovedAfterSendIff(t: Client, c: CallId)
    requires PoolReachable(t) && P.At(t.base, c, Sent) && !t.base.crashed && IsPending(t.base, c)
    ensures Can(t, ReadBit(c))
    ensures !IsPending(Step(t, ReadBit(c)).base, c) <==> MarkedByAnother(t, c)
  {
    hide PoolReachable;
    LateReadIff(t, c);
  }

  // ----- Three runs

  /** A client on which nothing has happened but calls being sent. */
  function Sending(calls: seq<CallState>, nextSeq: nat, pending: map<nat, CallId>): State {
    State(Shared(nextSeq, pending, false, false, false), calls, Reading, nextSeq, [], 0, 0, false)
  }

  /** A registered call that is not cancellable and has not completed. */
  function Registered(pc: Pc, number: nat): CallState {
    CallState(pc, false, Some(number), number, 0, 0)
  }

  lemma PoolInitReachable()
    ensures PoolReachable(PoolInit())
  {
    assert PoolRuns(PoolInit(), [], PoolInit());
  }

  /** Call 0 is registered. */
  lemma RegisteredCall(oneway: bool) returns (t: Client)
    ensures PoolReachable(t)
    ensures t == Client(Sending([Registered(Encoding, 0)], 1, map[0 := 0]), [oneway], [None], [false], [])
  {
    hide PoolReachable, PoolRuns;
    PoolInitReachable();
    t := PoolStep(PoolInit(), StartCall(false, oneway));
    t := PoolStep(t, Base(Send(0, true)));
  }

  /** Call 0 has gone through `send` up to the late read. */
  lemma SentCall(oneway: bool) returns (t: Client)
    ensures PoolReachable(t)
    ensures t == Client(Sending([Registered(Sent, 0)], 1, map[0 := 0]), [oneway], [Some(0)], [false], [Pooled(Nobody, false)])
  {
    hide PoolReachable, PoolRuns;
    t := RegisteredCall(oneway);
    t := PoolStep(t, Prepare(0, None));
    t := PoolStep(t, Base(Encoded(0, true)));
    t := PoolStep(t, Base(Written(0, true)));
  }

  /** A one-way call on its own: its `send` has returned and it is still pending, not completed. */
  lemma OnewayStaysPending() returns (t: Client)
    ensures PoolReachable(t) && t.oneway == [true] && P.At(t.base, 0, Waiting)
    ensures IsPending(t.base, 0) && t.base.calls[0].completed == 0
  {
    hide PoolReachable, PoolRuns;
    t := SentCall(true);
    t := PoolStep(t, ReadBit(0));
  }

  /** A call that waits for a reply is about to read its freed message, which a one-way call has taken over. */
  lemma TakenOver() returns (t: Client)
    ensures PoolReachable(t)
    ensures t == Client(Sending([Registered(Sent, 0), Registered(Encoding, 1)], 2, map[0 := 0, 1 := 1]),
                        [false, true], [Some(0), Some(0)], [false, false], [Pooled(Caller(1), true)])
  {
    hide PoolReachable, PoolRuns;
    t := SentCall(false);
    t := PoolStep(t, StartCall(false, true));
    t := PoolStep(t, Base(Send(1, true)));
    t := PoolStep(t, Prepare(1, Some(0)));
  }

  /** It completes without a reply. */
  lemma CompletedWithoutReply() returns (t: Client)
    ensures PoolReachable(t) && t.oneway == [false, true] && |t.base.calls| == 2 && t.base.calls[0].completed == 1
    ensures t.base.deliveries == [] && !t.base.sh.closing && !t.base.sh.shutdown
  {
    hide PoolReachable, PoolRuns;
    t := TakenOver();
    t := PoolStep(t, ReadBit(0));
    t := PoolStep(t, Base(Complete(0)));
  }
}
