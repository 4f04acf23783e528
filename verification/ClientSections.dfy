/** The client object: the mutex sections of `send`, `call`, `input` and `Close` as code. */
module ClientSections {
  import opened Common
  import opened PendingCalls

  /** The calls a `range` over the pending map visits, in order. */
  function Visited(pending: map<nat, CallId>, order: seq<nat>, n: nat): (cs: seq<CallId>)
    requires n <= |order| && forall i :: 0 <= i < n ==> order[i] in pending
    ensures |cs| == n && forall i :: 0 <= i < n ==> cs[i] == pending[order[i]]
  {
    if n == 0 then [] else Visited(pending, order, n - 1) + [pending[order[n - 1]]]
  }

  /** A sweep visits every pending call once and no other, which is what `DonePending` records. */
  lemma SweepVisitsPending(s: State, order: seq<nat>)
    requires Numbered(s) && IsIterationOrder(order, s.sh.pending)
    ensures var cs := Visited(s.sh.pending, order, |order|);
      && (forall i, j :: 0 <= i < j < |cs| ==> cs[i] != cs[j])
      && (forall c: CallId :: c in cs <==> IsPending(s, c))
  {
    var cs := Visited(s.sh.pending, order, |order|);
    forall i | 0 <= i < |order| ensures IsPending(s, cs[i]) && Number(s, cs[i]) == order[i] {
      assert IsPending(s, s.sh.pending[order[i]]);
    }
    forall c: CallId | IsPending(s, c) ensures c in cs {
      var k := s.calls[c].number.value;
      var i :| 0 <= i < |order| && order[i] == k;
      assert cs[i] == c;
    }
  }

  class Client {
    var nextSeq: nat
    var pending: map<nat, CallId>
    var closing: bool
    var shutdown: bool
    var pluginClosed: bool
    var locks: nat      // how often the mutex was locked
    var unlocks: nat    // and unlocked

    constructor ()
      ensures Value() == Init().sh && locks == unlocks == 0
    {
      nextSeq, pending, closing, shutdown, pluginClosed := 0, map[], false, false, false;
      locks, unlocks := 0, 0;
    }

    method Lock()
      modifies `locks
      ensures locks == old(locks) + 1
    {
      locks := locks + 1;
    }

    method Unlock()
      modifies `unlocks
      ensures unlocks == old(unlocks) + 1
    {
      unlocks := unlocks + 1;
    }

    ghost function Value(): Shared
      reads this
    {
      Shared(nextSeq, pending, closing, shutdown, pluginClosed)
    }

    /** `send`: refused with no effect, or registered under the next number. */
    method SendSection(c: CallId, supported: bool) returns (number: Option<nat>)
      modifies this
      ensures number.None? <==> old(shutdown) || old(closing) || !supported
      ensures number.None? ==> Value() == old(Value())
      ensures number.Some? ==> number.value == old(nextSeq) && Value() == Register(old(Value()), c)
      ensures locks == old(locks) + 1 && unlocks == old(unlocks) + 1
    {
      Lock();
      if shutdown || closing {
        Unlock();
        return None;
      }
      if !supported {
        Unlock();
        return None;
      }
      number := Some(nextSeq);
      pending := pending[nextSeq := c];
      nextSeq := (nextSeq + 1) % WORD64;
      Unlock();
    }

    /** Every goroutine that takes a call out of the map. */
    method TakeSection(k: nat) returns (call: Option<CallId>)
      modifies `pending, `locks, `unlocks
      ensures call == Taken(old(Value()), k) && Value() == Take(old(Value()), k)
      ensures locks == old(locks) + 1 && unlocks == old(unlocks) + 1
    {
      Lock();
      call := if k in pending then Some(pending[k]) else None;
      pending := pending - {k};
      Unlock();
    }

    /**
     * `Close`: completes and deletes every entry as it goes. Its unlock is deferred; the branch for a
     * client that is closing or shut down unlocks as well, so that it has unlocked twice on return.
     */
    method Close(order: seq<nat>) returns (completed: seq<CallId>, errShutdown: bool)
      requires IsIterationOrder(order, pending)
      modifies this
      ensures Value() == CloseShared(old(Value()))
      ensures completed == Visited(old(pending), order, |order|)
      ensures locks == old(locks) + 1 && old(unlocks) < unlocks <= old(unlocks) + 2
      ensures unlocks - old(unlocks) == locks - old(locks) <==> !old(closing) && !old(shutdown)
      ensures errShutdown <==> unlocks - old(unlocks) == 2
    {
      Lock();
      completed := CompleteAndDelete(order);
      pluginClosed := true;
      errShutdown := closing || shutdown;
      if errShutdown {
        Unlock();
      } else {
        closing := true;
      }
      Unlock();
    }

    method CompleteAndDelete(order: seq<nat>) returns (completed: seq<CallId>)
      requires IsIterationOrder(order, pending)
      modifies `pending
      ensures pending == map[] && completed == Visited(old(pending), order, |order|)
    {
      completed := [];
      for i := 0 to |order|
        invariant completed == Visited(old(pending), order, i)
        invariant forall j :: i <= j < |order| ==> order[j] in pending && pending[order[j]] == old(pending)[order[j]]
        invariant forall k :: k in pending ==> k in order[i..]
      {
        var call := pending[order[i]];
        pending := pending - {order[i]};
        completed := completed + [call];
      }
      assert pending == map[];
    }

    method IsClosing() returns (b: bool)
      modifies `locks, `unlocks
      ensures b == closing && locks == old(locks) + 1 && unlocks == old(unlocks) + 1
    {
      Lock();
      b := closing;
      Unlock();
    }

    method IsShutdown() returns (b: bool)
      modifies `locks, `unlocks
      ensures b == shutdown && locks == old(locks) + 1 && unlocks == old(unlocks) + 1
    {
      Lock();
      b := shutdown;
      Unlock();
    }

    /** How many more unlocks than locks there have been. */
    ghost function Surplus(): int
      reads this
    {
      unlocks - locks
    }

    /** The reader's last section: completes every entry and deletes none. */
    method ExitSection(order: seq<nat>) returns (completed: seq<CallId>)
      requires IsIterationOrder(order, pending)
      modifies this
      ensures Value() == ExitShared(old(Value()))
      ensures completed == Visited(pending, order, |order|)
      ensures locks == old(locks) + 1 && unlocks == old(unlocks) + 1
    {
      Lock();
      pluginClosed := true;
      shutdown := true;
      completed := [];
      for i := 0 to |order|
        invariant completed == Visited(pending, order, i)
      {
        completed := completed + [pending[order[i]]];
      }
      Unlock();
    }
  }
}
