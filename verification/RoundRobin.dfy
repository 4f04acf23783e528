/** The round robin selector. */
module RoundRobin {
  import opened Common

  /** The index a call selects among `n` servers when the cursor is `i`. */
  function Slot(i: nat, n: nat): (r: nat)
    requires n > 0
    ensures r < n
  {
    i % n
  }

  /** The index is the cursor, but for whole rounds. */
  lemma SlotIsCongruent(i: nat, n: nat)
    requires n > 0
    ensures i == n * (i / n) + Slot(i, n)
  {
  }

  /** The cursor after `k` calls. */
  function Cursor(i: nat, n: nat, k: nat): nat
    requires n > 0
  {
    if k == 0 then i else Slot(Cursor(i, n, k - 1), n) + 1
  }

  /** How often server `x` is selected by the first `k` calls. */
  function Count(i: nat, n: nat, x: nat, k: nat): nat
    requires n > 0
  {
    if k == 0 then 0
    else Count(i, n, x, k - 1) + if Slot(Cursor(i, n, k - 1), n) == x then 1 else 0
  }

  /** Calls to come before server `x` has its turn, when server `c` is next. */
  function Wait(c: nat, x: nat, n: nat): (w: nat)
    requires c < n && x < n
    ensures w < n
  {
    if x >= c then x - c else x + n - c
  }

  lemma SlotStep(i: nat, n: nat)
    requires n > 0
    ensures Slot(Slot(i, n) + 1, n) == if Slot(i, n) + 1 == n then 0 else Slot(i, n) + 1
  {
  }

  /** `c` times `n` calls. */
  function Laps(n: nat, c: nat): nat {
    if c == 0 then 0 else Laps(n, c - 1) + n
  }

  /** The turns of every server come exactly `n` calls apart. */
  lemma {:induction false} TurnLaw(i: nat, n: nat, x: nat, k: nat)
    requires x < n
    ensures k + Wait(Slot(Cursor(i, n, k), n), x, n) == Wait(Slot(i, n), x, n) + Laps(n, Count(i, n, x, k))
    decreases k
  {
    hide Slot;
    if k > 0 {
      TurnLaw(i, n, x, k - 1);
      SlotStep(Cursor(i, n, k - 1), n);
    }
  }

  lemma {:induction false} LapsGap(n: nat, c: nat, d: nat)
    requires c + 2 <= d
    ensures Laps(n, c) + n + n <= Laps(n, d)
    decreases d
  {
    if c + 2 == d {
      assert Laps(n, c + 1) == Laps(n, c) + n;
    } else {
      LapsGap(n, c, d - 1);
    }
  }

  /** From any cursor that an earlier, possibly longer, list left, `n` calls select every server once. */
  lemma EveryServerOnce(i: nat, n: nat, x: nat)
    requires x < n
    ensures Count(i, n, x, n) == 1
  {
    hide Slot, Count, Cursor;
    TurnLaw(i, n, x, n);
    if Count(i, n, x, n) >= 2 {
      LapsGap(n, 0, Count(i, n, x, n));
    }
  }

  /** After any number of calls no server is ahead of another by more than one. */
  lemma CountsDifferByAtMostOne(i: nat, n: nat, x: nat, y: nat, k: nat)
    requires x < n && y < n
    ensures Count(i, n, x, k) <= Count(i, n, y, k) + 1
  {
    hide Slot, Count, Cursor, Laps;
    TurnLaw(i, n, x, k);
    TurnLaw(i, n, y, k);
    if Count(i, n, y, k) + 2 <= Count(i, n, x, k) {
      LapsGap(n, Count(i, n, y, k), Count(i, n, x, k));
    }
  }

  class Selector {
    var servers: seq<string>
    var i: nat

    constructor (servers: map<string, string>, order: seq<string>)
      requires IsIterationOrder(order, servers)
      ensures this.servers == order && i == 0
    {
      this.servers, i := order, 0;
    }

    method Select() returns (server: string)
      modifies `i
      ensures servers == [] ==> server == "" && i == old(i)
      ensures servers != [] ==>
        server == servers[Slot(old(i), |servers|)] && i == Cursor(old(i), |servers|, 1)
      ensures servers != [] ==>
        && 1 <= i <= |servers| && server == servers[i - 1]
        && old(i) == |servers| * (old(i) / |servers|) + (i - 1)
    {
      if |servers| == 0 {
        return "";
      }
      var j := i % |servers|;
      SlotIsCongruent(i, |servers|);
      i := j + 1;
      assert Cursor(old(i), |servers|, 0) == old(i);
      return servers[j];
    }

    /** A new list replaces the old one; the cursor stays where it is. */
    method UpdateServer(newServers: map<string, string>, order: seq<string>)
      requires IsIterationOrder(order, newServers)
      modifies `servers
      ensures servers == order
    {
      var ss := [];
      for k := 0 to |order|
        invariant ss == order[..k]
      {
        ss := ss + [order[k]];
      }
      servers := ss;
    }
  }
}
