/**
 * The clients that a multi-server client keeps, by the key of their server, and what removing them does
 * to their mutexes. Removing a client closes it, and closing a client that is closing already unlocks its
 * mutex once too often (`PendingCalls.UnlockCount`).
 */
module ClientCache {
  import opened Common
  import P = PendingCalls
  import R = Retry
  import opened ClientSections

  type Key = R.Key

  type ClientId = nat

  /** The cached clients, and every client made so far in its state of the pending-call protocol. */
  datatype Cache = Cache(cached: map<Key, ClientId>, clients: seq<P.State>)

  /** No client's mutex has failed: the process is still there. */
  ghost predicate Alive(x: Cache) {
    && (forall k :: k in x.cached ==> x.cached[k] < |x.clients|)
    && (forall c :: 0 <= c < |x.clients| ==> !x.clients[c].crashed && P.Reachable(x.clients[c]))
  }

  // ----- The operations

  function Find(x: Cache, k: Key): Option<ClientId> {
    if k in x.cached then Some(x.cached[k]) else None
  }

  function CloseClient(x: Cache, c: ClientId): Cache
    requires c < |x.clients| && !x.clients[c].crashed
  {
    x.(clients := x.clients[c := P.Next(x.clients[c], P.Close)])
  }

  ghost predicate IsClient(x: Cache, client: Option<ClientId>) {
    client.Some? ==> client.value < |x.clients| && !x.clients[client.value].crashed
  }

  function Delete(x: Cache, k: Key, client: Option<ClientId>): Cache
    requires IsClient(x, client)
  {
    var x' := x.(cached := x.cached - {k});
    if client.Some? then CloseClient(x', client.value) else x'
  }

  /** `removeClient`: deletes and closes the client if it is still the cached one, and closes it in any case. */
  function Remove(x: Cache, k: Key, client: Option<ClientId>): Cache
    requires IsClient(x, client)
  {
    var x' := if Find(x, k) == client then Delete(x, k, client) else x;
    if client.Some? then CloseClient(x', client.value) else x'
  }

  /** What a look-up meets: a reason not to look, or the outcome of connecting, should that be needed. */
  datatype Dial = Refuses | Fails | Connects

  datatype Found = Found(x: Cache, client: Option<ClientId>)

  /** `getCachedClient`: a cached client that has ended is deleted, and so closed, before a new one is made. */
  function Get(x: Cache, k: Key, dial: Dial): Found
    requires IsClient(x, Find(x, k))
  {
    if dial.Refuses? then Found(x, None)
    else if k in x.cached && !P.Ending(x.clients[x.cached[k]]) then Found(x, Find(x, k))
    else
      var x' := Delete(x, k, Find(x, k));
      if dial.Fails? then Found(x', None)
      else Found(Cache(x'.cached[k := |x'.clients|], x'.clients + [P.Init()]), Some(|x'.clients|))
  }

  // ----- What they owe

  /** `Close` owes an unlock exactly when the client has ended, and ends it. */
  lemma CloseOwes(s: P.State)
    requires !s.crashed
    ensures var s' := P.Next(s, P.Close);
      !s'.crashed && P.Ending(s') && s'.unlocksOwed == s.unlocksOwed + P.One(P.Ending(s))
  {
    hide P.DonePending;
  }

  lemma CloseAlive(x: Cache, c: ClientId)
    requires Alive(x) && c < |x.clients|
    ensures Alive(CloseClient(x, c))
  {
    hide P.Next, P.Reachable;
    CloseOwes(x.clients[c]);
    CloseReachable(x.clients[c]);
  }

  lemma CloseReachable(s: P.State)
    requires P.Reachable(s) && !s.crashed
    ensures P.Reachable(P.Next(s, P.Close))
  {
    var t := P.ReachableStep(s, P.Close);
  }

  /** Two closes in a row owe one unlock at least, from every state. */
  lemma ClosingTwiceOwes(s: P.State)
    requires !s.crashed
    ensures var s' := P.Next(s, P.Close);
      !s'.crashed && P.Next(s', P.Close).unlocksOwed == s.unlocksOwed + 1 + P.One(P.Ending(s))
  {
    hide P.Next;
    CloseOwes(s);
    CloseOwes(P.Next(s, P.Close));
  }

  /**
   * Removing a client owes its mutex one unlock if the client is still cached, and one more if it has
   * ended; the other clients are left alone.
   */
  lemma RemoveOwes(x: Cache, k: Key, c: ClientId)
    requires Alive(x) && c < |x.clients|
    ensures var x' := Remove(x, k, Some(c));
      && Alive(x') && |x'.clients| == |x.clients| && P.Ending(x'.clients[c])
      && x'.clients[c].unlocksOwed
         == x.clients[c].unlocksOwed + P.One(Find(x, k) == Some(c)) + P.One(P.Ending(x.clients[c]))
      && x'.cached == (if Find(x, k) == Some(c) then x.cached - {k} else x.cached)
      && (forall d :: 0 <= d < |x.clients| && d != c ==> x'.clients[d] == x.clients[d])
  {
    hide P.Next, P.Ending, P.Reachable;
    var y := x.(cached := x.cached - {k});
    CloseOwes(x.clients[c]);
    CloseAlive(x, c);
    CloseAlive(y, c);
    CloseOwes(CloseClient(y, c).clients[c]);
    CloseAlive(CloseClient(y, c), c);
  }

  /** So a removal keeps locks and unlocks balanced exactly when the client was replaced before and has not ended. */
  lemma RemoveBalancedIff(x: Cache, k: Key, c: ClientId)
    requires Alive(x) && c < |x.clients|
    ensures Remove(x, k, Some(c)).clients[c].unlocksOwed == x.clients[c].unlocksOwed
       <==> Find(x, k) != Some(c) && !P.Ending(x.clients[c])
  {
    hide P.Next, P.Ending, Remove, Alive;
    RemoveOwes(x, k, c);
  }

  lemma RemoveNothing(x: Cache, k: Key)
    ensures Remove(x, k, None) == x
  {
    if k !in x.cached {
      assert x.cached - {k} == x.cached;
    }
  }

  /** Looking a key up owes an unlock exactly when the cached client has ended; what it yields is cached and new or live. */
  lemma GetOwes(x: Cache, k: Key, dial: Dial)
    requires Alive(x)
    ensures var f := Get(x, k, dial);
      && Alive(f.x) && |x.clients| <= |f.x.clients|
      && (f.client.Some? ==>
            Find(f.x, k) == f.client && f.client.value < |f.x.clients| && !P.Ending(f.x.clients[f.client.value]))
      && (forall d :: 0 <= d < |x.clients| ==>
            f.x.clients[d].unlocksOwed
            == x.clients[d].unlocksOwed + P.One(!dial.Refuses? && Find(x, k) == Some(d) && P.Ending(x.clients[d])))
  {
    hide P.Next, P.Reachable;
    if k in x.cached {
      CloseOwes(x.clients[x.cached[k]]);
      CloseAlive(x.(cached := x.cached - {k}), x.cached[k]);
    }
    P.InitReachable();
  }

  // ----- What a retrying call owes

  /** Everybody else's doing: clients run on, new ones appear, the cache changes, and nothing crashes. */
  ghost predicate Evolves(x: Cache, x': Cache) {
    && Alive(x') && |x.clients| <= |x'.clients|
    && (forall c :: 0 <= c < |x.clients| ==> Leads(x.clients[c], x'.clients[c]))
  }

  ghost predicate Leads(s: P.State, t: P.State) {
    exists run :: P.Runs(s, run, t)
  }

  lemma LeadsOwes(s: P.State, t: P.State)
    requires Leads(s, t) && !t.crashed
    ensures s.unlocksOwed <= t.unlocksOwed
  {
    var run :| P.Runs(s, run, t);
    P.UnlockCount(s, run, t);
  }

  /** One round of a retrying call: its key and client, the cache after the look-up, and when the attempt is over. */
  datatype Round = Round(key: Key, client: Option<ClientId>, found: Cache, tried: Cache)

  /** The error at the end of round `n`: of its attempt, or of the last one made. */
  ghost function ErrorOf(w: R.World, mode: R.FailMode, n: nat): R.Error {
    R.LastError(w, R.Live(w, mode, n + 1))
  }

  /** The rounds of a call work with the keys it selects, and each but the last is followed up. */
  ghost predicate IsRetry(w: R.World, mode: R.FailMode, rounds: seq<Round>) {
    && (forall n :: 0 <= n < |rounds| ==> IsRound(w, mode, rounds[n], n))
    && (forall n :: 0 <= n < |rounds| - 1 ==> FollowedUp(w, mode, rounds[n], rounds[n + 1], n))
  }

  ghost predicate IsRound(w: R.World, mode: R.FailMode, r: Round, n: nat) {
    var sel := R.Selected(w, mode, n);
    && r.key == sel.key && (r.client.Some? <==> sel.err.Nil?)
    && Alive(r.found) && Evolves(r.found, r.tried)
    && (r.client.Some? ==> Find(r.found, r.key) == r.client && r.client.value < |r.found.clients|)
  }

  /** An attempt that allows another is followed by a removal, if its error asks for it, and the next look-up. */
  ghost predicate FollowedUp(w: R.World, mode: R.FailMode, r: Round, r': Round, n: nat) {
    && IsClient(r.tried, r.client)
    && (r.client.Some? ==> !R.Ended(ErrorOf(w, mode, n)))
    && var left := if R.UncoverError(ErrorOf(w, mode, n)) then Remove(r.tried, r.key, r.client) else r.tried;
    && IsClient(left, Find(left, r'.key))
    && exists dial :: Found(r'.found, r'.client) == Get(left, r'.key, dial)
  }

  /** All unlocks owed by the first `n` clients. */
  function OwedTo(clients: seq<P.State>, n: nat): nat
    requires n <= |clients|
  {
    if n == 0 then 0 else OwedTo(clients, n - 1) + clients[n - 1].unlocksOwed
  }

  function OwedIn(x: Cache): nat {
    OwedTo(x.clients, |x.clients|)
  }

  lemma {:induction false} OwedGrows(a: seq<P.State>, b: seq<P.State>, m: nat, n: nat)
    requires m <= |a| && m <= n <= |b|
    requires forall i :: 0 <= i < m ==> a[i].unlocksOwed <= b[i].unlocksOwed
    ensures OwedTo(a, m) <= OwedTo(b, n)
    decreases n
  {
    if m < n {
      OwedGrows(a, b, m, n - 1);
    } else if n > 0 {
      OwedGrows(a, b, m - 1, n - 1);
    }
  }

  lemma {:induction false} OwedGrowsBy(a: seq<P.State>, b: seq<P.State>, c: nat, n: nat)
    requires c < n <= |a| && n <= |b|
    requires forall i :: 0 <= i < n ==> a[i].unlocksOwed <= b[i].unlocksOwed
    requires a[c].unlocksOwed < b[c].unlocksOwed
    ensures OwedTo(a, n) < OwedTo(b, n)
  {
    if c == n - 1 {
      OwedGrows(a, b, n - 1, n - 1);
    } else {
      OwedGrowsBy(a, b, c, n - 1);
    }
  }

  lemma EvolvesOwes(x: Cache, x': Cache)
    requires Evolves(x, x')
    ensures OwedIn(x) <= OwedIn(x')
  {
    forall c | 0 <= c < |x.clients| ensures x.clients[c].unlocksOwed <= x'.clients[c].unlocksOwed {
      LeadsOwes(x.clients[c], x'.clients[c]);
    }
    OwedGrows(x.clients, x'.clients, |x.clients|, |x'.clients|);
  }

  lemma GetGrows(x: Cache, k: Key, dial: Dial)
    requires Alive(x)
    ensures OwedIn(x) <= OwedIn(Get(x, k, dial).x)
  {
    hide P.Next, P.Ending, Get;
    GetOwes(x, k, dial);
    OwedGrows(x.clients, Get(x, k, dial).x.clients, |x.clients|, |Get(x, k, dial).x.clients|);
  }

  /** The attempt's client is still the cached one when it is removed. */
  predicate StillCached(r: Round) {
    r.client.Some? && Find(r.tried, r.key) == r.client
  }

  lemma RemoveGrows(r: Round)
    requires Alive(r.tried) && IsClient(r.tried, r.client)
    ensures var left := Remove(r.tried, r.key, r.client);
      Alive(left) && OwedIn(r.tried) + P.One(StillCached(r)) <= OwedIn(left)
  {
    hide P.Next, P.Ending, Remove;
    if r.client.None? {
      RemoveNothing(r.tried, r.key);
    } else {
      var left := Remove(r.tried, r.key, r.client);
      RemoveOwes(r.tried, r.key, r.client.value);
      OwedGrows(r.tried.clients, left.clients, |left.clients|, |left.clients|);
      if StillCached(r) {
        OwedGrowsBy(r.tried.clients, left.clients, r.client.value, |left.clients|);
      }
    }
  }

  /** Errors that allow another attempt are errors that have the client removed. */
  lemma GoingOnRemoves(e: R.Error)
    requires !R.Ended(e)
    ensures R.UncoverError(e)
  {
  }

  lemma RoundOwes(w: R.World, mode: R.FailMode, r: Round, r': Round, n: nat)
    requires IsRound(w, mode, r, n) && FollowedUp(w, mode, r, r', n)
    ensures OwedIn(r.found) + P.One(StillCached(r)) <= OwedIn(r'.found)
  {
    hide P.Next, P.Ending, Remove, Get, OwedIn, ErrorOf, R.Selected, R.UncoverError, R.Ended;
    EvolvesOwes(r.found, r.tried);
    var left := if R.UncoverError(ErrorOf(w, mode, n)) then Remove(r.tried, r.key, r.client) else r.tried;
    if R.UncoverError(ErrorOf(w, mode, n)) {
      RemoveGrows(r);
    } else if r.client.Some? {
      GoingOnRemoves(ErrorOf(w, mode, n));
    }
    var dial :| Found(r'.found, r'.client) == Get(left, r'.key, dial);
    GetGrows(left, r'.key, dial);
  }

  /** How many of the first `n` rounds end with their client still cached. */
  function CachedRounds(rounds: seq<Round>, n: nat): nat
    requires n <= |rounds|
  {
    if n == 0 then 0 else CachedRounds(rounds, n - 1) + if StillCached(rounds[n - 1]) then 1 else 0
  }

  /**
   * A retrying call that has come to round `n` without the process crashing has added an unlock too many
   * for every attempt it followed up whose client was still cached.
   */
  lemma {:induction false} RetriesOwe(w: R.World, mode: R.FailMode, rounds: seq<Round>, n: nat)
    requires n < |rounds| && IsRetry(w, mode, rounds)
    ensures OwedIn(rounds[0].found) + CachedRounds(rounds, n) <= OwedIn(rounds[n].found)
  {
    hide OwedIn, IsRound, FollowedUp, StillCached;
    if n > 0 {
      RetriesOwe(w, mode, rounds, n - 1);
      assert IsRound(w, mode, rounds[n - 1], n - 1);
      assert FollowedUp(w, mode, rounds[n - 1], rounds[n], n - 1);
      RoundOwes(w, mode, rounds[n - 1], rounds[n], n - 1);
    }
  }

  /** Nobody else touches the cache while the call makes its attempts. */
  ghost predicate Undisturbed(rounds: seq<Round>) {
    forall n :: 0 <= n < |rounds| ==> rounds[n].tried.cached == rounds[n].found.cached
  }

  lemma {:induction false} UndisturbedCached(w: R.World, mode: R.FailMode, rounds: seq<Round>, n: nat)
    requires n <= |rounds| && IsRetry(w, mode, rounds) && Undisturbed(rounds)
    ensures CachedRounds(rounds, n) == |R.Live(w, mode, n)|
  {
    hide Evolves, Alive, R.Selected;
    if n > 0 {
      UndisturbedCached(w, mode, rounds, n - 1);
      assert IsRound(w, mode, rounds[n - 1], n - 1);
    }
  }

  /** So a call that has the cache to itself owes at least one unlock for every attempt it followed up. */
  lemma EveryRetryOwes(w: R.World, mode: R.FailMode, rounds: seq<Round>, n: nat)
    requires n < |rounds| && IsRetry(w, mode, rounds) && Undisturbed(rounds)
    ensures OwedIn(rounds[0].found) + |R.Live(w, mode, n)| <= OwedIn(rounds[n].found)
  {
    hide IsRetry, Undisturbed, OwedIn;
    RetriesOwe(w, mode, rounds, n);
    UndisturbedCached(w, mode, rounds, n);
  }

  /** One server whose first attempt fails, on a cache of its own: the second round begins with an unlock owed. */
  lemma OneRetryOwes() returns (w: R.World, rounds: seq<Round>)
    ensures IsRetry(w, R.Failtry, rounds) && Undisturbed(rounds) && |rounds| == 2
    ensures OwedIn(rounds[0].found) == 0 && OwedIn(rounds[1].found) > 0
  {
    hide P.Next, P.Reachable, P.Ending, Remove, Get, Evolves, Alive, R.Selected, R.Live, ErrorOf, OwedIn;
    w := R.World(n => "a", (n, k) => R.Nil, (n, k) => R.Other(1));
    KeyIsA(w);
    var first := FirstLookUp();
    var left := Remove(first.x, "a", Some(0));
    RemoveOwes(first.x, "a", 0);
    var second := LookUpAfter(left);
    StaysAsItIs(first.x);
    StaysAsItIs(second.x);
    rounds := [Round("a", Some(0), first.x, first.x), Round("a", second.client, second.x, second.x)];
    assert IsRound(w, R.Failtry, rounds[0], 0) && IsRound(w, R.Failtry, rounds[1], 1);
    assert Found(rounds[1].found, rounds[1].client) == Get(left, "a", Connects);
    assert FollowedUp(w, R.Failtry, rounds[0], rounds[1], 0);
    EveryRetryOwes(w, R.Failtry, rounds, 1);
  }

  lemma FirstLookUp() returns (f: Found)
    ensures f == Get(Cache(map[], []), "a", Connects)
    ensures Alive(f.x) && |f.x.clients| == 1 && Find(f.x, "a") == f.client == Some(0) && OwedIn(f.x) == 0
    ensures IsClient(f.x, f.client)
  {
    hide P.Next, P.Reachable;
    var none := Cache(map[], []);
    f := Get(none, "a", Connects);
    GetOwes(none, "a", Connects);
    assert f.x.clients == [P.Init()];
    assert OwedTo(f.x.clients, 0) == 0;
  }

  lemma LookUpAfter(x: Cache) returns (f: Found)
    requires Alive(x)
    ensures IsClient(x, Find(x, "a")) && f == Get(x, "a", Connects) && Alive(f.x)
    ensures f.client.Some? && f.client.value < |f.x.clients| && Find(f.x, "a") == f.client
  {
    hide P.Next, P.Reachable;
    f := Get(x, "a", Connects);
    GetOwes(x, "a", Connects);
  }

  lemma StaysAsItIs(x: Cache)
    requires Alive(x)
    ensures Evolves(x, x)
  {
    forall c | 0 <= c < |x.clients| ensures Leads(x.clients[c], x.clients[c]) {
      assert P.Runs(x.clients[c], [], x.clients[c]);
    }
  }

  lemma KeyIsA(w: R.World)
    requires w == R.World(n => "a", (n, k) => R.Nil, (n, k) => R.Other(1))
    ensures R.Selected(w, R.Failtry, 0) == R.Selected(w, R.Failtry, 1) == R.Selection("a", R.Nil)
    ensures R.Live(w, R.Failtry, 1) == ["a"] && ErrorOf(w, R.Failtry, 0) == R.Other(1)
  {
  }

  // ----- The code

  predicate Ended(client: Client)
    reads client
  {
    client.closing || client.shutdown
  }

  class XClient {
    var cached: map<Key, Client>

    constructor ()
      ensures cached == map[]
    {
      cached := map[];
    }

    function Cached(k: Key): Client?
      reads this
    {
      if k in cached then cached[k] else null
    }

    method DeleteCachedClient(client: Client?, k: Key, order: seq<nat>)
      requires client != null ==> IsIterationOrder(order, client.pending)
      modifies this, client
      ensures cached == old(cached) - {k}
      ensures client != null ==>
        && client.pending == map[] && Ended(client)
        && client.Surplus() == old(client.Surplus()) + P.One(old(Ended(client)))
    {
      cached := cached - {k};
      if client != null {
        var _, _ := client.Close(order);
      }
    }

    /** A client that is still cached is closed twice. */
    method RemoveClient(k: Key, client: Client?, order: seq<nat>)
      requires client != null ==> IsIterationOrder(order, client.pending)
      modifies this, client
      ensures cached == if old(Cached(k)) == client then old(cached) - {k} else old(cached)
      ensures client != null ==>
        && client.pending == map[] && Ended(client)
        && client.Surplus() == old(client.Surplus())
             + P.One(old(Cached(k)) == client) + P.One(old(Ended(client)))
    {
      var rest := order;
      if Cached(k) == client {
        DeleteCachedClient(client, k, order);
        rest := [];
      }
      if client != null {
        var _, _ := client.Close(rest);
      }
    }

    /** The client to use for a key: the cached one if it has not ended, else a new one if it connects. */
    method GetCachedClient(k: Key, dial: Dial, order: seq<nat>) returns (client: Client?)
      requires Cached(k) != null ==> IsIterationOrder(order, Cached(k).pending)
      modifies this, Cached(k)
      ensures var was := old(Cached(k));
        was != null ==>
          was.Surplus() == old(Cached(k).Surplus()) + P.One(!dial.Refuses? && old(Ended(Cached(k))))
      ensures client != null ==> Cached(k) == client && !Ended(client)
      ensures client != null && client != old(Cached(k)) ==> fresh(client) && client.Surplus() == 0
      ensures client == null <==>
        dial.Refuses? || (dial.Fails? && (old(Cached(k)) == null || old(Ended(Cached(k)))))
    {
      if dial == Refuses {
        return null;
      }
      client := Cached(k);
      if client != null {
        var closing := client.IsClosing();
        if !closing {
          var shutdown := client.IsShutdown();
          if !shutdown {
            return;
          }
        }
        DeleteCachedClient(client, k, order);
      }
      client := null;
      if dial == Connects {
        client := new Client();
        cached := cached[k := client];
      }
    }
  }
}
