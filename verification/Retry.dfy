/** The retry loops of a client over several servers. */
module Retry {

  datatype Error = Nil | ServiceError(text: string) | DeadlineExceeded | Canceled | Other(code: nat)

  datatype FailMode = Failover | Failfast | Failtry

  predicate ContextCanceled(e: Error) {
    e.DeadlineExceeded? || e.Canceled?
  }

  /** Errors after which the client itself is suspect. */
  predicate UncoverError(e: Error) {
    !e.ServiceError? && !e.DeadlineExceeded? && !e.Canceled?
  }

  /** Errors after which there is no point in trying again. */
  predicate Final(e: Error) {
    ContextCanceled(e) || e.ServiceError?
  }

  predicate Ended(e: Error) {
    e.Nil? || Final(e)
  }

  /** A server's address; the selector answers the empty one when it knows no server. */
  type Key = string

  const ERR_X_CLIENT_NO_SERVER := Other(0)

  /**
   * The outside world: the selector's answer to its `n`-th question, the error of the `n`-th look-up of
   * a client for a key, and the error of the `n`-th attempt with the client of a key.
   */
  datatype World = World(choice: nat -> Key, lookup: (nat, Key) -> Error, attempt: (nat, Key) -> Error)

  /** The key for a round, and the error of finding its client; there is a client exactly when that is nil. */
  datatype Selection = Selection(key: Key, err: Error)

  function SelectClient(w: World, n: nat): Selection {
    if w.choice(n) == "" then Selection("", ERR_X_CLIENT_NO_SERVER)
    else Selection(w.choice(n), w.lookup(n, w.choice(n)))
  }

  /** What a round works with: `Failtry` looks the first key up again, `Failover` asks the selector again. */
  function Selected(w: World, mode: FailMode, n: nat): Selection {
    if n == 0 || !mode.Failtry? then SelectClient(w, n)
    else var k := SelectClient(w, 0).key; Selection(k, w.lookup(n, k))
  }

  /** What a call returns, the keys it made its attempts with, and those whose clients it asked to remove. */
  datatype Report = Report(err: Error, attempts: seq<Key>, removals: seq<Key>)

  /** The loop of both retrying modes, with `left` retries, in the round of `now`; `e` is the last selection's error. */
  function Loop(w: World, mode: FailMode, left: int, now: Selection, round: nat, err: Error, e: Error,
                attempts: seq<Key>, removals: seq<Key>): Report
    decreases if left < 0 then 0 else left + 1
  {
    if left < 0 then Report(if err.Nil? then e else err, attempts, removals)
    else
      var tried := if now.err.Nil? then w.attempt(|attempts|, now.key) else err;
      var attempts' := if now.err.Nil? then attempts + [now.key] else attempts;
      if now.err.Nil? && Ended(tried) then Report(tried, attempts', removals)
      else
        var removals' := if UncoverError(tried) then removals + [now.key] else removals;
        var next := Selected(w, mode, round + 1);
        Loop(w, mode, left - 1, next, round + 1, tried, next.err, attempts', removals')
  }

  function Call(w: World, mode: FailMode, retries: int): Report {
    var first := SelectClient(w, 0);
    if !first.err.Nil? && (mode.Failfast? || ContextCanceled(first.err)) then Report(first.err, [], [])
    else if mode.Failfast? then
      var err := w.attempt(0, first.key);
      Report(err, [first.key], if !err.Nil? && UncoverError(err) then [first.key] else [])
    else Loop(w, mode, retries, first, 0, first.err, Nil, [], [])
  }

  // ----- What a call reports

  /** The keys of the first `n` rounds that had a client: the attempts of a call whose attempts all allow another. */
  function Live(w: World, mode: FailMode, n: nat): seq<Key> {
    if n == 0 then []
    else
      var sel := Selected(w, mode, n - 1);
      Live(w, mode, n - 1) + if sel.err.Nil? then [sel.key] else []
  }

  /** The first `n` attempts, with these keys, failed in a way that allows another. */
  ghost predicate Retryable(w: World, keys: seq<Key>, n: int) {
    forall j :: 0 <= j < n && j < |keys| ==> !w.attempt(j, keys[j]).Nil? && !Final(w.attempt(j, keys[j]))
  }

  /** The error of the last attempt, or of the first selection when there was none. */
  function LastError(w: World, keys: seq<Key>): Error {
    if keys == [] then SelectClient(w, 0).err else w.attempt(|keys| - 1, keys[|keys| - 1])
  }

  /** The state of the loop at the top of a round. */
  ghost predicate InRound(w: World, mode: FailMode, round: nat, err: Error, attempts: seq<Key>, removals: seq<Key>) {
    && attempts == Live(w, mode, round) && Retryable(w, attempts, |attempts|) && err == LastError(w, attempts)
    && |attempts| <= |removals| <= round && forall k :: k in attempts ==> k in removals
  }

  ghost predicate Reported(w: World, mode: FailMode, rounds: nat, r: Report) {
    && |r.attempts| <= rounds && r.attempts <= Live(w, mode, rounds)
    && Retryable(w, r.attempts, |r.attempts| - 1)
    && r.err == LastError(w, r.attempts) && (r.err.Nil? ==> r.attempts != [])
    && (r.attempts == Live(w, mode, rounds) || Ended(r.err))
    && (forall j :: 0 <= j < |r.attempts| - 1 ==> r.attempts[j] in r.removals)
    && |r.removals| <= rounds
  }

  lemma {:induction false} LiveGrows(w: World, mode: FailMode, m: nat, n: nat)
    requires m <= n
    ensures Live(w, mode, m) <= Live(w, mode, n) && |Live(w, mode, n)| <= n
    decreases n
  {
    if m < n {
      LiveGrows(w, mode, m, n - 1);
    } else if n > 0 {
      LiveGrows(w, mode, n - 1, n - 1);
    }
  }

  /** One round that goes on keeps the state; without a client the error is still the last attempt's. */
  lemma RoundGoesOn(w: World, mode: FailMode, round: nat, err: Error, attempts: seq<Key>, removals: seq<Key>)
    requires InRound(w, mode, round, err, attempts, removals)
    requires var now := Selected(w, mode, round); now.err.Nil? ==> !Ended(w.attempt(|attempts|, now.key))
    requires attempts == [] && !Selected(w, mode, round).err.Nil? ==> !err.Nil?
    ensures var now := Selected(w, mode, round);
      var tried := if now.err.Nil? then w.attempt(|attempts|, now.key) else err;
      InRound(w, mode, round + 1, tried, if now.err.Nil? then attempts + [now.key] else attempts,
              if UncoverError(tried) then removals + [now.key] else removals)
  {
    hide Selected, SelectClient;
    assert Live(w, mode, round + 1)
        == attempts + if Selected(w, mode, round).err.Nil? then [Selected(w, mode, round).key] else [];
  }

  lemma RoundEnds(w: World, mode: FailMode, round: nat, left: nat, err: Error, attempts: seq<Key>, removals: seq<Key>)
    requires InRound(w, mode, round, err, attempts, removals)
    requires var now := Selected(w, mode, round); now.err.Nil? && Ended(w.attempt(|attempts|, now.key))
    ensures var now := Selected(w, mode, round);
      Reported(w, mode, round + left + 1, Report(w.attempt(|attempts|, now.key), attempts + [now.key], removals))
  {
    hide Selected, SelectClient, Live;
    LiveStep(w, mode, round);
    LiveGrows(w, mode, round + 1, round + left + 1);
  }

  lemma {:induction false} LoopReport(w: World, mode: FailMode, left: int, round: nat, err: Error, e: Error,
                                      attempts: seq<Key>, removals: seq<Key>)
    requires left >= -1 && (left == -1 ==> round > 0)
    requires InRound(w, mode, round, err, attempts, removals) && (round > 0 ==> !err.Nil?)
    ensures Reported(w, mode, round + left + 1,
                     Loop(w, mode, left, Selected(w, mode, round), round, err, e, attempts, removals))
    decreases left + 1
  {
    hide Selected, SelectClient, Live, Ended;
    if left >= 0 {
      var now := Selected(w, mode, round);
      var tried := if now.err.Nil? then w.attempt(|attempts|, now.key) else err;
      if now.err.Nil? && Ended(tried) {
        RoundEnds(w, mode, round, left, err, attempts, removals);
      } else {
        FirstError(w, mode, round, err, attempts);
        RoundGoesOn(w, mode, round, err, attempts, removals);
        LoopReport(w, mode, left - 1, round + 1, tried, Selected(w, mode, round + 1).err,
                   if now.err.Nil? then attempts + [now.key] else attempts,
                   if UncoverError(tried) then removals + [now.key] else removals);
      }
    } else {
      LiveGrows(w, mode, round, round);
    }
  }

  lemma LiveStep(w: World, mode: FailMode, n: nat)
    ensures Live(w, mode, n + 1)
         == Live(w, mode, n) + if Selected(w, mode, n).err.Nil? then [Selected(w, mode, n).key] else []
  {
  }

  lemma FirstError(w: World, mode: FailMode, round: nat, err: Error, attempts: seq<Key>)
    requires err == LastError(w, attempts) && attempts == Live(w, mode, round)
    ensures round == 0 && !Selected(w, mode, 0).err.Nil? ==> err == Selected(w, mode, 0).err
  {
  }

  /**
   * A retrying call makes its attempts with the keys of its rounds that had a client, in order and at
   * most `retries + 1`; it stops early only at an attempt that succeeded or does not allow another,
   * asks to remove the client of every attempt it follows up, and reports the last attempt's error, or
   * the first selection's when there never was a client.
   */
  lemma CallReport(w: World, mode: FailMode, retries: int)
    requires !mode.Failfast? && retries >= 0
    ensures Reported(w, mode, retries + 1, Call(w, mode, retries))
  {
    hide Live, Loop;
    var first := SelectClient(w, 0);
    assert Live(w, mode, 0) == [] by {
      NothingLive(w, mode);
    }
    LiveGrows(w, mode, 0, retries + 1);
    if first.err.Nil? || !ContextCanceled(first.err) {
      LoopReport(w, mode, retries, 0, first.err, Nil, [], []);
    }
  }

  lemma NothingLive(w: World, mode: FailMode)
    ensures Live(w, mode, 0) == []
  {
  }

  /** Round `n` of a call can make an attempt with `key`: the selector's answer, or under `Failtry` its first. */
  ghost predicate RoundUses(w: World, mode: FailMode, n: nat, key: Key) {
    && w.lookup(n, key).Nil?
    && if mode.Failtry? && n > 0 then key == w.choice(0) else key == w.choice(n) && key != ""
  }

  ghost predicate SomeRoundUses(w: World, mode: FailMode, rounds: nat, key: Key) {
    exists n: nat :: n < rounds && RoundUses(w, mode, n, key)
  }

  lemma {:induction false} LiveIsUsed(w: World, mode: FailMode, n: nat)
    requires !mode.Failfast?
    ensures forall j :: 0 <= j < |Live(w, mode, n)| ==> SomeRoundUses(w, mode, n, Live(w, mode, n)[j])
  {
    if n > 0 {
      LiveIsUsed(w, mode, n - 1);
      var sel := Selected(w, mode, n - 1);
      if sel.err.Nil? {
        assert RoundUses(w, mode, n - 1, sel.key);
      }
      forall j | 0 <= j < |Live(w, mode, n)| ensures SomeRoundUses(w, mode, n, Live(w, mode, n)[j]) {
        if j < |Live(w, mode, n - 1)| {
          var m: nat :| m < n - 1 && RoundUses(w, mode, m, Live(w, mode, n - 1)[j]);
        }
      }
    }
  }

  /**
   * In plain words: every attempt uses a key that the mode's selection offers in one of the rounds; every
   * attempt but the last failed with an error that is neither the service's nor a cancellation; and when
   * the last did too, every round that found a client was used.
   */
  lemma AttemptsAndErrors(w: World, mode: FailMode, retries: nat)
    requires !mode.Failfast?
    ensures var r := Call(w, mode, retries);
      && (forall j :: 0 <= j < |r.attempts| ==> SomeRoundUses(w, mode, retries + 1, r.attempts[j]))
      && (forall j :: 0 <= j < |r.attempts| - 1 ==> w.attempt(j, r.attempts[j]).Other? && r.attempts[j] in r.removals)
      && (r.attempts != [] && w.attempt(|r.attempts| - 1, r.attempts[|r.attempts| - 1]).Other? ==>
            r.attempts == Live(w, mode, retries + 1))
  {
    hide Call, Live;
    CallReport(w, mode, retries);
    LiveIsUsed(w, mode, retries + 1);
  }

  /** `Failfast` makes one attempt with the first key, or none when that has no client, and reports it. */
  lemma FailfastOnce(w: World, retries: int)
    ensures var r, key := Call(w, Failfast, retries), w.choice(0);
      if key == "" then r == Report(ERR_X_CLIENT_NO_SERVER, [], [])
      else if !w.lookup(0, key).Nil? then r == Report(w.lookup(0, key), [], [])
      else r == Report(w.attempt(0, key), [key], if w.attempt(0, key).Other? then [key] else [])
  {
  }

  ghost predicate AllAre(keys: seq<Key>, k: Key) {
    forall j :: 0 <= j < |keys| ==> keys[j] == k
  }

  /** `Failtry` makes every attempt, and every removal, with the key that was selected first. */
  lemma FailtryKeepsItsServer(w: World, retries: int)
    ensures var r := Call(w, Failtry, retries); AllAre(r.attempts + r.removals, SelectClient(w, 0).key)
  {
    var first := SelectClient(w, 0);
    FailtryLoop(w, retries, first, 0, first.err, Nil, [], []);
  }

  lemma {:induction false} FailtryLoop(w: World, left: int, now: Selection, round: nat, err: Error, e: Error,
                                       attempts: seq<Key>, removals: seq<Key>)
    requires now.key == SelectClient(w, 0).key
    requires AllAre(attempts, now.key) && AllAre(removals, now.key)
    ensures var r := Loop(w, Failtry, left, now, round, err, e, attempts, removals);
      AllAre(r.attempts, now.key) && AllAre(r.removals, now.key)
    decreases if left < 0 then 0 else left + 1
  {
    if left >= 0 {
      var tried := if now.err.Nil? then w.attempt(|attempts|, now.key) else err;
      var next := Selected(w, Failtry, round + 1);
      FailtryLoop(w, left - 1, next, round + 1, tried, next.err, if now.err.Nil? then attempts + [now.key] else attempts,
                  if UncoverError(tried) then removals + [now.key] else removals);
    }
  }

  /** That a nil error means a successful attempt holds in every world exactly when `retries` is not negative. */
  lemma NilMeansSuccessIff(mode: FailMode, retries: int)
    requires !mode.Failfast?
    ensures (forall w ::
              var r := Call(w, mode, retries);
              r.err.Nil? ==> r.attempts != [] && w.attempt(|r.attempts| - 1, r.attempts[|r.attempts| - 1]).Nil?)
       <==> retries >= 0
  {
    if retries >= 0 {
      forall w
        ensures var r := Call(w, mode, retries);
          r.err.Nil? ==> r.attempts != [] && w.attempt(|r.attempts| - 1, r.attempts[|r.attempts| - 1]).Nil?
      {
        CallReport(w, mode, retries);
      }
    } else {
      var w := World(n => "a", (n, k) => Nil, (n, k) => Other(0));
      assert SelectClient(w, 0) == Selection("a", Nil);
      assert Call(w, mode, retries) == Report(Nil, [], []);
    }
  }

  // ----- The code

  method CallLoop(w: World, mode: FailMode, retries: int) returns (r: Report)
    ensures r == Call(w, mode, retries)
    ensures !mode.Failfast? && retries >= 0 ==> Reported(w, mode, retries + 1, r)
  {
    hide Reported;
    if mode != Failfast && retries >= 0 {
      CallReport(w, mode, retries);
    }
    var now := SelectClient(w, 0);
    var err := now.err;
    if err != Nil {
      if mode == Failfast || ContextCanceled(err) {
        return Report(err, [], []);
      }
    }
    var attempts, removals := [], [];
    if mode == Failfast {
      err := w.attempt(0, now.key);
      if err != Nil && UncoverError(err) {
        removals := [now.key];
      }
      return Report(err, [now.key], removals);
    }
    var e, round, left := Nil, 0, retries;
    while left >= 0
      invariant round >= 0
      invariant Loop(w, mode, left, now, round, err, e, attempts, removals) == Call(w, mode, retries)
      invariant now.key == SelectClient(w, 0).key || mode.Failover?
      decreases left
    {
      left := left - 1;
      if now.err == Nil {
        err := w.attempt(|attempts|, now.key);
        attempts := attempts + [now.key];
        if err == Nil {
          return Report(Nil, attempts, removals);
        }
        if ContextCanceled(err) {
          return Report(err, attempts, removals);
        }
        if err.ServiceError? {
          return Report(err, attempts, removals);
        }
      }
      if UncoverError(err) {
        removals := removals + [now.key];
      }
      round := round + 1;
      if mode == Failtry {
        now := Selection(now.key, w.lookup(round, now.key));
      } else {
        now := SelectClient(w, round);
      }
      e := now.err;
    }
    if err == Nil {
      err := e;
    }
    return Report(err, attempts, removals);
  }
}
