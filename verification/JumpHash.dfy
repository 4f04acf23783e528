/** Jump consistent hashing. */
module JumpHash {

  import opened Common

  /** The linear congruential step of the key. */
  function NextKey(key: uint64): uint64 {
    (key * 2862933555777941757 + 1) % WORD64
  }

  /** The jump: from bucket `b` and the stepped key to the next candidate bucket. */
  type Jump = (nat, uint64) -> int

  /** All that the results below need of the arithmetic: below `n`, a jump goes forward. */
  ghost predicate Forward(jump: Jump, n: nat) {
    forall b: nat, key: uint64 :: b < n ==> jump(b, key) > b
  }

  /** Where the loop ends for `n` buckets when it stands at bucket `b` and would go on to `j`. */
  function Land(jump: Jump, key: uint64, b: nat, j: nat, n: nat): (r: nat)
    requires Forward(jump, n)
    ensures r == b || j <= r
    ensures b < n ==> r < n
    decreases if j < n then n - j else 0
  {
    if j < n then Land(jump, NextKey(key), j, jump(j, NextKey(key)), n) else b
  }

  /** A non-positive number of buckets counts as one. */
  function Buckets(buckets: int): nat {
    if buckets <= 0 then 1 else buckets
  }

  function Hash(jump: Jump, key: uint64, buckets: int): (r: nat)
    requires Forward(jump, Buckets(buckets))
    ensures r < Buckets(buckets)
  {
    Land(jump, key, 0, 0, Buckets(buckets))
  }

  /** The key after `k` steps. */
  function KeyAt(key: uint64, k: nat): uint64 {
    if k == 0 then key else NextKey(KeyAt(key, k - 1))
  }

  /** The buckets a key goes through: each the jump from the one before, under the key's next step. */
  ghost predicate Walks(jump: Jump, key: uint64, path: seq<nat>) {
    path != [] ==> path[0] == 0 && forall k :: 0 < k < |path| ==> path[k] == jump(path[k - 1], KeyAt(key, k))
  }

  /** `b` is the last bucket of the walk below `n`: the next jump leads beyond. */
  ghost predicate LastOfWalk(jump: Jump, key: uint64, path: seq<nat>, n: nat, b: nat) {
    && path != [] && Walks(jump, key, path) && (forall k :: 0 <= k < |path| ==> path[k] < n)
    && b == path[|path| - 1] && jump(b, KeyAt(key, |path|)) >= n
  }

  lemma {:induction false} LandsOnWalk(jump: Jump, key: uint64, path: seq<nat>, j: nat, n: nat) returns (whole: seq<nat>)
    requires Forward(jump, n) && Walks(jump, key, path) && (forall k :: 0 <= k < |path| ==> path[k] < n)
    requires if path == [] then j == 0 < n else j == jump(path[|path| - 1], KeyAt(key, |path|))
    ensures whole != [] && path <= whole && Walks(jump, key, whole) && (forall k :: 0 <= k < |whole| ==> whole[k] < n)
    ensures jump(whole[|whole| - 1], KeyAt(key, |whole|)) >= n
    ensures Land(jump, KeyAt(key, |path|), if path == [] then 0 else path[|path| - 1], j, n) == whole[|whole| - 1]
    decreases if j < n then n - j else 0
  {
    if j < n {
      var longer := path + [j];
      assert Walks(jump, key, longer);
      whole := LandsOnWalk(jump, key, longer, jump(j, KeyAt(key, |longer|)), n);
    } else {
      whole := path;
    }
  }

  /** The hash is the last bucket on the key's walk that the number of buckets allows. */
  lemma HashIsLastOfWalk(jump: Jump, key: uint64, buckets: int) returns (path: seq<nat>)
    requires Forward(jump, Buckets(buckets))
    ensures LastOfWalk(jump, key, path, Buckets(buckets), Hash(jump, key, buckets))
  {
    path := LandsOnWalk(jump, key, [], 0, Buckets(buckets));
  }

  /** With fewer buckets the walk is the same until it would leave them. */
  lemma {:induction false} LandConsistent(jump: Jump, key: uint64, b: nat, j: nat, m: nat, n: nat)
    requires Forward(jump, n) && m <= n && Land(jump, key, b, j, n) < m
    ensures Land(jump, key, b, j, n) == Land(jump, key, b, j, m)
    decreases if j < n then n - j else 0
  {
    if j < m {
      LandConsistent(jump, NextKey(key), j, jump(j, NextKey(key)), m, n);
    }
  }

  /** Consistency: a key that sits in one of the first `m` buckets sits there with `m` buckets too. */
  lemma Consistent(jump: Jump, key: uint64, m: int, n: int)
    requires 1 <= m <= n && Forward(jump, n) && Hash(jump, key, n) < m
    ensures Hash(jump, key, n) == Hash(jump, key, m)
  {
    LandConsistent(jump, key, 0, 0, m, n);
  }

  /** Adding buckets moves a key only into a new one. */
  lemma GrowthMovesToNewBuckets(jump: Jump, key: uint64, m: int, n: int)
    requires 1 <= m <= n && Forward(jump, n)
    ensures Hash(jump, key, n) == Hash(jump, key, m) || m <= Hash(jump, key, n) < n
    ensures n == m + 1 ==> Hash(jump, key, n) == Hash(jump, key, m) || Hash(jump, key, n) == m
  {
    if Hash(jump, key, n) < m {
      Consistent(jump, key, m, n);
    }
  }

  /** The loop itself. */
  method HashLoop(jump: Jump, start: uint64, buckets: int) returns (b: nat)
    requires Forward(jump, Buckets(buckets))
    ensures b == Hash(jump, start, buckets)
    ensures exists path :: LastOfWalk(jump, start, path, Buckets(buckets), b)
  {
    ghost var path := HashIsLastOfWalk(jump, start, buckets);
    assert LastOfWalk(jump, start, path, Buckets(buckets), Hash(jump, start, buckets));
    var n := if buckets <= 0 then 1 else buckets;
    var key, j := start, 0;
    b := 0;
    while j < n
      invariant j >= 0 && Land(jump, key, b, j, n) == Hash(jump, start, buckets)
      decreases if j < n then n - j else 0
    {
      b := j;
      key := NextKey(key);
      j := jump(b, key);
    }
  }

  // ----- The arithmetic of the code

  ghost predicate Exact(round: real -> real, i: int) {
    round(i as real) == i as real
  }

  /** Rounding of reals to floating-point numbers: monotone, and exact on integers up to 2^31. */
  ghost predicate Rounds(round: real -> real) {
    && (forall x, y :: x <= y ==> round(x) <= round(y))
    && (forall i :: 0 <= i <= 0x8000_0000 ==> Exact(round, i))
  }

  lemma Monotone(round: real -> real, x: real, y: real)
    requires Rounds(round) && x <= y
    ensures round(x) <= round(y)
  {
  }

  /** The code's jump with each floating-point operation rounded. */
  function RoundedJump(round: real -> real, b: nat, key: uint64): int {
    round(round((b + 1) as real) * round(Quotient(key))).Floor
  }

  function FloatJump(round: real -> real): Jump {
    (b: nat, key: uint64) => RoundedJump(round, b, key)
  }

  /** 2^31 over the top 31 bits of the key plus one. */
  function Quotient(key: uint64): real {
    0x8000_0000 as real / Divisor(key) as real
  }

  /** The top 31 bits of the key, plus one. */
  function Divisor(key: uint64): nat {
    key / 0x2_0000_0000 + 1
  }

  lemma FloorOfQuotient(x: int, q: int, y: real)
    requires q >= 1 && y * q as real == x as real
    ensures y.Floor * q <= x < (y.Floor + 1) * q
  {
    var j := y.Floor;
    Between(x, q, y, j, j + 1);
  }

  lemma Between(x: int, q: int, y: real, j: int, k: int)
    requires q >= 1 && y * q as real == x as real && j as real <= y < k as real
    ensures j * q <= x < k * q
  {
    Scale(j as real, y, k as real, q as real);
    ProductAtMost(j, q, x);
    ProductAbove(k, q, x);
  }

  lemma Product(x: int, y: int)
    ensures x as real * y as real == (x * y) as real
  {
  }

  lemma ProductAtMost(x: int, y: int, z: int)
    requires x as real * y as real <= z as real
    ensures x * y <= z
  {
    var p := x * y;
    Product(x, y);
    assert p as real <= z as real;
  }

  lemma ProductAbove(x: int, y: int, z: int)
    requires z as real < x as real * y as real
    ensures z < x * y
  {
    var p := x * y;
    Product(x, y);
    assert z as real < p as real;
  }

  lemma Scale(x: real, y: real, z: real, q: real)
    requires x <= y < z && q > 0.0
    ensures x * q <= y * q < z * q
  {
  }

  /** Without rounding, the jump is the greatest j with j * Divisor(key) at most (b + 1) * 2^31. */
  lemma ExactJump(b: nat, key: uint64, j: int)
    ensures RoundedJump(x => x, b, key) == j
       <==> j * Divisor(key) <= (b + 1) * 0x8000_0000 < (j + 1) * Divisor(key)
  {
    var q, k := Divisor(key), RoundedJump(x => x, b, key);
    var y := (b + 1) as real * Quotient(key);
    TimesQuotient((b + 1) as real, q as real, Quotient(key));
    assert y * q as real == ((b + 1) * 0x8000_0000) as real;
    FloorOfQuotient((b + 1) * 0x8000_0000, q, y);
    assert k == y.Floor;
    OneQuotient((b + 1) * 0x8000_0000, q, j, k);
  }

  lemma TimesQuotient(x: real, q: real, r: real)
    requires q > 0.0 && r == 0x8000_0000 as real / q
    ensures (x * r) * q == x * 0x8000_0000 as real
  {
    assert r * q == 0x8000_0000 as real;
    assert (x * r) * q == x * (r * q);
  }

  lemma OneQuotient(x: int, q: int, j: int, k: int)
    requires q >= 1 && k * q <= x < (k + 1) * q
    ensures j == k <==> j * q <= x < (j + 1) * q
  {
    if j < k {
      assert (j + 1) * q <= k * q;
    } else if j > k {
      assert (k + 1) * q <= j * q;
    }
  }

  /** One of the algorithm's published test vectors. */
  lemma Published()
    ensures Forward(FloatJump(x => x), 11)
    ensures Hash(FloatJump(x => x), 2016238256797177309, 11) == 3
  {
    hide RoundedJump, Rounds;
    var jump := FloatJump(x => x);
    Unrounded();
    FloatJumpForward(x => x, 11);
    var k0, k1, k2, k3 := 2016238256797177309, 12903227573725907818, 11844368311907542979, 180926120691014584;
    assert NextKey(k0) == k1 && NextKey(k1) == k2 && NextKey(k2) == k3;
    ExactJump(0, k1, 1);
    ExactJump(1, k2, 3);
    ExactJump(3, k3, 407);
    assert jump(0, k1) == 1 && jump(1, k2) == 3 && jump(3, k3) == 407;
    assert Land(jump, k3, 3, 407, 11) == 3;
    assert Land(jump, k2, 1, 3, 11) == Land(jump, k3, 3, 407, 11);
    assert Land(jump, k1, 0, 1, 11) == Land(jump, k2, 1, 3, 11);
    assert Land(jump, k0, 0, 0, 11) == Land(jump, k1, 0, 1, 11);
  }

  lemma Unrounded()
    ensures Rounds(x => x)
  {
  }

  lemma QuotientAtLeastOne(key: uint64)
    ensures Quotient(key) >= 1.0
  {
    var k := (key / 0x2_0000_0000 + 1) as real;
    assert 1.0 <= k <= 0x8000_0000 as real;
    assert Quotient(key) * k == 0x8000_0000 as real;
  }

  lemma ProductAtLeast(x: real, q: real)
    requires x >= 0.0 && q >= 1.0
    ensures x * q >= x
  {
  }

  lemma RoundedJumpForward(round: real -> real, b: nat, key: uint64)
    requires Rounds(round) && b + 1 <= 0x8000_0000
    ensures RoundedJump(round, b, key) > b
  {
    hide Quotient;
    QuotientAtLeastOne(key);
    assert Exact(round, 1) && Exact(round, b + 1);
    Monotone(round, 1.0, Quotient(key));
    var x, q := (b + 1) as real, round(Quotient(key));
    ProductAtLeast(x, q);
    Monotone(round, x, x * q);
  }

  /** Whatever the rounding, the code's jump goes forward from every bucket an int32 can number. */
  lemma FloatJumpForward(round: real -> real, n: nat)
    requires Rounds(round) && n < 0x8000_0000
    ensures Forward(FloatJump(round), n)
  {
    hide Rounds;
    forall b: nat, key: uint64 | b < n ensures FloatJump(round)(b, key) > b {
      RoundedJumpForward(round, b, key);
      assert FloatJump(round)(b, key) == RoundedJump(round, b, key);
    }
  }

  /** So the code's hash is consistent under every monotone rounding. */
  lemma FloatHashConsistent(round: real -> real, key: uint64, m: int, n: int)
    requires Rounds(round) && 1 <= m <= n < 0x8000_0000
    ensures Forward(FloatJump(round), n) && Forward(FloatJump(round), m)
    ensures Hash(FloatJump(round), key, n) < m ==> Hash(FloatJump(round), key, n) == Hash(FloatJump(round), key, m)
  {
    hide Rounds, FloatJump;
    FloatJumpForward(round, n);
    FloatJumpForward(round, m);
    if Hash(FloatJump(round), key, n) < m {
      Consistent(FloatJump(round), key, m, n);
    }
  }
}
