/** The pool of byte buffers, one free list per power-of-two level. */
module BufferPool {
  import opened Common

  /** A byte slice, as far as the pool sees it. */
  datatype Slice = Slice(len: nat, cap: nat)

  // ----- Levels

  /** The level sizes: doubling from the minimum, and the maximum itself. */
  function Sizes(minSize: nat, maxSize: nat): (sizes: seq<nat>)
    requires minSize >= 1
    ensures sizes != []
    decreases if minSize < maxSize then maxSize - minSize else 0
  {
    if minSize < maxSize then [minSize] + Sizes(2 * minSize, maxSize) else [maxSize]
  }

  /** `Ceil(Log2(size / minSize))`, or 0 where that is negative. */
  function CeilLog2(size: nat, minSize: nat): nat
    requires minSize >= 1
    decreases if minSize < size then size - minSize else 0
  {
    if size <= minSize then 0 else 1 + CeilLog2(size, 2 * minSize)
  }

  /** `Floor(Log2(size / minSize))` for sizes from `minSize` on. */
  function FloorLog2(size: nat, minSize: nat): nat
    requires 1 <= minSize <= size
    decreases size - minSize
  {
    if size < 2 * minSize then 0 else 1 + FloorLog2(size, 2 * minSize)
  }

  /** What the two logarithms mean. */
  lemma {:induction false} CeilLog2Bounds(size: nat, minSize: nat)
    requires minSize >= 1
    ensures size <= minSize * Pow2(CeilLog2(size, minSize))
    ensures CeilLog2(size, minSize) > 0 ==> minSize * Pow2(CeilLog2(size, minSize) - 1) < size
    decreases if minSize < size then size - minSize else 0
  {
    if size > minSize {
      CeilLog2Bounds(size, 2 * minSize);
      var k := CeilLog2(size, 2 * minSize);
      Twice(minSize, k);
      if k > 0 {
        Twice(minSize, k - 1);
      }
    }
  }

  lemma {:induction false} FloorLog2Bounds(size: nat, minSize: nat)
    requires 1 <= minSize <= size
    ensures minSize * Pow2(FloorLog2(size, minSize)) <= size < 2 * (minSize * Pow2(FloorLog2(size, minSize)))
    decreases size - minSize
  {
    if size >= 2 * minSize {
      FloorLog2Bounds(size, 2 * minSize);
      Twice(minSize, FloorLog2(size, 2 * minSize));
    }
  }

  lemma Twice(m: nat, k: nat)
    ensures (2 * m) * Pow2(k) == m * Pow2(k + 1)
  {
    var p := Pow2(k);
    assert Pow2(k + 1) == 2 * p;
    assert (2 * m) * p == m * (2 * p);
  }

  /** Every size up to the maximum finds a level, and one that is large enough. */
  lemma {:induction false} FindsLargeEnough(minSize: nat, maxSize: nat, size: nat)
    requires 1 <= minSize && size <= maxSize
    ensures CeilLog2(size, minSize) < |Sizes(minSize, maxSize)|
    ensures size <= Sizes(minSize, maxSize)[CeilLog2(size, minSize)]
    decreases if minSize < maxSize then maxSize - minSize else 0
  {
    if minSize < size {
      FindsLargeEnough(2 * minSize, maxSize, size);
    }
  }

  /** Every capacity between the sizes is put back into a level it is large enough for. */
  lemma {:induction false} PutsLargeEnough(minSize: nat, maxSize: nat, cap: nat)
    requires 1 <= minSize <= cap <= maxSize
    ensures FloorLog2(cap, minSize) < |Sizes(minSize, maxSize)|
    ensures Sizes(minSize, maxSize)[FloorLog2(cap, minSize)] <= cap
    decreases cap - minSize
  {
    if 2 * minSize <= cap {
      PutsLargeEnough(2 * minSize, maxSize, cap);
    }
  }

  /** A level below the top gets its own buffers back. */
  lemma {:induction false} LowerLevelsRecycle(minSize: nat, maxSize: nat, i: nat)
    requires 1 <= minSize <= maxSize && i + 1 < |Sizes(minSize, maxSize)|
    ensures minSize <= Sizes(minSize, maxSize)[i] < maxSize
    ensures FloorLog2(Sizes(minSize, maxSize)[i], minSize) == i
    decreases i
  {
    if i > 0 && 2 * minSize < maxSize {
      LowerLevelsRecycle(2 * minSize, maxSize, i - 1);
    }
  }

  /** The top level gets any buffer back exactly when the maximum is the minimum times a power of two. */
  lemma {:induction false} TopLevelRecyclesIff(minSize: nat, maxSize: nat)
    requires 1 <= minSize <= maxSize
    ensures FloorLog2(maxSize, minSize) == |Sizes(minSize, maxSize)| - 1
       <==> maxSize == minSize * Pow2(|Sizes(minSize, maxSize)| - 1)
    ensures FloorLog2(maxSize, minSize) + 1 >= |Sizes(minSize, maxSize)| - 1
    decreases maxSize - minSize
  {
    if 2 * minSize <= maxSize {
      TopLevelRecyclesIff(2 * minSize, maxSize);
      Twice(minSize, |Sizes(2 * minSize, maxSize)| - 1);
    } else if minSize < maxSize {
      assert |Sizes(2 * minSize, maxSize)| == 1;
      Twice(minSize, 0);
    }
  }

  lemma {:induction false} FloorLog2Monotone(x: nat, y: nat, minSize: nat)
    requires 1 <= minSize <= x <= y
    ensures FloorLog2(x, minSize) <= FloorLog2(y, minSize)
    decreases x - minSize
  {
    if 2 * minSize <= x {
      FloorLog2Monotone(x, y, 2 * minSize);
    }
  }

  /** Otherwise nothing is ever put into the top level. */
  lemma TopLevelStaysEmpty(minSize: nat, maxSize: nat, cap: nat)
    requires 1 <= minSize <= cap <= maxSize && maxSize != minSize * Pow2(|Sizes(minSize, maxSize)| - 1)
    ensures FloorLog2(cap, minSize) < |Sizes(minSize, maxSize)| - 1
  {
    TopLevelRecyclesIff(minSize, maxSize);
    PutsLargeEnough(minSize, maxSize, maxSize);
    FloorLog2Monotone(cap, maxSize, minSize);
  }

  // ----- The pool

  method LevelSizes(minSize: nat, maxSize: nat) returns (sizes: seq<nat>)
    requires 1 <= minSize <= maxSize
    ensures sizes == Sizes(minSize, maxSize)
  {
    sizes := [];
    var cur := minSize;
    while cur < maxSize
      invariant cur >= 1 && sizes + Sizes(cur, maxSize) == Sizes(minSize, maxSize)
      decreases maxSize - cur
    {
      assert sizes + Sizes(cur, maxSize) == sizes + [cur] + Sizes(2 * cur, maxSize);
      sizes := sizes + [cur];
      cur := 2 * cur;
    }
    sizes := sizes + [maxSize];
  }

  class LimitedPool {
    const minSize: nat
    const maxSize: nat
    var sizes: seq<nat>
    var free: seq<seq<Slice>>

    ghost predicate Valid()
      reads this
    {
      && 1 <= minSize <= maxSize
      && sizes == Sizes(minSize, maxSize) && |free| == |sizes|
      && (forall i, j :: 0 <= i < |free| && 0 <= j < |free[i]| ==> sizes[i] <= free[i][j].cap == free[i][j].len)
    }

    constructor (minSize: nat, maxSize: nat)
      requires 1 <= minSize <= maxSize
      ensures Valid() && this.minSize == minSize && this.maxSize == maxSize
      ensures forall i :: 0 <= i < |free| ==> free[i] == []
    {
      this.minSize, this.maxSize := minSize, maxSize;
      var levels := LevelSizes(minSize, maxSize);
      sizes := levels;
      free := seq(|levels|, _ => []);
    }

    /** `NewLimitedPool`, with null for its panic. */
    static method New(minSize: nat, maxSize: nat) returns (p: LimitedPool?)
      requires 1 <= minSize
      ensures p == null <==> maxSize < minSize
      ensures p != null ==> p.Valid() && fresh(p) && p.minSize == minSize && p.maxSize == maxSize
    {
      if maxSize < minSize {
        return null;
      }
      p := new LimitedPool(minSize, maxSize);
    }

    method FindPool(size: nat) returns (i: Option<nat>)
      requires Valid()
      ensures i.None? <==> size > maxSize
      ensures i.Some? ==> i.value == CeilLog2(size, minSize) < |sizes| && size <= sizes[i.value]
    {
      if size > maxSize {
        return None;
      }
      FindsLargeEnough(minSize, maxSize, size);
      var idx := CeilLog2(size, minSize);
      if idx > |sizes| - 1 {
        return None;
      }
      return Some(idx);
    }

    method FindPutPool(cap: nat) returns (i: Option<nat>)
      requires Valid()
      ensures i.None? <==> cap > maxSize || cap < minSize
      ensures i.Some? ==> i.value == FloorLog2(cap, minSize) < |sizes| && sizes[i.value] <= cap
    {
      if cap > maxSize || cap < minSize {
        return None;
      }
      PutsLargeEnough(minSize, maxSize, cap);
      var idx := FloorLog2(cap, minSize);
      if idx > |sizes| - 1 {
        return None;
      }
      return Some(idx);
    }

    /**
     * `pick` stands for the choice of `sync.Pool`: one of the pooled buffers, or none and then a new one.
     * The result always has the length asked for and the capacity to hold it.
     */
    method Get(size: nat, pick: Option<nat>) returns (b: Slice, pooled: bool)
      requires Valid()
      modifies `free
      ensures Valid()
      ensures b.len == size <= b.cap
      ensures !pooled <==> size > maxSize
      ensures !pooled ==> b.cap == size && free == old(free)
      ensures pooled ==>
        var i := CeilLog2(size, minSize);
        && i < |old(free)|
        && if pick.Some? && pick.value < |old(free)[i]|
           then b.cap == old(free)[i][pick.value].cap
             && free == old(free)[i := old(free)[i][..pick.value] + old(free)[i][pick.value + 1..]]
           else b.cap == sizes[i] && free == old(free)
    {
      var i := FindPool(size);
      if i.None? {
        return Slice(size, size), false;
      }
      var level := free[i.value];
      var buf := Slice(sizes[i.value], sizes[i.value]);
      if pick.Some? && pick.value < |level| {
        buf := level[pick.value];
        free := free[i.value := level[..pick.value] + level[pick.value + 1..]];
      }
      b, pooled := Slice(size, buf.cap), true;
    }

    /** Takes back any buffer, its own or not; those outside the sizes are dropped. */
    method Put(b: Slice)
      requires Valid()
      modifies `free
      ensures Valid()
      ensures b.cap < minSize || b.cap > maxSize ==> free == old(free)
      ensures minSize <= b.cap <= maxSize ==>
        var i := FloorLog2(b.cap, minSize);
        && i < |old(free)| && sizes[i] <= b.cap
        && free == old(free)[i := old(free)[i] + [Slice(b.cap, b.cap)]]
    {
      var i := FindPutPool(b.cap);
      if i.None? {
        return;
      }
      free := free[i.value := free[i.value] + [Slice(b.cap, b.cap)]];
    }
  }
}
