/** Types shared by the modules of the model. */
module Common {

  type byte = b: int | 0 <= b < 256

  type Bytes = seq<byte>

  // ----- Machine words

  const WORD32: int := 0x1_0000_0000
  const WORD64: int := 0x1_0000_0000_0000_0000

  type uint64 = v: int | 0 <= v < WORD64

  function Pow2(n: nat): (p: nat)
    ensures p > 0
  {
    if n == 0 then 1 else 2 * Pow2(n - 1)
  }

  datatype Option<+T> = None | Some(value: T)

  /** The order in which one `range` loop visits a Go map: every key once, in any order. */
  ghost predicate IsIterationOrder<K, V>(order: seq<K>, m: map<K, V>) {
    && (forall i, j :: 0 <= i < j < |order| ==> order[i] != order[j])
    && (forall i :: 0 <= i < |order| ==> order[i] in m)
    && (forall k :: k in m ==> k in order)
  }

  /** `data` holds `part` at index `i`. */
  ghost predicate At<T>(data: seq<T>, i: nat, part: seq<T>) {
    i + |part| <= |data| && data[i..i + |part|] == part
  }

  lemma AtSplit<T>(data: seq<T>, i: nat, x: seq<T>, y: seq<T>)
    ensures At(data, i, x + y) <==> At(data, i, x) && At(data, i + |x|, y)
  {
    if At(data, i, x + y) {
      assert data[i..i + |x|] == (x + y)[..|x|];
      assert data[i + |x|..i + |x| + |y|] == (x + y)[|x|..];
    }
    if At(data, i, x) && At(data, i + |x|, y) {
      assert data[i..i + |x + y|] == data[i..i + |x|] + data[i + |x|..i + |x| + |y|];
    }
  }

  lemma AtWithin<T>(data: seq<T>, i: nat, part: seq<T>)
    requires At(data, i, part)
    ensures i + |part| <= |data|
  {
  }

  lemma AtWhole<T>(data: seq<T>)
    ensures At(data, 0, data)
  {
  }
}
