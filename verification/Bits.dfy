/** Bitwise operations on unsigned words, as operations on natural numbers. */
module Bits {
  import opened Common

  // ----- Union and intersection, bit by bit

  /** Whether bit `i` of `x` is set. */
  predicate Bit(x: nat, i: nat) {
    if i == 0 then x % 2 == 1 else Bit(x / 2, i - 1)
  }

  /** `x | y` */
  function BitOr(x: nat, y: nat): nat {
    if x == 0 then y
    else if y == 0 then x
    else 2 * BitOr(x / 2, y / 2) + if x % 2 == 1 || y % 2 == 1 then 1 else 0
  }

  /** `x & y` */
  function BitAnd(x: nat, y: nat): nat {
    if x == 0 || y == 0 then 0
    else 2 * BitAnd(x / 2, y / 2) + if x % 2 == 1 && y % 2 == 1 then 1 else 0
  }

  lemma {:induction false} NoBits(i: nat)
    ensures !Bit(0, i)
  {
    if i > 0 {
      NoBits(i - 1);
    }
  }

  lemma {:induction false} BitOrIsUnion(x: nat, y: nat, i: nat)
    ensures Bit(BitOr(x, y), i) <==> Bit(x, i) || Bit(y, i)
    decreases i
  {
    NoBits(i);
    if x != 0 && y != 0 && i > 0 {
      BitOrIsUnion(x / 2, y / 2, i - 1);
    }
  }

  lemma {:induction false} BitAndIsIntersection(x: nat, y: nat, i: nat)
    ensures Bit(BitAnd(x, y), i) <==> Bit(x, i) && Bit(y, i)
    decreases i
  {
    NoBits(i);
    if x != 0 && y != 0 && i > 0 {
      BitAndIsIntersection(x / 2, y / 2, i - 1);
    }
  }

  // ----- What they are on numbers that share no bit, and on masks

  /** Uniting a number below `2^s` with a multiple of `2^s` is adding them. */
  lemma {:induction false} OrIsPlus(x: nat, s: nat, k: nat)
    requires x < Pow2(s)
    ensures BitOr(x, Pow2(s) * k) == x + Pow2(s) * k
    decreases s
  {
    if s > 0 && x > 0 && k > 0 {
      var half := Pow2(s - 1) * k;
      assert Pow2(s) * k == 2 * half by {
        Double(Pow2(s - 1), k);
      }
      OrIsPlus(x / 2, s - 1, k);
    }
  }

  lemma Double(p: nat, k: nat)
    ensures (2 * p) * k == 2 * (p * k)
  {
  }

  /** A mask of `s` ones, the bits it keeps, and the rest of the number. */
  function Mask(s: nat): nat {
    if s == 0 then 0 else 2 * Mask(s - 1) + 1
  }

  function Low(v: nat, s: nat): nat {
    if s == 0 then 0 else 2 * Low(v / 2, s - 1) + v % 2
  }

  function High(v: nat, s: nat): nat {
    if s == 0 then v else High(v / 2, s - 1)
  }

  lemma {:induction false} AndMask(v: nat, s: nat)
    ensures BitAnd(v, Mask(s)) == Low(v, s)
    decreases s
  {
    if s == 0 {
      AndZero(v);
    } else {
      AndOdd(v, Mask(s - 1));
      AndMask(v / 2, s - 1);
    }
  }

  lemma {:induction false} HighAndLow(v: nat, s: nat)
    ensures v == High(v, s) * Pow2(s) + Low(v, s) && Low(v, s) < Pow2(s)
    decreases s
  {
    if s > 0 {
      HighAndLow(v / 2, s - 1);
      Regroup(High(v / 2, s - 1), Pow2(s - 1), Low(v / 2, s - 1), v % 2);
    }
  }

  lemma Regroup(h: nat, p: nat, low: nat, b: nat)
    ensures 2 * (h * p + low) + b == h * (2 * p) + (2 * low + b)
  {
  }

  /** The mask `0x7f` keeps the low seven bits. */
  lemma AndMask7(v: nat)
    ensures BitAnd(v, 0x7F) == v % 128
  {
    hide *;
    AndMask(v, 7);
    HighAndLow(v, 7);
    MaskIs();
    Pow2Values();
  }

  lemma MaskIs()
    ensures Mask(7) == 0x7F
  {
    assert Mask(4) == 15;
  }

  lemma AndOdd(v: nat, m: nat)
    ensures BitAnd(v, 2 * m + 1) == 2 * BitAnd(v / 2, m) + v % 2
  {
  }

  lemma AndZero(v: nat)
    ensures BitAnd(v, 0) == 0
  {
  }

  /** Setting the top bit of seven. */
  lemma OrTop(v: nat)
    requires v < 128
    ensures BitOr(v, 0x80) == v + 128
  {
    Pow2Values();
    OrIsPlus(v, 7, 1);
  }

  // ----- Powers of two

  lemma Pow2Values()
    ensures Pow2(7) == 128 && Pow2(32) == WORD32 && Pow2(64) == WORD64
  {
    assert Pow2(4) == 16 && Pow2(7) == 128;
    Pow2Add(4, 4);
    Pow2Add(8, 8);
    Pow2Add(16, 16);
    Pow2Add(32, 32);
  }

  lemma {:induction false} Pow2Add(a: nat, b: nat)
    ensures Pow2(a + b) == Pow2(a) * Pow2(b)
    decreases b
  {
    if b > 0 {
      Pow2Add(a, b - 1);
      Double(Pow2(b - 1), Pow2(a));
    }
  }

  // ----- Shifting left in a word

  /** `x << shift` in a word of `width` bits. */
  function Shl(x: nat, shift: nat, width: nat): (r: nat)
    ensures r < Pow2(width)
  {
    (Pow2(shift) * x) % Pow2(width)
  }

  /** What is shifted left is a multiple of `2^shift`, and there is room below it in the word. */
  lemma ShlIsMultiple(x: nat, shift: nat, width: nat) returns (k: nat)
    requires (width == 32 || width == 64) && shift <= width
    ensures Shl(x, shift, width) == Pow2(shift) * k && Pow2(shift) * k + Pow2(shift) <= Pow2(width)
  {
    hide Pow2;
    var p, r := Pow2(shift), Pow2(width - shift);
    Pow2Add(shift, width - shift);
    Pow2Values();
    k := x % r;
    Split(p, x / r, r, k);
    Room(p, k, r);
    Remainder(p * x, x / r, p * k, width);
  }

  lemma Remainder(x: nat, q: nat, r: nat, width: nat)
    requires (width == 32 || width == 64) && x == q * Pow2(width) + r && r < Pow2(width)
    ensures x % Pow2(width) == r
  {
    hide Pow2;
    Pow2Values();
  }

  lemma Split(p: nat, q: nat, r: nat, k: nat)
    ensures p * (q * r + k) == q * (p * r) + p * k
  {
  }

  lemma {:induction false} Room(p: nat, k: nat, r: nat)
    requires k < r
    ensures p * k + p <= p * r
  {
    assert p * r == p * (r - 1) + p;
    if k + 1 < r {
      Room(p, k, r - 1);
    }
  }

  /** A shift by the whole width or more leaves nothing. */
  lemma ShlPastWidth(x: nat, shift: nat, width: nat)
    requires (width == 32 || width == 64) && width <= shift
    ensures Shl(x, shift, width) == 0
  {
    hide Pow2;
    Pow2Add(shift - width, width);
    Pow2Values();
    Split(Pow2(shift - width), x, Pow2(width), 0);
    Remainder(Pow2(shift) * x, Pow2(shift - width) * x, 0, width);
  }
}
