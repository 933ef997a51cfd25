/**
 * The machine word `usize` of the bit-parallel algorithms, 64 bits wide,
 * seen as its bits: bit `i` of a word `w` is `w[i]`, bit 0 the least
 * significant. The operators the algorithms apply to it (`<<`, `>>`, `|`,
 * `&`, `~`) and the mask `SHIFT_OR_BIT_MASK` of src/algorithms/shift_or.h
 * are defined bit by bit, which is what the C operators do on an unsigned
 * 64-bit value (a shift by less than the width drops the bits pushed out
 * and fills with zeros).
 */
module Bits {
  /** `SHIFT_OR_MASK_SIZE`: the number of bits of a `usize`. */
  const W: nat := 64

  type Word = w: seq<bool> | |w| == W witness seq(64, i => false)

  /** The word of value 0. */
  function Zero(): Word {
    seq(W, i => false)
  }

  /** `USIZE_MAX`: every bit set. */
  function AllOnes(): Word {
    seq(W, i => true)
  }

  /** The word of value 1. */
  function Unit(): Word {
    seq(W, i => i == 0)
  }

  /** `x << n` for a shift below the width. */
  function Shl(x: Word, n: nat): Word
    requires n < W
  {
    seq(W, i requires 0 <= i < W => n <= i && x[i - n])
  }

  /** `x >> n` for a shift below the width. */
  function Shr(x: Word, n: nat): Word
    requires n < W
  {
    seq(W, i requires 0 <= i < W => i + n < W && x[i + n])
  }

  /** `x | y`. */
  function Or(x: Word, y: Word): Word {
    seq(W, i requires 0 <= i < W => x[i] || y[i])
  }

  /** `x & y`. */
  function And(x: Word, y: Word): Word {
    seq(W, i requires 0 <= i < W => x[i] && y[i])
  }

  /** `~x`. */
  function Not(x: Word): Word {
    seq(W, i requires 0 <= i < W => !x[i])
  }

  /** `(x >> n) & 1` is not zero: the test the algorithms use to read bit `n`. */
  predicate IsSet(x: Word, n: nat)
    requires n < W
  {
    Shr(x, n)[0]
  }

  /** `USIZE_C(1) << i`. */
  function One(i: nat): Word
    requires i < W
  {
    Shl(Unit(), i)
  }

  /** The word whose low `bits` bits are set, for `bits` up to the width. */
  function LowBits(bits: nat): Word
    requires bits <= W
  {
    seq(W, i => i < bits)
  }

  /**
   * `SHIFT_OR_BIT_MASK(bits)`: every bit when `bits` reaches the width (a
   * shift by the full width would be undefined), and otherwise
   * `(1 << bits) - 1`, the word whose low `bits` bits are set. Either way
   * its value is one less than 2^min(bits, 64).
   */
  function BitMask(bits: nat): (m: Word)
    ensures Value(m) + 1 == Pow2(if bits < W then bits else W)
  {
    if bits >= W then
      AllOnesValueBelow(W);
      AllOnes()
    else
      LowBitsValueBelow(bits, W);
      LowBits(bits)
  }

  /** The unsigned value of the low `n` bits of `w`. */
  function ValueBelow(w: Word, n: nat): nat
    requires n <= W
  {
    if n == 0 then 0 else ValueBelow(w, n - 1) + (if w[n - 1] then Pow2(n - 1) else 0)
  }

  /** The unsigned value of a word. */
  function Value(w: Word): nat {
    ValueBelow(w, W)
  }

  function Pow2(n: nat): (r: nat)
    ensures r >= 1
  {
    if n == 0 then 1 else 2 * Pow2(n - 1)
  }

  lemma {:induction false} OneValueBelow(i: nat, n: nat)
    requires i < W && n <= W
    ensures ValueBelow(One(i), n) == if n <= i then 0 else Pow2(i)
  {
    if n > 0 {
      OneValueBelow(i, n - 1);
    }
  }

  lemma {:induction false} LowBitsValueBelow(bits: nat, n: nat)
    requires bits < W && n <= W
    ensures ValueBelow(LowBits(bits), n) + 1 == Pow2(if n <= bits then n else bits)
  {
    if n > 0 {
      LowBitsValueBelow(bits, n - 1);
    }
  }

  lemma {:induction false} AllOnesValueBelow(n: nat)
    requires n <= W
    ensures ValueBelow(AllOnes(), n) + 1 == Pow2(n)
  {
    if n > 0 {
      AllOnesValueBelow(n - 1);
    }
  }

  /** `1 << i` has the value 2^i. */
  lemma OneValue(i: nat)
    requires i < W
    ensures Value(One(i)) == Pow2(i)
  {
    OneValueBelow(i, W);
  }

  /** Below the width, `SHIFT_OR_BIT_MASK(bits) + 1 == 1 << bits`. */
  lemma LowMaskValue(bits: nat)
    requires bits < W
    ensures Value(BitMask(bits)) + 1 == Value(One(bits))
  {
    OneValue(bits);
  }

  /** `1 << k` has bit `k` alone, so `x & ~(1 << k)` clears bit `k` and keeps the others. */
  lemma ClearBit(x: Word, k: nat, i: nat)
    requires k < W && i < W
    ensures And(x, Not(One(k)))[i] <==> x[i] && i != k
  {
  }

  /** Reading a bit through `(x >> n) & 1`. */
  lemma IsSetBit(x: Word, n: nat)
    requires n < W
    ensures IsSet(x, n) <==> x[n]
  {
  }

  /** The mask grows with `bits`: no bit of `mask(a)` is outside `mask(b)` when `a <= b`. */
  lemma BitMaskMonotone(a: nat, b: nat)
    requires a <= b
    ensures And(BitMask(a), Not(BitMask(b))) == Zero()
  {
  }
}
