/**
 * The 32-bit xorshift generator of `rand2`, on bit vectors alone (kept apart
 * from the integer reasoning of the other generators).
 */
module Xorshift32 {
  /** The three shift-and-xor stages of `rand2`'s xorshift step. */
  function Left17(x: bv32): bv32 { x ^ (x << 17) }
  function Right13(x: bv32): bv32 { x ^ (x >> 13) }
  function Left5(x: bv32): bv32 { x ^ (x << 5) }

  /** `rand2`'s xorshift step: shifts by 17 left, 13 right and 5 left. */
  function Xorshift(x: bv32): bv32
  {
    Left5(Right13(Left17(x)))
  }

  /** Each stage maps only zero to zero. */
  lemma Left17Nonzero(x: bv32)
    ensures Left17(x) == 0 <==> x == 0
  {
  }

  lemma Right13Nonzero(x: bv32)
    ensures Right13(x) == 0 <==> x == 0
  {
  }

  lemma Left5Nonzero(x: bv32)
    ensures Left5(x) == 0 <==> x == 0
  {
  }

  /** Zero is the only state that steps to zero, so a nonzero xorshift state stays nonzero. */
  lemma XorshiftNonzero(x: bv32)
    ensures Xorshift(x) == 0 <==> x == 0
  {
    Left17Nonzero(x);
    Right13Nonzero(Left17(x));
    Left5Nonzero(Right13(Left17(x)));
  }
}

/**
 * The node's pseudo-random generators, ported from the C `rand.c`: `rand16`
 * is a 32-bit linear congruential generator (LCG), and `rand2` combines a
 * second LCG with a multiply-with-carry (MWC) and a xorshift generator. The
 * four seeds are fields of one object, updated on every call.
 *
 * JavaScript numbers are modelled by their operators: `>>> 0` reduces modulo
 * 2^32, `& 65535` and `>>> 16` take the low and high halves of the 32-bit
 * reading, and the signed operators (`^`, `<<`, `>>`) work on 32-bit vectors
 * read back as signed integers.
 */
module Rand {
  import opened Bytes
  import opened Xorshift32

  const LCG_MUL: nat := 69069
  const LCG_ADD: nat := 262145
  /** The inverse of LCG_MUL modulo 2^32. */
  const LCG_MUL_INV: nat := 2783094533
  const MWC_MUL: nat := 36969
  /** The seeds a zero MWC or xorshift state is replaced with. */
  const MWC_RESEED: nat := 362436069
  const XORSHIFT_RESEED: bv32 := 123456789

  // ---------------------------------------------------------------------
  // JavaScript integer operators.

  /** `ToInt32`/`ToUint32` bits of a Number: the value modulo 2^32 as a bit vector. */
  function Bits(x: int): bv32
  {
    (x % TWO_TO_32) as bv32
  }

  /** The signed reading of 32 bits, as `|0`, `^` or `<<` leave a Number. */
  function Int32Of(x: bv32): (r: int)
    ensures -0x8000_0000 <= r < 0x8000_0000
  {
    var n := x as int;
    if n < 0x8000_0000 then n else n - TWO_TO_32
  }

  // ---------------------------------------------------------------------
  // The three generators.

  /** The LCG step of both `rand16` and `rand2`, with the `>>> 0` that keeps 32 bits. */
  function Lcg(x: int): (r: nat)
    ensures r < TWO_TO_32
  {
    (x * LCG_MUL + LCG_ADD) % TWO_TO_32
  }

  /** The LCG step run backwards. */
  function LcgBack(y: int): nat
  {
    ((y - LCG_ADD) * LCG_MUL_INV) % TWO_TO_32
  }

  /** The LCG permutes the 2^32 states: running it backwards recovers the state it came from. */
  lemma LcgRoundTrip(x: int)
    requires 0 <= x < TWO_TO_32
    ensures LcgBack(Lcg(x)) == x
  {
    var q := (x * LCG_MUL + LCG_ADD) / TWO_TO_32;
    var y := Lcg(x);
    assert y == x * LCG_MUL + LCG_ADD - TWO_TO_32 * q;
    assert LCG_MUL * LCG_MUL_INV == 1 + TWO_TO_32 * 44756;
    calc {
      (y - LCG_ADD) * LCG_MUL_INV;
      (x * LCG_MUL - TWO_TO_32 * q) * LCG_MUL_INV;
      x * (LCG_MUL * LCG_MUL_INV) - TWO_TO_32 * (q * LCG_MUL_INV);
      x + TWO_TO_32 * (x * 44756 - q * LCG_MUL_INV);
    }
    ModMultiple(x, x * 44756 - q * LCG_MUL_INV);
  }

  lemma ModMultiple(x: int, t: int)
    requires 0 <= x < TWO_TO_32
    ensures (x + TWO_TO_32 * t) % TWO_TO_32 == x
  {
  }

  /** Two different states never step to the same one. */
  lemma LcgInjective(x: int, y: int)
    requires 0 <= x < TWO_TO_32 && 0 <= y < TWO_TO_32 && Lcg(x) == Lcg(y)
    ensures x == y
  {
    LcgRoundTrip(x);
    LcgRoundTrip(y);
  }

  /** `rand2`'s multiply-with-carry step: 36969 times the low half plus the high half. */
  function Mwc(x: int): nat
  {
    MWC_MUL * (x % TWO_TO_16) + (x % TWO_TO_32) / TWO_TO_16
  }

  /** The MWC state stays below 2^32, and a state in (0, 2^32) never steps to 0. */
  lemma MwcBounds(x: int)
    ensures Mwc(x) < TWO_TO_32
    ensures 0 < x < TWO_TO_32 ==> Mwc(x) != 0
  {
    var lo, hi := x % TWO_TO_16, (x % TWO_TO_32) / TWO_TO_16;
    assert hi < TWO_TO_16;
    if 0 < x < TWO_TO_32 && lo == 0 {
      DivUnique(x, TWO_TO_16, hi, 0);
      assert x == TWO_TO_16 * hi;
    }
  }

  /** Zero is a fixed point of the MWC step, which is why `rand2` replaces it. */
  lemma MwcZero()
    ensures Mwc(0) == 0
  {
  }

  /** `rand2`'s result: the 32-bit exclusive or of the three states, arithmetically shifted right by 16. */
  function Output(lseed2: int, lseed3: int, lseed4: bv32): (r: int)
    ensures -0x8000 <= r < 0x8000
  {
    Int32Of(Bits(lseed2) ^ (Bits(lseed3) << 16) ^ lseed4) / TWO_TO_16
  }

  // ---------------------------------------------------------------------
  // The generator state.

  /**
   * The seeds `rand16.Lseed`, `rand2.Lseed2`, `rand2.Lseed3` and
   * `rand2.Lseed4`. `lseed4` is kept as its 32 bits: every operation on it is
   * a 32-bit one, and its Number value is `Int32Of(lseed4)`, which is zero
   * exactly when the bits are.
   */
  class Prng {
    var lseed: int
    var lseed2: int
    var lseed3: int
    var lseed4: bv32

    /** Both states `rand2` replaces when zero are in use: from then on the replacement never happens. */
    predicate Seeded()
      reads this
    {
      0 < lseed3 < TWO_TO_32 && lseed4 != 0
    }

    /** The start-up seeds, from the process id and the start time in seconds. */
    constructor (pid: nat, stime: nat)
      requires pid < TWO_TO_32 && stime < TWO_TO_32
      ensures lseed == Int32Of(Bits(pid) ^ Bits(stime)) && lseed2 == stime
      ensures lseed3 == 0 && lseed4 == Bits(pid) ^ XORSHIFT_RESEED
    {
      lseed := Int32Of(Bits(pid) ^ Bits(stime));
      lseed2 := stime;
      lseed3 := 0;
      lseed4 := Bits(pid) ^ XORSHIFT_RESEED;
    }

    /** `rand16`: one LCG step; the result is the high half of the new state. */
    method Rand16() returns (r: nat)
      modifies this
      ensures lseed == Lcg(old(lseed)) && r == lseed / TWO_TO_16 && r < TWO_TO_16
      ensures lseed2 == old(lseed2) && lseed3 == old(lseed3) && lseed4 == old(lseed4)
    {
      lseed := (lseed * LCG_MUL + LCG_ADD) % TWO_TO_32;
      r := lseed / TWO_TO_16;
    }

    /**
     * `rand2`: one step of each generator, a zero MWC or xorshift state
     * being replaced first; the result lies in [-32768, 32767].
     */
    method Rand2() returns (r: int)
      modifies this
      ensures lseed2 == Lcg(old(lseed2))
      ensures lseed3 == Mwc(if old(lseed3) == 0 then MWC_RESEED else old(lseed3))
      ensures lseed4 == Xorshift(if old(lseed4) == 0 then XORSHIFT_RESEED else old(lseed4))
      ensures r == Output(lseed2, lseed3, lseed4) && -0x8000 <= r < 0x8000
      ensures lseed == old(lseed)
      ensures 0 <= old(lseed3) < TWO_TO_32 ==> Seeded()
      ensures old(Seeded()) ==> lseed3 == Mwc(old(lseed3)) && lseed4 == Xorshift(old(lseed4))
    {
      lseed2 := (lseed2 * LCG_MUL + LCG_ADD) % TWO_TO_32;
      if lseed3 == 0 {
        lseed3 := MWC_RESEED;
      }
      ghost var m := lseed3;
      lseed3 := MWC_MUL * (lseed3 % TWO_TO_16) + (lseed3 % TWO_TO_32) / TWO_TO_16;
      assert lseed3 == Mwc(m);
      assert 0 < m < TWO_TO_32 ==> 0 < lseed3 < TWO_TO_32 by { MwcBounds(m); }
      if lseed4 == 0 {
        lseed4 := XORSHIFT_RESEED;
      }
      ghost var x := lseed4;
      lseed4 := Xorshift(lseed4);
      assert lseed4 != 0 by { XorshiftNonzero(x); }
      r := Output(lseed2, lseed3, lseed4);
    }
  }
}
