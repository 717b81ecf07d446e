/**
  * `random_generator`: sixteen single-bit draws from the ring oscillator
  * OR-ed into a 16-bit accumulator, draw `i` at bit `i`, reduced modulo 10000.
  */
module Entropy {
  import opened Types

  /** Number of oscillator draws per value. */
  const DRAWS: nat := 16

  /** Modulus folding the accumulator into the displayed range. */
  const RANGE: nat := 10000

  function Pow2(k: nat): (r: nat)
    ensures r >= 1
  {
    if k == 0 then 1 else 2 * Pow2(k - 1)
  }

  /** Rust's `bool as u16`. */
  function BitValue(b: bool): u16
  {
    if b then 1 else 0
  }

  /** The number whose binary digits are `bits`, the first bit least significant. */
  function Accumulate(bits: seq<bool>): nat
  {
    if bits == [] then 0 else BitValue(bits[0]) + 2 * Accumulate(bits[1..])
  }

  /** The `k` lowest bits of `x`, least significant first: the draws that accumulate to `x`. */
  function ToBits(x: nat, k: nat): (bits: seq<bool>)
    ensures |bits| == k
  {
    if k == 0 then [] else [x % 2 == 1] + ToBits(x / 2, k - 1)
  }

  /** The value produced from the draws: the accumulator reduced modulo 10000. */
  function RandomValue(draws: seq<bool>): nat
  {
    Accumulate(draws) % RANGE
  }

  /** `k` draws make a number below two to the `k`. */
  lemma {:induction false} AccumulateBound(bits: seq<bool>)
    ensures Accumulate(bits) < Pow2(|bits|)
  {
    if bits != [] {
      AccumulateBound(bits[1..]);
    }
  }

  /** Reading a `k`-bit number's bits back accumulates to the number. */
  lemma {:induction false} AccumulateToBits(x: nat, k: nat)
    requires x < Pow2(k)
    ensures Accumulate(ToBits(x, k)) == x
  {
    if k > 0 {
      AccumulateToBits(x / 2, k - 1);
      assert ToBits(x, k)[1..] == ToBits(x / 2, k - 1);
    }
  }

  /** The bits of the accumulated number are the draws: no draw is lost or moved. */
  lemma {:induction false} ToBitsAccumulate(bits: seq<bool>)
    ensures ToBits(Accumulate(bits), |bits|) == bits
  {
    if bits != [] {
      ToBitsAccumulate(bits[1..]);
    }
  }

  /** Appending a draw adds it at the next bit position. */
  lemma {:induction false} AccumulateSnoc(bits: seq<bool>, b: bool)
    ensures Accumulate(bits + [b]) == Accumulate(bits) + BitValue(b) * Pow2(|bits|)
  {
    if bits != [] {
      assert (bits + [b])[1..] == bits[1..] + [b];
      AccumulateSnoc(bits[1..], b);
    } else {
      assert [] + [b] == [b];
    }
  }

  /** Bitwise OR of two naturals, bit by bit from the least significant. */
  function BitOr(x: nat, y: nat): nat
    decreases x + y
  {
    if x == 0 && y == 0 then 0
    else 2 * BitOr(x / 2, y / 2) + (if x % 2 == 1 || y % 2 == 1 then 1 else 0)
  }

  /** Rust's `<<` on `u16` for a shift below 16: bits shifted past bit 15 are dropped. */
  function Shl16(x: u16, i: nat): u16
    requires i < 16
  {
    (x * Pow2(i)) % 0x1_0000
  }

  lemma {:induction false} Pow2Monotone(i: nat, j: nat)
    requires i <= j
    ensures Pow2(i) <= Pow2(j)
  {
    if i < j {
      Pow2Monotone(i, j - 1);
    }
  }

  lemma Pow2Sixteen()
    ensures Pow2(15) == 0x8000 && Pow2(16) == 0x1_0000
  {
    assert Pow2(8) == 0x100;
  }

  /** OR of two `k`-bit numbers is a `k`-bit number, so `u16` is closed under `|`. */
  lemma {:induction false} BitOrBound(x: nat, y: nat, k: nat)
    requires x < Pow2(k) && y < Pow2(k)
    ensures BitOr(x, y) < Pow2(k)
    decreases k
  {
    if k > 0 && (x != 0 || y != 0) {
      BitOrBound(x / 2, y / 2, k - 1);
    }
  }

  lemma {:induction false} BitOrZero(y: nat)
    ensures BitOr(0, y) == y
    decreases y
  {
    if y != 0 {
      BitOrZero(y / 2);
    }
  }

  /**
    * OR-ing `m` shifted to bit `i` into `acc`, whose set bits all lie below
    * bit `i`, is addition: the bits do not overlap.
    */
  lemma {:induction false} BitOrDisjoint(acc: nat, m: nat, i: nat)
    requires acc < Pow2(i)
    ensures BitOr(acc, m * Pow2(i)) == acc + m * Pow2(i)
    decreases i
  {
    var y := m * Pow2(i);
    if i == 0 {
      BitOrZero(y);
    } else if acc != 0 || y != 0 {
      var h := m * Pow2(i - 1);
      assert y == 2 * h;
      BitOrDisjoint(acc / 2, m, i - 1);
    }
  }

  /** Draw `b` shifted to bit `i` is `b` times two to the `i`. */
  lemma ShiftedDraw(b: bool, i: nat)
    requires i < 16
    ensures Shl16(BitValue(b), i) == BitValue(b) * Pow2(i)
  {
    Pow2Monotone(i, 15);
    Pow2Sixteen();
  }

  /** One iteration of the accumulation: OR-ing draw `i` in extends the accumulated prefix by it. */
  lemma OrStep(draws: seq<bool>, i: nat, acc: nat)
    requires i < |draws| && i < 16
    requires acc == Accumulate(draws[..i]) && acc < Pow2(i)
    ensures BitOr(acc, Shl16(BitValue(draws[i]), i)) == Accumulate(draws[..i + 1])
    ensures Accumulate(draws[..i + 1]) < Pow2(i + 1) <= 0x1_0000
  {
    ShiftedDraw(draws[i], i);
    BitOrDisjoint(acc, BitValue(draws[i]), i);
    AccumulateSnoc(draws[..i], draws[i]);
    assert draws[..i + 1] == draws[..i] + [draws[i]];
    Pow2Monotone(i + 1, 16);
    Pow2Sixteen();
  }

  /**
    * `random_generator`: for i in 0..16, OR draw `i` (as 0 or 1) shifted left
    * by `i` into a `u16` accumulator; return the accumulator modulo 10000.
    */
  method RandomGenerator(draws: seq<bool>) returns (value: u64)
    requires |draws| == DRAWS
    ensures value == Accumulate(draws) % RANGE
    ensures value < RANGE
  {
    var randomNumber: u16 := 0;
    for i := 0 to DRAWS
      invariant randomNumber == Accumulate(draws[..i])
      invariant randomNumber < Pow2(i)
    {
      OrStep(draws, i, randomNumber);
      randomNumber := BitOr(randomNumber, Shl16(BitValue(draws[i]), i));
    }
    assert draws[..DRAWS] == draws;
    value := randomNumber % 10000;
  }

  lemma {:induction false} ToBitsZero(k: nat)
    ensures ToBits(0, k) == seq(k, _ => false)
  {
    if k > 0 {
      ToBitsZero(k - 1);
    }
  }

  /** `k` set bits accumulate to 2^k - 1. */
  lemma {:induction false} AccumulateOnes(k: nat)
    ensures Accumulate(seq(k, _ => true)) == Pow2(k) - 1
  {
    if k > 0 {
      assert seq(k, _ => true)[1..] == seq(k - 1, _ => true);
      AccumulateOnes(k - 1);
    }
  }

  /** Sixteen set bits give the accumulator 65535, which reduces to 5535. */
  lemma AllOnes()
    ensures Accumulate(seq(DRAWS, _ => true)) == 0xFFFF
    ensures RandomValue(seq(DRAWS, _ => true)) == 5535
  {
    Pow2Sixteen();
    AccumulateOnes(DRAWS);
  }

  /** Draws 1, 0, 1 and then thirteen zeros give 0b101 = 5. */
  lemma DrawsFive()
    ensures ToBits(5, DRAWS) == [true, false, true] + seq(13, _ => false)
    ensures RandomValue(ToBits(5, DRAWS)) == 5
  {
    ToBitsZero(13);
    assert ToBits(5, DRAWS) == [true, false, true] + ToBits(0, 13);
    Pow2Sixteen();
    AccumulateToBits(5, DRAWS);
  }

  /** An accumulator of exactly 10000 wraps to 0. */
  lemma AccumulatorWraps()
    ensures Accumulate(ToBits(10000, DRAWS)) == 10000
    ensures RandomValue(ToBits(10000, DRAWS)) == 0
  {
    Pow2Sixteen();
    AccumulateToBits(10000, DRAWS);
  }
}
