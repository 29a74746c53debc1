/**
  The bit packing of `uid64` and `uid128`: a millisecond timestamp, reduced
  to fit, in the high half and a random draw in the low half.

  The clock reading (`SystemTime::now()` as whole milliseconds since the Unix
  epoch) and the random draw (`next_u32` / `next_u64`) are parameters.
  Shifts are written as multiplication followed by truncation to the width
  of the shifted type, as Rust's `<<` discards the bits shifted out.
 */
module Uid {
  import opened Positional

  /** `u32::MAX` and `u64::MAX`: one below the powers of two. */
  const U32_MAX: nat := TWO32 - 1
  const U64_MAX: nat := TWO64 - 1

  /** The timestamp half of `uid64`: milliseconds reduced modulo `u32::MAX`. */
  function TimeHalf64(ms: nat): (tn: nat)
    ensures tn < U32_MAX
  {
    ms % U32_MAX
  }

  /** The timestamp half of `uid128`: milliseconds reduced modulo `u64::MAX`. */
  function TimeHalf128(ms: nat): (tn: nat)
    ensures tn < U64_MAX
  {
    ms % U64_MAX
  }

  /**
    The round trip the program asserts before packing: shifting a `u32` left
    by 32 as a `u64`, then right by 32 and back to `u32`, loses nothing.
   */
  lemma ShiftRoundTrip32(tn: nat)
    requires tn < TWO32
    ensures ((tn * TWO32) % TWO64 / TWO32) % TWO32 == tn
  {
    assert tn * TWO32 < TWO64;
  }

  /**
    `uid64`: `((tn as u64) << 32) + (rn as u64)`. The sum never overflows;
    the high 32 bits are the timestamp half and the low 32 bits the draw.
   */
  function Uid64(ms: nat, rn: nat): (id: nat)
    requires rn < TWO32
    ensures id < TWO64
    ensures id / TWO32 == TimeHalf64(ms)
    ensures id % TWO32 == rn
  {
    var tn := TimeHalf64(ms);
    var shifted := (tn * TWO32) % TWO64;
    shifted + rn
  }

  /**
    `uid128`: `((tn as u128) << 64) + (rn as u128)`. The sum never overflows;
    the high 64 bits are the timestamp half and the low 64 bits the draw.
   */
  function Uid128(ms: nat, rn: nat): (id: nat)
    requires rn < TWO64
    ensures id < TWO128
    ensures id / TWO64 == TimeHalf128(ms)
    ensures id % TWO64 == rn
  {
    var tn := TimeHalf128(ms);
    var shifted := (tn * TWO64) % TWO128;
    shifted + rn
  }

  /** Two `uid64` values collide exactly when both the timestamp halves and the draws agree. */
  lemma Uid64Collision(ms1: nat, rn1: nat, ms2: nat, rn2: nat)
    requires rn1 < TWO32 && rn2 < TWO32
    ensures Uid64(ms1, rn1) == Uid64(ms2, rn2) <==>
              TimeHalf64(ms1) == TimeHalf64(ms2) && rn1 == rn2
  {
    var a, b := Uid64(ms1, rn1), Uid64(ms2, rn2);
    assert a == a / TWO32 * TWO32 + a % TWO32;
    assert b == b / TWO32 * TWO32 + b % TWO32;
  }

  /** Two `uid128` values collide exactly when both the timestamp halves and the draws agree. */
  lemma Uid128Collision(ms1: nat, rn1: nat, ms2: nat, rn2: nat)
    requires rn1 < TWO64 && rn2 < TWO64
    ensures Uid128(ms1, rn1) == Uid128(ms2, rn2) <==>
              TimeHalf128(ms1) == TimeHalf128(ms2) && rn1 == rn2
  {
    var a, b := Uid128(ms1, rn1), Uid128(ms2, rn2);
    assert a == a / TWO64 * TWO64 + a % TWO64;
    assert b == b / TWO64 * TWO64 + b % TWO64;
  }

  /**
    The timestamp half of `uid64` repeats every `u32::MAX` milliseconds
    (2^32 - 1, not 2^32), and its all-ones value is never produced.
   */
  lemma Uid64Period(ms: nat, rn: nat)
    requires rn < TWO32
    ensures Uid64(ms + U32_MAX, rn) == Uid64(ms, rn)
    ensures Uid64(ms, rn) / TWO32 != U32_MAX
  {
    assert (ms + U32_MAX) % U32_MAX == ms % U32_MAX;
  }

  /** The timestamp half of `uid128` repeats every `u64::MAX` milliseconds. */
  lemma Uid128Period(ms: nat, rn: nat)
    requires rn < TWO64
    ensures Uid128(ms + U64_MAX, rn) == Uid128(ms, rn)
    ensures Uid128(ms, rn) / TWO64 != U64_MAX
  {
    assert (ms + U64_MAX) % U64_MAX == ms % U64_MAX;
  }
}
