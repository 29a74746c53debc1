# trid: base-N codec and time-plus-random UIDs, in Dafny

This project models the two pure pieces of `src/main.rs` and proves facts about them.

- **The base-N codec.** `bn_encode(i, alphabet)` writes a `u128` as a string over a caller-supplied alphabet. The symbol at position `d` is digit `d`, and the base is the alphabet's length. Digits are chosen least significant first: at position `k` the digit is `((i - curr) / base^k) % base`, and `curr` grows by `digit * base^k` until it equals `i`. The pushed symbols are then reversed. `bn_decode(s, alphabet)` reads the string from the end and sums `position(c) * base^e`. Here `position` is the first index of `c` in the alphabet.
- **UID packing.** `uid64` puts `ms % u32::MAX` in the high 32 bits and a random `u32` in the low 32 bits. `uid128` does the same with `ms % u64::MAX` and a random `u64` in 64-bit halves.

Files:

- `Positional.dfy` (module `Positional`): positional notation on digit sequences. It defines the width bounds 2^32, 2^64 and 2^128, `Pow`, the value `Eval` of a digit sequence, and the canonical digits `ToDigits` of a number. It proves the concatenation law, the length bounds, and that canonical digit sequences are unique.
- `Codec.dfy` (module `Codec`): alphabets, the first-occurrence `Index`, and the reference meanings `Decode` and `Encode`. `BnEncode` and `BnDecode` follow the two Rust loops. Their `u128` arithmetic is shown to stay in range by asserts in the loop bodies. `RoundTrip` is the driver's encode-then-decode check.
- `Reference.dfy` (module `Reference`): the driver's 62-symbol `ALPHABET`, shown to be duplicate-free, some concrete encodings over it, and the driver's round trip of a `uid128` over it.
- `Uid.dfy` (module `Uid`): the packing arithmetic of `uid64` and `uid128`. The clock reading and the random draw are parameters.

Facts about the code that the model keeps:

- `uid64` reduces the timestamp modulo `u32::MAX` = 2^32 − 1, and `uid128` modulo `u64::MAX` = 2^64 − 1. So the high half never takes its all-ones value, and it repeats every 2^32 − 1 (or 2^64 − 1) milliseconds.
- The halves are joined with `+`. The model proves that the sum never carries into the high half.
- The code returns no error values: it panics or loops, and each such case is a precondition here.
- `bn_encode(0, …)` is the empty string, whatever the alphabet.

## Model

| member | source | states |
|---|---|---|
| Codec.Index | src/main.rs:36 | needs `c` in the alphabet (the `unwrap`); the result is a position holding `c`, and no earlier position holds `c` |
| Codec.BnEncode | src/main.rs:9-28 | for `i < 2^128` and an alphabet of two or more symbols (any alphabet when `i == 0`), the output is the canonical string `Encode(i, a)`; it is empty exactly when `i == 0`; it uses only alphabet symbols; `base^(L-1) <= i < base^L` for its length `L`; over a duplicate-free alphabet it has no leading `a[0]` and decodes back to `i`; the loop invariant is `curr` = value of the digits so far, `curr <= i`, and `base^k` divides `i - curr` |
| Codec.EncodeStep | src/main.rs:19-20 | one step of the encoder: `base^k <= i - curr`; adding `digit * base^k` keeps `curr <= i`; the rest is a multiple of `base^(k+1)`; the step that reaches `i` emits a nonzero digit |
| Codec.EncoderIteration | src/main.rs:18-24 | one pass of the loop from `curr < i`: `base^k` fits in `u128` and `k` in `u32`; the digit is below the base; the new `curr` is at most `i` and is the value of the digits with the new one in front; `i - curr` stays a multiple of the next power and the measure shrinks; the pass that reaches `i` pushes a nonzero digit |
| Codec.ExponentBelow128 | src/main.rs:16-24 | with a base of at least two, an exponent whose power fits in `u128` is below 128; so `symbol_position` and `exponent as u32` never lose bits |
| Codec.PushedDigitsAreEncoding | src/main.rs:22-27 | when the loop ends with canonical digits worth `i`, the reversed pushed symbols are exactly `Encode(i, a)` |
| Codec.BnDecode | src/main.rs:30-41 | when every symbol is in the alphabet, the value fits in `u128` and so does the largest power `base^(len-1)`, the summed result equals `Decode(s, a)` |
| Codec.DecodeBasics | src/main.rs:34-38 | the empty string decodes to 0; a one-symbol string decodes to the symbol's index |
| Codec.DecodeConcat | src/main.rs:35-38 | `decode(s1 ++ s2) == decode(s1) * base^|s2| + decode(s2)` |
| Codec.DecodeBelowPow | src/main.rs:35-38 | a string of `k` alphabet symbols decodes to less than `base^k` |
| Codec.EncodeShape | src/main.rs:15-27 | the canonical string uses alphabet symbols only; it is empty exactly for 0; it has minimal length (`base^(L-1) <= n < base^L`); over a duplicate-free alphabet it has no leading `a[0]` and decodes to `n` |
| Codec.EncodeDistinct | src/main.rs:15-27 | over a duplicate-free alphabet, reading the symbols of `Encode(n, a)` back through `position` gives the canonical digits of `n`, so the string has no leading `a[0]` and decodes to `n` |
| Codec.EncodeDecode | src/main.rs:9-41 | a string of alphabet symbols without a leading `a[0]` is the encoding of its own decoded value |
| Codec.EncodingsInjective | src/main.rs:30-41 | two such strings decode to the same number exactly when they are equal |
| Codec.EncodingPowBound | src/main.rs:37 | for such a string, `base^(len-1)` is at most its value, so the decoder's power stays in `u128` whenever the value does |
| Codec.RoundTrip | src/main.rs:87-90 | for every `id < 2^128` and every duplicate-free alphabet of two or more symbols, decoding the encoder's output gives `id` back; the decoder's preconditions hold for that output |
| Positional.EvalAppend | src/main.rs:35-38 | concatenation law for digit values: `Eval(x ++ y) == Eval(x) * b^|y| + Eval(y)` |
| Positional.CanonicalIsToDigits | src/main.rs:18-25 | a digit sequence with digits below the base and no leading zero is the canonical digit sequence of its value, so it is unique |
| Positional.ToDigitsLength | src/main.rs:18-27 | the canonical digit count `L` of `n > 0` satisfies `b^(L-1) <= n < b^L` |
| Reference.ReferenceAlphabet | src/main.rs:1 | `ALPHABET` has 62 symbols, all distinct, at the positions their character codes predict |
| Reference.ReferenceExamples | src/main.rs:1 | over `ALPHABET`: 0 ↦ "", 1 ↦ "A", 61 ↦ "9", 62 ↦ "Aa" (with `BnEncode`'s contract, these are what `bn_encode` returns) |
| Reference.DriverExample | src/main.rs:78-80 | the driver's example 512312 encodes over `ALPHABET` as "bEId", four symbols |
| Reference.DriverRoundTrip | src/main.rs:87-90 | for every clock reading and every 64-bit draw, the `uid128` encoded over `ALPHABET` is its canonical string, and decoding it gives the same id |
| Uid.TimeHalf64 | src/main.rs:48 | the timestamp half of `uid64` is below `u32::MAX`, so the `as u32` cast loses nothing |
| Uid.TimeHalf128 | src/main.rs:66 | the timestamp half of `uid128` is below `u64::MAX`, so the `as u64` cast loses nothing |
| Uid.ShiftRoundTrip32 | src/main.rs:51-54 | a `u32` shifted left by 32 as a `u64`, then right by 32 and cast back to `u32`, is unchanged |
| Uid.Uid64 | src/main.rs:43-59 | for a draw `rn < 2^32`, the id is below 2^64 (no overflow in the addition); `id / 2^32` is `ms % u32::MAX` and `id % 2^32` is `rn` |
| Uid.Uid128 | src/main.rs:61-72 | for a draw `rn < 2^64`, the id is below 2^128; `id / 2^64` is `ms % u64::MAX` and `id % 2^64` is `rn` |
| Uid.Uid64Collision | src/main.rs:56 | two `uid64` ids are equal exactly when their timestamp halves and their draws are equal |
| Uid.Uid128Collision | src/main.rs:69 | two `uid128` ids are equal exactly when their timestamp halves and their draws are equal |
| Uid.Uid64Period | src/main.rs:48 | `uid64` repeats after `u32::MAX` milliseconds, and its high half is never `u32::MAX` |
| Uid.Uid128Period | src/main.rs:66 | `uid128` repeats after `u64::MAX` milliseconds, and its high half is never `u64::MAX` |

## Left out

- `main` (src/main.rs:74-122) is not modelled beyond the round-trip assertion at line 90. It prints to the console, times with `Instant`, runs a `HashSet` collision benchmark with a retry loop, and prints an `f64` percentage. All of that is I/O and floating point.
- `SystemTime::now()` and its `unwrap` (which panics for a clock before the epoch) are replaced by the millisecond parameter `ms`. `rand::thread_rng()` is replaced by the draw parameter `rn`. These are foreign, effectful calls.
- Uniqueness and collision probability of UIDs are statistical and not stated. Only the exact collision condition is proved (`Uid64Collision`, `Uid128Collision`).
- Alphabets of fewer than two symbols with `i > 0` are excluded by `BnEncode`'s precondition. With 0 symbols the code divides by zero. With 1 symbol the digit is always 0, so the loop makes no progress and never returns a result. It ends in a panic on the `u32` overflow of `symbol_position`, or by running out of memory.
- `BnDecode`: its preconditions stand for the code's panics.
  - A symbol missing from the alphabet makes the `unwrap` panic.
  - Arithmetic beyond `u128` panics, as in a build with overflow checks.
  - The wrapping arithmetic of a build without overflow checks is not modelled.
  - The largest power `base^(len-1)` must fit as well as the value. A string padded with many leading `a[0]` overflows in `pow` even though its value is small.
- The model assumes `u128::pow` overflows exactly when the true power is at least 2^128. Rust's square-and-multiply never overflows in an intermediate step when the result fits.
- For a one-symbol alphabet the decoder's exponent is not bounded. Its `as u32` truncation is not modelled, but it would not change the result, because every power of 1 is 1.
- Rust `char`s are Unicode scalar values and Dafny `char`s are modelled as the same symbols. The UTF-8 encoding of `String` plays no part in the arithmetic.
