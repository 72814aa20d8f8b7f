# bitvec64 in Dafny

A model of `Bitvec`, the fixed-width bit vector of bitvec64. A vector of
`nbits` bits is stored in `nblocks = 1 + nbits / 64` unsigned 64-bit words,
least significant word first: bit `p` is bit `p % 64` of word `p / 64`. The
operations read or change that word buffer in place: bit get/set/unset,
`clear`, word-wise NOT/AND/OR/XOR, multi-word left and right shifts,
ripple-carry add, ripple-borrow subtract, and `to_string`, which prints the
`nbits` low bits most significant first.

The project has four modules:

- `Words` (words.dfy): a 64-bit word as an integer in `[0, 2^64)`, and the
  constants `W = 64`, `SHIFT = 6` and `MASK = 0x3F`. AND, OR and XOR are
  defined bit by bit; NOT is 2^64 - 1 - w, proved bitwise by `BitOfNot`.
  `<<` is doubling modulo 2^64 and `>>` is halving.
  The lemmas here relate each bit of a result to the bits of its operands.
- `Blocks` (blocks.dfy): the bit view of a word sequence (`BitsOf`). It
  defines the word-level result of each bitwise operation and shift, plus
  the reference bit-level shifts `ShiftedLeft` and `ShiftedRight`. Lemmas
  connect the two levels.
- `Arith` (arith.dfy): the integer view of a word sequence (`Value`) and
  the word-by-word adder and subtractor with their carry and borrow chains.
  Lemmas give each one's value modulo `2^(64 n)`.
- `Vectors` (bitvec.dfy): the class `Bitvec`.
  - `nbits` and `nblocks` are `const` fields; the buffer is an
    `array<Word>` that the methods update in loops.
  - Two ghost views describe the state: `Bits()` (the storage as bits) and
    `IntValue()` (the storage as one unsigned integer of `64 * nblocks`
    bits).
  - Each loop method is proved against the specification functions of
    `Blocks` and `Arith`.
  - The operator wrappers (`<<=`, `>>=`, `~`, `&=`, `|=`, `^=`, `+=`, `-=`)
    return the receiver itself.

Bit counts, bit positions, shift widths and words are `Word`, the
integers below 2^64 that `std::size_t` and `uint64_t` hold. The word count
`nblocks` and word indices are `nat`. `Valid()` fixes `nblocks` at
`1 + nbits / 64` and at the buffer's length, and every word index is
required to be below it. The add loop keeps the
source's carry test exactly as written. See "Findings" below.

## Model

| member | source | states |
|---|---|---|
| Words.IndexDecomposition | src/bitvec.hpp:44-46 | for every position p, `p >> SHIFT` is p / 64 and `p & MASK` is p % 64 |
| Words.ExtractBit | src/bitvec.cpp:73 | `(w >> s) & 1` is bit s of w |
| Words.BitOfAnd | src/bitvec.cpp:192 | bit k of `BitAnd(a, b)`, the model of `a & b`, is set exactly when bit k is set in both a and b |
| Words.BitOfOr | src/bitvec.cpp:199 | bit k of `BitOr(a, b)`, the model of `a \| b`, is set exactly when bit k is set in a or in b |
| Words.BitOfXor | src/bitvec.cpp:205 | bit k of `BitXor(a, b)`, the model of `a ^ b`, is set exactly when bit k of a differs from bit k of b |
| Words.BitOfNot | src/bitvec.cpp:185 | bit k of `BitNot(w)`, the model of `~w`, is the opposite of bit k of w |
| Words.BitOfShl | src/bitvec.cpp:166 | for 0 <= s < 64, bit k of `Shl(w, s)`, the model of `w << s`, is bit k - s of w when k >= s and 0 below s |
| Words.BitOfShr | src/bitvec.cpp:178 | for 0 <= s < 64, bit k of `Shr(w, s)`, the model of `w >> s`, is bit k + s of w while k + s < 64 and 0 from there on |
| Words.BitOfMask | src/bitvec.cpp:78 | `1 << k` has exactly bit k set |
| Blocks.InStorage | src/bitvec.cpp:72-84 | a position's word index is below n exactly when the position is below 64 n |
| Blocks.WordBits | src/bitvec.cpp:147-149 | bit k of word i is storage bit 64 i + k |
| Blocks.ZerosBits | src/bitvec.cpp:87-91 | all-zero words hold no set bit |
| Blocks.SetBitWords | src/bitvec.cpp:77-79 | OR-ing `1 << (p & MASK)` into word `p >> SHIFT` sets bit p and leaves every other bit, in that word and in all others, unchanged |
| Blocks.UnsetBitWords | src/bitvec.cpp:82-84 | AND-ing `~(1 << (p & MASK))` into word `p >> SHIFT` clears bit p and leaves every other bit unchanged |
| Blocks.NotWordsBits | src/bitvec.cpp:183-187 | complementing every word flips every storage bit |
| Blocks.NotWordsInvolution | src/bitvec.cpp:183-187 | complementing twice restores the original words |
| Blocks.ZipWordsBits | src/bitvec.cpp:190-207 | word-wise AND/OR/XOR make each storage bit the boolean AND/OR/XOR of the two operands' bits |
| Blocks.ZipWordsSelf | src/bitvec.hpp:63-65 | with the receiver as its own operand, AND and OR leave the words unchanged and XOR zeroes them |
| Blocks.LShiftWordBit | src/bitvec.cpp:166-168 | bit k of new word i, `LShiftWord`, is bit k - offset of old word i - width when k >= offset, and otherwise bit k + 64 - offset of old word i - width - 1; a term whose source word index is negative is 0. The spill term is 0 when offset == 0, so it contributes nothing then |
| Blocks.LShiftBitAt | src/bitvec.cpp:162-170 | bit j after the word-level left shift by wid is old bit j - wid when j >= wid, and 0 otherwise |
| Blocks.LShiftWordsBits | src/bitvec.cpp:162-170 | the word-level left shift by wid equals the reference bit shift: bits move up by wid, vacated bits are 0 and bits past the top word are dropped |
| Blocks.RShiftWordBit | src/bitvec.cpp:177-179 | bit k of new word i, `RShiftWord`, is bit k + offset of old word i + width when k + offset < 64, and otherwise bit k + offset - 64 of old word i + width + 1; a term whose source word index is at or past nblocks is 0. The spill term is 0 when offset == 0 |
| Blocks.RShiftBitAt | src/bitvec.cpp:173-181 | bit j after the word-level right shift is old bit j + wid when that is inside the storage, and 0 otherwise |
| Blocks.RShiftWordsBits | src/bitvec.cpp:173-181 | the word-level right shift by wid equals the reference bit shift: bits move down by wid, and the top wid bits become 0 |
| Arith.ValueZeros | src/bitvec.cpp:87-91 | all-zero words have integer value 0 |
| Arith.ValueZeroIsZeros | src/bitvec.cpp:87-91 | value 0 holds only for all-zero words, so a cleared vector is exactly the zero integer |
| Arith.AddStepSpec | src/bitvec.cpp:213-215 | `AddStep`, one adder step: the new word is a + b + carry, less 2^64 when that reaches 2^64. The carry out is 1 exactly when a + b + carry reaches 2^64 (which `new_block < blocks_[i]` detects except when b is all ones and a carry comes in, where the new word equals a; the all-ones clause covers that case and, as written, also fires with no carry in), or, under the test as written, when b is 0xFFFFFFFFFFFFFFFF |
| Arith.AddWordsExact | src/bitvec.cpp:210-218 | with the corrected carry, or with no all-ones addend word, the sum words plus 2^(64 n) times the final carry equal the exact integer sum |
| Arith.AddRulesAgree | src/bitvec.cpp:214-215 | when no addend word is all ones, the carry test as written and the corrected carry test give the same words |
| Arith.AddAsWrittenValue | src/bitvec.cpp:210-218 | the adder as written yields (x + y) mod 2^(64 n) whenever no addend word is all ones |
| Arith.AddAsWrittenCounterexample | src/bitvec.cpp:214-215 | adding [0xFFFFFFFFFFFFFFFF, 0] to [0, 0] with the carry test as written gives [0xFFFFFFFFFFFFFFFF, 1], which is not the sum modulo 2^128 |
| Arith.AddIntendedValue | src/bitvec.cpp:210-218 | with the corrected carry test, the adder yields (x + y) mod 2^(64 n) for every input |
| Arith.SubStepSpec | src/bitvec.cpp:224-226 | `SubStep`, one subtractor step: the borrow out is 1 exactly when b + borrow exceeds a, and the new word is a - b - borrow plus 2^64 times that borrow |
| Arith.SubWordsExact | src/bitvec.cpp:221-229 | the difference words minus 2^(64 n) times the final borrow equal the exact integer difference |
| Arith.SubWordsValue | src/bitvec.cpp:221-229 | the subtractor yields (x - y) mod 2^(64 n) for every input, wrapping on underflow |
| Arith.SubWordsSelf | src/bitvec.hpp:67 | subtracting a buffer from itself gives all zero words |
| Vectors.Digit | src/bitvec.cpp:64 | the digit of a bit is '0' or '1', and it is '1' exactly when the bit is set |
| Vectors.Reverse | src/bitvec.cpp:67 | the reversed string has the same length, and character k is character len - 1 - k of the original |
| Vectors.Bitvec.constructor | src/bitvec.cpp:40-43 | sets nbits, nblocks = 1 + nbits / 64 and a fresh buffer of that many zero words; no bit is set and the value is 0 |
| Vectors.Bitvec.Size | src/bitvec.cpp:51-53 | returns nbits; every bit below it has a word in storage |
| Vectors.Bitvec.ToString | src/bitvec.cpp:61-69 | returns exactly nbits characters, and character k is the digit of bit nbits - 1 - k |
| Vectors.Bitvec.GetBit | src/bitvec.cpp:72-74 | returns 0 or 1, and returns 1 exactly when storage bit p is set |
| Vectors.Bitvec.SetBit | src/bitvec.cpp:77-79 | the new bits are the old bits with bit p set and no other bit changed |
| Vectors.Bitvec.UnsetBit | src/bitvec.cpp:82-84 | the new bits are the old bits with bit p cleared and no other bit changed |
| Vectors.Bitvec.Clear | src/bitvec.cpp:87-91 | every word becomes 0, including the bits at or above nbits, so the value is 0 |
| Vectors.Bitvec.ShiftLeftAssign | src/bitvec.cpp:94-97 | the bits are the old bits shifted left by wid; the receiver is returned |
| Vectors.Bitvec.ShiftRightAssign | src/bitvec.cpp:100-103 | the bits are the old bits shifted right by wid; the receiver is returned |
| Vectors.Bitvec.Complement | src/bitvec.cpp:106-109 | every bit is flipped; the receiver is returned |
| Vectors.Bitvec.AndAssign | src/bitvec.cpp:112-115 | each word is the old word AND the operand's word; the receiver is returned |
| Vectors.Bitvec.OrAssign | src/bitvec.cpp:118-121 | each word is the old word OR the operand's word; the receiver is returned |
| Vectors.Bitvec.XorAssign | src/bitvec.cpp:124-127 | each word is the old word XOR the operand's word; the receiver is returned |
| Vectors.Bitvec.AddAssign | src/bitvec.cpp:130-133 | the words are those of the adder as written; the value is (x + y) mod 2^(64 nblocks) when no operand word is all ones; the receiver is returned |
| Vectors.Bitvec.SubAssign | src/bitvec.cpp:136-139 | the value is (x - y) mod 2^(64 nblocks); `v -= v` zeroes v; the receiver is returned |
| Vectors.Bitvec.BlockSize | src/bitvec.cpp:142-144 | returns nblocks, which is at least 1 and covers every bit below nbits |
| Vectors.Bitvec.GetBlock | src/bitvec.cpp:147-149 | bit k of the returned word is storage bit 64 i + k |
| Vectors.Bitvec.SetBlock | src/bitvec.cpp:152-154 | word i becomes v and every other word is unchanged |
| Vectors.Bitvec.UnsetBlock | src/bitvec.cpp:157-159 | word i becomes 0 and every other word is unchanged |
| Vectors.Bitvec.InplaceLshift | src/bitvec.cpp:162-170 | the downward loop leaves the word-level left shift of the old words, so the bits are the old bits shifted left by wid |
| Vectors.Bitvec.InplaceRshift | src/bitvec.cpp:173-181 | the upward loop leaves the word-level right shift of the old words, so the bits are the old bits shifted right by wid |
| Vectors.Bitvec.InplaceNot | src/bitvec.cpp:183-187 | every word is complemented, so every bit is flipped |
| Vectors.Bitvec.InplaceAnd | src/bitvec.cpp:190-194 | each bit becomes old bit AND operand bit; `v &= v` leaves v unchanged |
| Vectors.Bitvec.InplaceOr | src/bitvec.cpp:197-201 | each bit becomes old bit OR operand bit; OR-ing v into itself leaves v unchanged |
| Vectors.Bitvec.InplaceXor | src/bitvec.cpp:203-207 | each bit becomes old bit XOR operand bit; `v ^= v` zeroes v |
| Vectors.Bitvec.InplaceAdd | src/bitvec.cpp:210-218 | the loop with its carry variable leaves exactly the adder's words, computed with the carry test as written |
| Vectors.Bitvec.InplaceSub | src/bitvec.cpp:221-229 | the loop with its borrow variable leaves exactly the subtractor's words |
| Vectors.FreshString | src/bitvec.cpp:40-43 | a freshly constructed vector of n bits prints as n zeros |
| Vectors.DefaultVector | src/bitvec.hpp:48 | a default-constructed vector has size 0, one word, value 0 and prints as the empty string |
| Vectors.SetUnsetGet | src/bitvec.cpp:72-84 | after set_bit(p), get_bit(p) is 1; after unset_bit(p), it is 0 |

## Left out

- `print` (src/bitvec.cpp:56-58) writes `to_string()` to a stream. Output is not modelled; `ToString` covers the logic.
- The destructor and the raw `new[]`/`delete[]` are not modelled. The buffer is a Dafny array allocated once, by the constructor.
- The implicit shallow copy of a `Bitvec`, a C++ lifetime matter, is not modelled.
- Several source operations have undefined behaviour, which the model turns into preconditions instead of modelling the out-of-bounds access:
  - a bit position outside the storage (`p / 64 < nblocks` is required);
  - a block index outside the storage;
  - an operand with fewer words than the receiver.
- The shifts compute `width`, `offset` and the loop index in a signed C++ `int`. The model does not model `int` overflow. It requires instead:
  - `wid / 64 <= 2^31 - 1` and `nblocks <= 2^31` for the left shift;
  - `nblocks + wid / 64 <= 2^31 - 1` for the right shift.
- When `wid % 64 == 0`, the shifts compute `x >> 64` (src/bitvec.cpp:167) or `x << 64` (src/bitvec.cpp:177). In C++ that is undefined. The model makes that term 0, which is the value the shift formulas need.
- The test harness (tests/test_bitvec.cpp) is not modelled. `FreshString` and `SetUnsetGet` state its expectations for construction and bit access. `DefaultVector` states what the default argument `nbits = 0` (src/bitvec.hpp:48) gives.
- Vectors.Bitvec.AddAssign: states the integer sum only when no word of the operand is all ones, because the carry test as written is wrong otherwise (see Findings). The words themselves are stated for every input.
- Arith.AddAsWrittenValue: states the integer sum only when no addend word is all ones, for the same reason.
- The corrected carry test is used by the lemmas that state the intended behaviour. The class's add loop keeps the carry test as written.

## Findings

| source | as written | input that shows it | evidently intended | confidence | as-written member | corrected member |
|---|---|---|---|---|---|---|
| src/bitvec.cpp:214-215 | the carry out of a word is set when the new word is below the old word or when the addend word is 0xFFFFFFFFFFFFFFFF, so an all-ones addend word always carries, even with no carry in | receiver words [0, 0] plus operand words [0xFFFFFFFFFFFFFFFF, 0] give [0xFFFFFFFFFFFFFFFF, 1] instead of [0xFFFFFFFFFFFFFFFF, 0] | an all-ones addend word carries only when a carry comes in, as in the subtract loop at src/bitvec.cpp:225-226 | not executed | Arith.AddAsWrittenCounterexample | Arith.AddIntendedValue |
