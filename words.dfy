/**
 * Unsigned 64-bit machine words (`uint64_t`) and the operations the bit
 * vector applies to them: single-bit extraction, bitwise AND/OR/XOR/NOT and
 * the two shifts. A word is an integer in [0, 2^64); every operation is
 * defined on integers, so that the arithmetic of the ripple adder and the
 * bitwise view of the same word are one and the same value. Shifts are
 * written as repeated doubling and halving, which is what `<<` and `>>` on an
 * unsigned 64-bit value do one position at a time.
 */
module Words {

  /** Number of bits in a storage word (`W`). */
  const W: nat := 64
  /** `log2(W)`: a position shifted right by SHIFT is its word index. */
  const SHIFT: nat := 6
  /** `W - 1`: a position masked with MASK is its offset inside the word. */
  const MASK: nat := 0x3F

  /** 2^64: one more than the largest word. */
  const BASE: int := 0x1_0000_0000_0000_0000
  /** The all-ones word 0xFFFFFFFFFFFFFFFF. */
  const MAX: int := 0xFFFF_FFFF_FFFF_FFFF

  type Word = x: int | 0 <= x < BASE

  /** The largest signed `int` of the C++ data model (32-bit `int`). */
  const INT_MAX: int := 0x7FFF_FFFF

  function Pow2(n: nat): (p: nat)
    ensures p >= 1
  {
    if n == 0 then 1 else 2 * Pow2(n - 1)
  }

  /** Bit `k` of `w`, least significant first: 0 or 1. */
  function Bit(w: nat, k: nat): (b: nat)
    ensures b == 0 || b == 1
  {
    if k == 0 then w % 2 else Bit(w / 2, k - 1)
  }

  datatype BitOp = AndOp | OrOp | XorOp

  /** The boolean operation on two single bits. */
  function Combine(op: BitOp, x: nat, y: nat): (z: nat)
    requires x <= 1 && y <= 1
    ensures z <= 1
    ensures op == AndOp ==> (z == 1 <==> x == 1 && y == 1)
    ensures op == OrOp ==> (z == 1 <==> x == 1 || y == 1)
    ensures op == XorOp ==> (z == 1 <==> x != y)
  {
    match op
    case AndOp => if x == 1 && y == 1 then 1 else 0
    case OrOp => if x == 1 || y == 1 then 1 else 0
    case XorOp => if x != y then 1 else 0
  }

  /** The low `n` bits of `a op b`, computed one bit at a time. */
  function Bitwise(op: BitOp, a: nat, b: nat, n: nat): nat
  {
    if n == 0 then 0
    else Combine(op, a % 2, b % 2) + 2 * Bitwise(op, a / 2, b / 2, n - 1)
  }

  /** n bits of `a op b` stay below 2^n. */
  lemma {:induction false} BitwiseBound(op: BitOp, a: nat, b: nat, n: nat)
    ensures Bitwise(op, a, b, n) < Pow2(n)
  {
    if n > 0 {
      BitwiseBound(op, a / 2, b / 2, n - 1);
    }
  }

  /** `a & b` on 64-bit words. */
  function BitAnd(a: Word, b: Word): Word
  {
    BitwiseBound(AndOp, a, b, W); Pow2Word(); Bitwise(AndOp, a, b, W)
  }

  /** `a | b` on 64-bit words. */
  function BitOr(a: Word, b: Word): Word
  {
    BitwiseBound(OrOp, a, b, W); Pow2Word(); Bitwise(OrOp, a, b, W)
  }

  /** `a ^ b` on 64-bit words. */
  function BitXor(a: Word, b: Word): Word
  {
    BitwiseBound(XorOp, a, b, W); Pow2Word(); Bitwise(XorOp, a, b, W)
  }

  /** `~w`: the two's-complement identity ~w == 2^64 - 1 - w. */
  function BitNot(w: Word): Word
  {
    MAX - w
  }

  /** `w << s` for 0 <= s < 64: doubling s times, bit 63 falling off each time. */
  function Shl(w: Word, s: nat): Word
    requires s < W
    decreases s
  {
    if s == 0 then w else Shl((2 * w) % BASE, s - 1)
  }

  /** `w >> s` for 0 <= s < 64: halving s times, zeros coming in at the top. */
  function Shr(w: Word, s: nat): (r: Word)
    requires s < W
    ensures r <= w
  {
    if s == 0 then w else Shr(w / 2, s - 1)
  }

  /** A buffer of n zero words. */
  function Zeros(n: nat): (ws: seq<Word>)
    ensures |ws| == n
  {
    seq(n, _ => 0)
  }

  // ---------------------------------------------------------------------
  // Powers of two.

  lemma {:induction false} Pow2Word()
    ensures Pow2(W) == BASE
  {
    assert Pow2(2) == 4;
    Pow2Add(2, 2);
    assert Pow2(4) == 16;
    Pow2Add(4, 4);
    assert Pow2(8) == 0x100;
    Pow2Add(8, 8);
    assert Pow2(16) == 0x1_0000;
    Pow2Add(16, 16);
    assert Pow2(32) == 0x1_0000_0000;
    Pow2Add(32, 32);
  }

  lemma {:induction false} Pow2Add(a: nat, b: nat)
    ensures Pow2(a + b) == Pow2(a) * Pow2(b)
  {
    if a > 0 {
      Pow2Add(a - 1, b);
      assert Pow2(a + b) == 2 * Pow2(a - 1 + b);
    }
  }

  // ---------------------------------------------------------------------
  // Bits of words.

  lemma {:induction false} BitZero(k: nat)
    ensures Bit(0, k) == 0
  {
    if k > 0 {
      BitZero(k - 1);
    }
  }

  /** A number below 2^n has no bit at position n or above. */
  lemma {:induction false} BitAbove(w: nat, n: nat, k: nat)
    requires w < Pow2(n) && n <= k
    ensures Bit(w, k) == 0
  {
    if n == 0 {
      BitZero(k);
    } else {
      BitAbove(w / 2, n - 1, k - 1);
    }
  }

  /** Removing 2^n from a number does not change its bits below n. */
  lemma {:induction false} BitMinusPow2(x: nat, n: nat, k: nat)
    requires x >= Pow2(n) && k < n
    ensures Bit(x - Pow2(n), k) == Bit(x, k)
  {
    assert Pow2(n) == 2 * Pow2(n - 1);
    if k > 0 {
      assert (x - Pow2(n)) / 2 == x / 2 - Pow2(n - 1);
      BitMinusPow2(x / 2, n - 1, k - 1);
    }
  }

  /** Two numbers below 2^n with the same n low bits are equal. */
  lemma {:induction false} BitsDetermine(x: nat, y: nat, n: nat)
    requires x < Pow2(n) && y < Pow2(n)
    requires forall k :: 0 <= k < n ==> Bit(x, k) == Bit(y, k)
    ensures x == y
  {
    if n > 0 {
      assert Bit(x, 0) == Bit(y, 0);
      forall k | 0 <= k < n - 1
        ensures Bit(x / 2, k) == Bit(y / 2, k)
      {
        assert Bit(x, k + 1) == Bit(y, k + 1);
      }
      BitsDetermine(x / 2, y / 2, n - 1);
    }
  }

  /** Each bit of a bitwise combination is the operation on the two bits. */
  lemma {:induction false} BitOfBitwise(op: BitOp, a: nat, b: nat, n: nat, k: nat)
    ensures Bit(Bitwise(op, a, b, n), k)
         == if k < n then Combine(op, Bit(a, k), Bit(b, k)) else 0
  {
    if n == 0 {
      BitZero(k);
    } else if k > 0 {
      var rest := Bitwise(op, a / 2, b / 2, n - 1);
      var c := Combine(op, a % 2, b % 2);
      assert Bitwise(op, a, b, n) == c + 2 * rest;
      assert (c + 2 * rest) / 2 == rest;
      BitOfBitwise(op, a / 2, b / 2, n - 1, k - 1);
    }
  }

  /** Bit k of `2^n - 1 - w` is the complement of bit k of `w`. */
  lemma {:induction false} BitOfComplement(w: nat, n: nat, k: nat)
    requires w < Pow2(n) && k < n
    ensures Bit(Pow2(n) - 1 - w, k) == 1 - Bit(w, k)
  {
    var c := Pow2(n) - 1 - w;
    assert Pow2(n) == 2 * Pow2(n - 1);
    assert c == 2 * (Pow2(n - 1) - 1 - w / 2) + (1 - w % 2);
    if k > 0 {
      assert c / 2 == Pow2(n - 1) - 1 - w / 2;
      BitOfComplement(w / 2, n - 1, k - 1);
    }
  }

  lemma {:induction false} BitwiseWithZero(x: nat, n: nat)
    ensures Bitwise(AndOp, x, 0, n) == 0
  {
    if n > 0 {
      BitwiseWithZero(x / 2, n - 1);
    }
  }

  // ---------------------------------------------------------------------
  // The word operations, stated bit by bit.

  /** `(w >> s) & 1` is bit s of w, which is how a single bit is read. */
  lemma {:induction false} ExtractBit(w: Word, s: nat)
    requires s < W
    ensures BitAnd(Shr(w, s), 1) == Bit(w, s)
  {
    var x := Shr(w, s);
    BitwiseWithZero(x / 2, W - 1);
    assert BitAnd(x, 1) == x % 2;
    BitOfShr(w, s, 0);
  }

  /** With W = 64 and SHIFT = 6, `p >> SHIFT` is the word index `p / 64`. */
  lemma {:induction false} WordIndex(p: Word)
    ensures Shr(p, SHIFT) == p / W
  {
    var p1 := p / 2;
    var p2 := p1 / 2;
    var p3 := p2 / 2;
    var p4 := p3 / 2;
    var p5 := p4 / 2;
    assert Shr(p, 6) == Shr(p1, 5) == Shr(p2, 4) == Shr(p3, 3) == Shr(p4, 2) == Shr(p5, 1);
    assert Shr(p5, 1) == p5 / 2;
  }

  /** The low m bits of x, as a number. */
  function LowBits(x: nat, m: nat): (r: nat)
    ensures r < Pow2(m)
  {
    if m == 0 then 0 else x % 2 + 2 * LowBits(x / 2, m - 1)
  }

  /** `x & (2^m - 1)` keeps the low m bits of x. */
  lemma {:induction false} AndLowMask(x: nat, m: nat, n: nat)
    requires m <= n
    ensures Bitwise(AndOp, x, Pow2(m) - 1, n) == LowBits(x, m)
  {
    if m == 0 {
      BitwiseWithZero(x, n);
    } else {
      var mask := Pow2(m) - 1;
      assert mask == 2 * (Pow2(m - 1) - 1) + 1;
      assert mask % 2 == 1 && mask / 2 == Pow2(m - 1) - 1;
      AndLowMask(x / 2, m - 1, n - 1);
    }
  }

  /** Division is determined by quotient and remainder. */
  lemma {:induction false} DivModUnique(x: int, d: int, q: int, r: int)
    requires d > 0 && 0 <= r < d && x == d * q + r
    ensures x / d == q && x % d == r
  {
    var q0, r0 := x / d, x % d;
    assert d * q0 + r0 == d * q + r;
    MulDiffBound(d, q0, q);
  }

  /** Distinct multiples of d are at least d apart. */
  lemma {:induction false} MulDiffBound(d: int, a: int, b: int)
    requires d > 0
    ensures a == b || d * a - d * b >= d || d * b - d * a >= d
  {
    if a > b {
      assert d * a - d * b == d * (a - b);
      MulAtLeast(d, a - b);
    } else if a < b {
      assert d * b - d * a == d * (b - a);
      MulAtLeast(d, b - a);
    }
  }

  lemma {:induction false} MulAtLeast(d: int, t: int)
    requires d > 0 && t >= 1
    ensures d * t >= d
  {
    assert d * t == d * (t - 1) + d;
  }

  /** One halving step of a remainder by a power of two. */
  lemma {:induction false} ModDouble(x: nat, c: nat)
    requires c >= 1
    ensures x % (2 * c) == x % 2 + 2 * ((x / 2) % c)
  {
    var q, r := x / (2 * c), x % (2 * c);
    var cq := c * q;
    assert (2 * c) * q == 2 * cq;
    assert x == 2 * cq + r;
    var h := r / 2;
    assert r == 2 * h + r % 2;
    DivModUnique(x, 2, cq + h, r % 2);
    DivModUnique(x / 2, c, q, h);
  }

  /** The low k bits of x are `x % 2^k`. */
  lemma {:induction false} LowBitsMod(x: nat, k: nat)
    ensures LowBits(x, k) == x % Pow2(k)
  {
    if k > 0 {
      LowBitsMod(x / 2, k - 1);
      ModDouble(x, Pow2(k - 1));
    }
  }

  /** With W = 64 and MASK = 0x3F, `p & MASK` is the offset `p % 64`. */
  lemma {:induction false} WordOffset(p: Word)
    ensures BitAnd(p, MASK) == p % W
  {
    assert Pow2(6) - 1 == MASK;
    AndLowMask(p, 6, W);
    LowBitsMod(p, 6);
  }

  /**
   * With W = 64, SHIFT = 6 and MASK = 0x3F, `p >> SHIFT` is the word index
   * `p / 64` and `p & MASK` the offset `p % 64`.
   */
  lemma {:induction false} IndexDecomposition(p: Word)
    ensures Shr(p, SHIFT) == p / W
    ensures BitAnd(p, MASK) == p % W
  {
    WordIndex(p);
    WordOffset(p);
  }

  lemma {:induction false} BitOfAnd(a: Word, b: Word, k: nat)
    requires k < W
    ensures Bit(BitAnd(a, b), k) == 1 <==> Bit(a, k) == 1 && Bit(b, k) == 1
  {
    BitOfBitwise(AndOp, a, b, W, k);
  }

  lemma {:induction false} BitOfOr(a: Word, b: Word, k: nat)
    requires k < W
    ensures Bit(BitOr(a, b), k) == 1 <==> Bit(a, k) == 1 || Bit(b, k) == 1
  {
    BitOfBitwise(OrOp, a, b, W, k);
  }

  lemma {:induction false} BitOfXor(a: Word, b: Word, k: nat)
    requires k < W
    ensures Bit(BitXor(a, b), k) == 1 <==> Bit(a, k) != Bit(b, k)
  {
    BitOfBitwise(XorOp, a, b, W, k);
  }

  lemma {:induction false} BitOfNot(w: Word, k: nat)
    requires k < W
    ensures Bit(BitNot(w), k) == 1 - Bit(w, k)
  {
    Pow2Word();
    BitOfComplement(w, W, k);
  }

  /** Doubling modulo 2^64 moves every bit up by one and drops bit 63. */
  lemma {:induction false} BitOfDouble(w: Word, k: nat)
    requires k < W
    ensures Bit((2 * w) % BASE, k) == if k >= 1 then Bit(w, k - 1) else 0
  {
    var d := 2 * w;
    if d >= BASE {
      Pow2Word();
      assert d % BASE == d - BASE;
      BitMinusPow2(d, W, k);
    } else {
      assert d % BASE == d;
    }
    if k >= 1 {
      assert d / 2 == w;
    } else {
      assert d % 2 == 0;
    }
  }

  /** Bit k of `w << s` is bit k - s of w, and 0 below s. */
  lemma {:induction false} BitOfShl(w: Word, s: nat, k: nat)
    requires s < W && k < W
    ensures Bit(Shl(w, s), k) == if k >= s then Bit(w, k - s) else 0
    decreases s
  {
    if s > 0 {
      var d := (2 * w) % BASE;
      BitOfShl(d, s - 1, k);
      if k >= s - 1 {
        BitOfDouble(w, k - (s - 1));
      }
    }
  }

  /** Bit k of `w >> s` is bit k + s of w, and 0 once k + s reaches 64. */
  lemma {:induction false} BitOfShr(w: Word, s: nat, k: nat)
    requires s < W
    ensures Bit(Shr(w, s), k) == if k + s < W then Bit(w, k + s) else 0
  {
    if s > 0 {
      BitOfShr(w / 2, s - 1, k);
      assert Bit(w, k + s) == Bit(w / 2, k + s - 1);
    }
    if k + s >= W {
      Pow2Word();
      BitAbove(w, W, k + s);
    }
  }

  /** Bit j of `1 << k` is set exactly at j == k. */
  lemma {:induction false} BitOfMask(k: nat, j: nat)
    requires k < W && j < W
    ensures Bit(Shl(1, k), j) == if j == k then 1 else 0
  {
    BitOfShl(1, k, j);
    if j > k {
      BitZero(j - k - 1);
    }
  }

  /** Two words with the same 64 bits are the same word. */
  lemma {:induction false} WordsEqualByBits(x: Word, y: Word)
    requires forall k :: 0 <= k < W ==> Bit(x, k) == Bit(y, k)
    ensures x == y
  {
    Pow2Word();
    BitsDetermine(x, y, W);
  }
}
