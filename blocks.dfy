/**
 * Specifications over the word buffer of a bit vector, as a sequence of
 * 64-bit words: its view as a sequence of bits (bit j lives in word j / 64 at
 * offset j % 64, little-endian), and the word-level formulas of NOT, AND, OR,
 * XOR and the two multi-word shifts, each proved equal to a plain definition
 * on the bit view.
 */
module Blocks {
  import opened Words

  /** Storage bit j: bit j % 64 of word j / 64. */
  function BitAt(ws: seq<Word>, j: nat): bool
    requires j < W * |ws|
  {
    Bit(ws[j / W], j % W) == 1
  }

  /** The bit view of a word buffer, least significant bit first. */
  function BitsOf(ws: seq<Word>): (bits: seq<bool>)
    ensures |bits| == W * |ws|
  {
    seq(W * |ws|, j requires 0 <= j < W * |ws| => BitAt(ws, j))
  }

  /** An all-zero buffer has no bit set. */
  lemma {:induction false} ZerosBits(n: nat)
    ensures forall j :: 0 <= j < W * n ==> !BitsOf(Zeros(n))[j]
  {
    forall j | 0 <= j < W * n
      ensures !BitsOf(Zeros(n))[j]
    {
      BitZero(j % W);
    }
  }

  /** Two buffers of the same length with the same bits are equal. */
  lemma {:induction false} BitsOfInjective(a: seq<Word>, b: seq<Word>)
    requires |a| == |b| && BitsOf(a) == BitsOf(b)
    ensures a == b
  {
    forall i | 0 <= i < |a|
      ensures a[i] == b[i]
    {
      forall k | 0 <= k < W
        ensures Bit(a[i], k) == Bit(b[i], k)
      {
        var j := W * i + k;
        assert j / W == i && j % W == k;
        assert BitsOf(a)[j] == BitsOf(b)[j];
      }
      WordsEqualByBits(a[i], b[i]);
    }
  }

  // ---------------------------------------------------------------------
  // Setting and clearing one bit.

  /** `w | (1 << k)`: word w with bit k set. */
  lemma {:induction false} SetBitWords(ws: seq<Word>, p: nat)
    requires p / W < |ws|
    ensures BitsOf(ws[p / W := BitOr(ws[p / W], Shl(1, p % W))])
            == BitsOf(ws)[p := true]
  {
    var i, k := p / W, p % W;
    var ws' := ws[i := BitOr(ws[i], Shl(1, k))];
    forall j | 0 <= j < W * |ws|
      ensures BitsOf(ws')[j] == BitsOf(ws)[p := true][j]
    {
      if j / W == i {
        BitOfOr(ws[i], Shl(1, k), j % W);
        BitOfMask(k, j % W);
      }
    }
  }

  /** `w & ~(1 << k)`: word w with bit k cleared. */
  lemma {:induction false} UnsetBitWords(ws: seq<Word>, p: nat)
    requires p / W < |ws|
    ensures BitsOf(ws[p / W := BitAnd(ws[p / W], BitNot(Shl(1, p % W)))])
            == BitsOf(ws)[p := false]
  {
    var i, k := p / W, p % W;
    var ws' := ws[i := BitAnd(ws[i], BitNot(Shl(1, k)))];
    forall j | 0 <= j < W * |ws|
      ensures BitsOf(ws')[j] == BitsOf(ws)[p := false][j]
    {
      if j / W == i {
        BitOfAnd(ws[i], BitNot(Shl(1, k)), j % W);
        BitOfNot(Shl(1, k), j % W);
        BitOfMask(k, j % W);
      }
    }
  }

  // ---------------------------------------------------------------------
  // Word-wise NOT, AND, OR and XOR.

  function NotWords(ws: seq<Word>): (r: seq<Word>)
    ensures |r| == |ws|
  {
    seq(|ws|, i requires 0 <= i < |ws| => BitNot(ws[i]))
  }

  /** NOT flips every storage bit. */
  lemma {:induction false} NotWordsBits(ws: seq<Word>)
    ensures forall j :: 0 <= j < W * |ws| ==> BitsOf(NotWords(ws))[j] == !BitsOf(ws)[j]
  {
    forall j | 0 <= j < W * |ws|
      ensures BitsOf(NotWords(ws))[j] == !BitsOf(ws)[j]
    {
      BitOfNot(ws[j / W], j % W);
    }
  }

  /** Complementing twice restores the buffer. */
  lemma {:induction false} NotWordsInvolution(ws: seq<Word>)
    ensures NotWords(NotWords(ws)) == ws
  {
  }

  function WordOp(op: BitOp, x: Word, y: Word): Word
  {
    match op
    case AndOp => BitAnd(x, y)
    case OrOp => BitOr(x, y)
    case XorOp => BitXor(x, y)
  }

  /** Word i of the result is `a[i] op b[i]`; b may be longer than a. */
  function ZipWords(op: BitOp, a: seq<Word>, b: seq<Word>): (r: seq<Word>)
    requires |a| <= |b|
    ensures |r| == |a|
  {
    seq(|a|, i requires 0 <= i < |a| => WordOp(op, a[i], b[i]))
  }

  /** The boolean operation on two bits. */
  function BoolOp(op: BitOp, x: bool, y: bool): bool
  {
    match op
    case AndOp => x && y
    case OrOp => x || y
    case XorOp => x != y
  }

  /** Each storage bit of `a op b` is the operation on the two bits. */
  lemma {:induction false} ZipWordsBits(op: BitOp, a: seq<Word>, b: seq<Word>)
    requires |a| <= |b|
    ensures forall j :: 0 <= j < W * |a| ==>
      BitsOf(ZipWords(op, a, b))[j] == BoolOp(op, BitsOf(a)[j], BitsOf(b)[j])
  {
    forall j | 0 <= j < W * |a|
      ensures BitsOf(ZipWords(op, a, b))[j] == BoolOp(op, BitsOf(a)[j], BitsOf(b)[j])
    {
      var i, k := j / W, j % W;
      assert W * |a| <= W * |b|;
      match op
      case AndOp => BitOfAnd(a[i], b[i], k);
      case OrOp => BitOfOr(a[i], b[i], k);
      case XorOp => BitOfXor(a[i], b[i], k);
    }
  }

  /** `a &= a` and `a |= a` leave the buffer as it is; `a ^= a` zeroes it. */
  lemma {:induction false} ZipWordsSelf(op: BitOp, ws: seq<Word>)
    ensures op != XorOp ==> ZipWords(op, ws, ws) == ws
    ensures op == XorOp ==> ZipWords(op, ws, ws) == Zeros(|ws|)
  {
    var r := ZipWords(op, ws, ws);
    var expected := if op == XorOp then Zeros(|ws|) else ws;
    ZipWordsBits(op, ws, ws);
    if op == XorOp {
      ZerosBits(|ws|);
    }
    assert BitsOf(r) == BitsOf(expected);
    BitsOfInjective(r, expected);
  }

  // ---------------------------------------------------------------------
  // Shifts. A shift by wid moves whole words by wid / 64 and then the bits by
  // wid % 64 inside the word, merging in the bits spilled from the
  // neighbouring word. When wid % 64 == 0 the spill would be a shift by 64,
  // which C++ leaves undefined; the spill is then 0.

  /** Word i after a left shift by width words and offset bits. */
  function LShiftWord(ws: seq<Word>, width: nat, offset: nat, i: nat): Word
    requires offset < W && i < |ws|
  {
    var moved := if i >= width then Shl(ws[i - width], offset) else 0;
    var spill := if i >= width + 1 && offset != 0 then Shr(ws[i - width - 1], W - offset) else 0;
    BitOr(moved, spill)
  }

  function LShiftWords(ws: seq<Word>, wid: nat): (r: seq<Word>)
    ensures |r| == |ws|
  {
    seq(|ws|, i requires 0 <= i < |ws| => LShiftWord(ws, wid / W, wid % W, i))
  }

  /** Word i after a right shift by width words and offset bits. */
  function RShiftWord(ws: seq<Word>, width: nat, offset: nat, i: nat): Word
    requires offset < W && i < |ws|
  {
    var spill := if i + width + 1 < |ws| && offset != 0 then Shl(ws[i + width + 1], W - offset) else 0;
    var moved := if i + width < |ws| then Shr(ws[i + width], offset) else 0;
    BitOr(spill, moved)
  }

  function RShiftWords(ws: seq<Word>, wid: nat): (r: seq<Word>)
    ensures |r| == |ws|
  {
    seq(|ws|, i requires 0 <= i < |ws| => RShiftWord(ws, wid / W, wid % W, i))
  }

  /** Reference left shift on bits: bit j comes from j - wid, zeros come in. */
  function ShiftedLeft(bits: seq<bool>, wid: nat): (r: seq<bool>)
    ensures |r| == |bits|
  {
    seq(|bits|, j requires 0 <= j < |bits| => if j >= wid then bits[j - wid] else false)
  }

  /** Reference right shift on bits: bit j comes from j + wid, or is 0. */
  function ShiftedRight(bits: seq<bool>, wid: nat): (r: seq<bool>)
    ensures |r| == |bits|
  {
    seq(|bits|, j requires 0 <= j < |bits| => if j + wid < |bits| then bits[j + wid] else false)
  }

  /** j == 64 * i + k with k < 64 splits j into word index i and offset k. */
  lemma {:induction false} Decompose(j: int, i: int, k: int)
    requires 0 <= k < W && j == W * i + k
    ensures j / W == i && j % W == k
  {
    DivModUnique(j, W, i, k);
  }

  /** Position p is in storage exactly when its word p / 64 exists. */
  lemma {:induction false} InStorage(p: nat, n: nat)
    ensures p / W < n <==> p < W * n
  {
    Decompose(p, p / W, p % W);
    if p / W < n {
      MulAtLeast(W, n - p / W);
      assert W * n == W * (p / W) + W * (n - p / W);
    } else {
      assert W * (p / W) == W * n + W * (p / W - n);
    }
  }

  /** Bits 64 * i .. 64 * i + 63 of the view are the bits of word i. */
  lemma {:induction false} WordBits(ws: seq<Word>, i: nat)
    requires i < |ws|
    ensures forall k :: 0 <= k < W ==> W * i + k < W * |ws| && BitsOf(ws)[W * i + k] == (Bit(ws[i], k) == 1)
  {
    forall k | 0 <= k < W
      ensures W * i + k < W * |ws| && BitsOf(ws)[W * i + k] == (Bit(ws[i], k) == 1)
    {
      Decompose(W * i + k, i, k);
      InStorage(W * i + k, |ws|);
    }
  }

  /** Positions compare by word index first, then by offset in the word. */
  lemma {:induction false} PositionOrder(j: int, i: int, k: int, p: int, pi: int, pk: int)
    requires 0 <= k < W && 0 <= pk < W && j == W * i + k && p == W * pi + pk
    ensures j >= p <==> i > pi || (i == pi && k >= pk)
  {
    MulDiffBound(W, i, pi);
  }

  /** Bit k of word i after a left shift: moved from below, or spilled in. */
  lemma {:induction false} LShiftWordBit(ws: seq<Word>, width: nat, offset: nat, i: nat, k: nat)
    requires offset < W && i < |ws| && k < W
    ensures Bit(LShiftWord(ws, width, offset, i), k)
         == if k >= offset then (if i >= width then Bit(ws[i - width], k - offset) else 0)
            else (if i >= width + 1 then Bit(ws[i - width - 1], k + W - offset) else 0)
  {
    var moved := if i >= width then Shl(ws[i - width], offset) else 0;
    var spill := if i >= width + 1 && offset != 0 then Shr(ws[i - width - 1], W - offset) else 0;
    BitOfOr(moved, spill, k);
    if i >= width {
      BitOfShl(ws[i - width], offset, k);
    } else {
      BitZero(k);
    }
    if i >= width + 1 && offset != 0 {
      BitOfShr(ws[i - width - 1], W - offset, k);
    } else {
      BitZero(k);
    }
  }

  /** Below the top, a left shift brings storage bit j - wid to position j. */
  lemma {:induction false} LShiftMoved(ws: seq<Word>, wid: nat, j: nat)
    requires wid <= j < W * |ws|
    ensures Bit(LShiftWords(ws, wid)[j / W], j % W) == Bit(ws[(j - wid) / W], (j - wid) % W)
  {
    var i, k := j / W, j % W;
    var width, offset := wid / W, wid % W;
    assert LShiftWords(ws, wid)[i] == LShiftWord(ws, width, offset, i);
    LShiftWordBit(ws, width, offset, i, k);
    PositionOrder(j, i, k, wid, width, offset);
    if k >= offset {
      Decompose(j - wid, i - width, k - offset);
    } else {
      Decompose(j - wid, i - width - 1, k + W - offset);
    }
  }

  /** A left shift by wid zeroes storage bits below wid. */
  lemma {:induction false} LShiftVacated(ws: seq<Word>, wid: nat, j: nat)
    requires j < wid && j < W * |ws|
    ensures Bit(LShiftWords(ws, wid)[j / W], j % W) == 0
  {
    var i, k := j / W, j % W;
    var width, offset := wid / W, wid % W;
    assert LShiftWords(ws, wid)[i] == LShiftWord(ws, width, offset, i);
    LShiftWordBit(ws, width, offset, i, k);
    PositionOrder(j, i, k, wid, width, offset);
  }

  /** Storage bit j after the word-level left shift is the reference shift's bit j. */
  lemma {:induction false} LShiftBitAt(ws: seq<Word>, wid: nat, j: nat)
    requires j < W * |ws|
    ensures BitsOf(LShiftWords(ws, wid))[j] == ShiftedLeft(BitsOf(ws), wid)[j]
  {
    if j >= wid {
      LShiftMoved(ws, wid, j);
      assert BitsOf(ws)[j - wid] == BitAt(ws, j - wid);
    } else {
      LShiftVacated(ws, wid, j);
    }
  }

  /** The word formula of the left shift moves every storage bit up by wid. */
  lemma {:induction false} LShiftWordsBits(ws: seq<Word>, wid: nat)
    ensures BitsOf(LShiftWords(ws, wid)) == ShiftedLeft(BitsOf(ws), wid)
  {
    forall j | 0 <= j < W * |ws|
      ensures BitsOf(LShiftWords(ws, wid))[j] == ShiftedLeft(BitsOf(ws), wid)[j]
    {
      LShiftBitAt(ws, wid, j);
    }
  }

  /** Bit k of word i after a right shift: spilled from above, or moved down. */
  lemma {:induction false} RShiftWordBit(ws: seq<Word>, width: nat, offset: nat, i: nat, k: nat)
    requires offset < W && i < |ws| && k < W
    ensures Bit(RShiftWord(ws, width, offset, i), k)
         == if k + offset < W then (if i + width < |ws| then Bit(ws[i + width], k + offset) else 0)
            else (if i + width + 1 < |ws| then Bit(ws[i + width + 1], k + offset - W) else 0)
  {
    var spill := if i + width + 1 < |ws| && offset != 0 then Shl(ws[i + width + 1], W - offset) else 0;
    var moved := if i + width < |ws| then Shr(ws[i + width], offset) else 0;
    BitOfOr(spill, moved, k);
    if i + width + 1 < |ws| && offset != 0 {
      BitOfShl(ws[i + width + 1], W - offset, k);
    } else {
      BitZero(k);
    }
    if i + width < |ws| {
      BitOfShr(ws[i + width], offset, k);
    } else {
      BitZero(k);
    }
  }

  /** Below the top, a right shift brings storage bit j + wid to position j. */
  lemma {:induction false} RShiftMoved(ws: seq<Word>, wid: nat, j: nat)
    requires j + wid < W * |ws|
    ensures Bit(RShiftWords(ws, wid)[j / W], j % W) == Bit(ws[(j + wid) / W], (j + wid) % W)
  {
    var i, k := j / W, j % W;
    var width, offset := wid / W, wid % W;
    assert RShiftWords(ws, wid)[i] == RShiftWord(ws, width, offset, i);
    RShiftWordBit(ws, width, offset, i, k);
    if k + offset < W {
      PositionOrder(j + wid, i + width, k + offset, W * |ws|, |ws|, 0);
      Decompose(j + wid, i + width, k + offset);
    } else {
      PositionOrder(j + wid, i + width + 1, k + offset - W, W * |ws|, |ws|, 0);
      Decompose(j + wid, i + width + 1, k + offset - W);
    }
  }

  /** A right shift by wid zeroes the storage bits whose source is past the top. */
  lemma {:induction false} RShiftVacated(ws: seq<Word>, wid: nat, j: nat)
    requires j < W * |ws| <= j + wid
    ensures Bit(RShiftWords(ws, wid)[j / W], j % W) == 0
  {
    var i, k := j / W, j % W;
    var width, offset := wid / W, wid % W;
    assert RShiftWords(ws, wid)[i] == RShiftWord(ws, width, offset, i);
    RShiftWordBit(ws, width, offset, i, k);
    if k + offset < W {
      PositionOrder(j + wid, i + width, k + offset, W * |ws|, |ws|, 0);
    } else {
      PositionOrder(j + wid, i + width + 1, k + offset - W, W * |ws|, |ws|, 0);
    }
  }

  /** Storage bit j after the word-level right shift is the reference shift's bit j. */
  lemma {:induction false} RShiftBitAt(ws: seq<Word>, wid: nat, j: nat)
    requires j < W * |ws|
    ensures BitsOf(RShiftWords(ws, wid))[j] == ShiftedRight(BitsOf(ws), wid)[j]
  {
    if j + wid < W * |ws| {
      RShiftMoved(ws, wid, j);
      assert BitsOf(ws)[j + wid] == BitAt(ws, j + wid);
    } else {
      RShiftVacated(ws, wid, j);
    }
  }

  /** The word formula of the right shift moves every storage bit down by wid. */
  lemma {:induction false} RShiftWordsBits(ws: seq<Word>, wid: nat)
    ensures BitsOf(RShiftWords(ws, wid)) == ShiftedRight(BitsOf(ws), wid)
  {
    forall j | 0 <= j < W * |ws|
      ensures BitsOf(RShiftWords(ws, wid))[j] == ShiftedRight(BitsOf(ws), wid)[j]
    {
      RShiftBitAt(ws, wid, j);
    }
  }
}
