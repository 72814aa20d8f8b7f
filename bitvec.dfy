/**
 * The Bitvec class: a fixed-width bit vector of nbits bits stored in
 * 1 + nbits / 64 words of 64 bits, least significant word first. The word
 * buffer is updated in place by every operation; nbits and nblocks never
 * change. Each method is proved against the specification functions of
 * Blocks (bit view) and Arith (integer view).
 */
module Vectors {
  import opened Words
  import opened Blocks
  import opened Arith

  /** A string reversed: character k of the result is character |s| - 1 - k of s. */
  function Reverse(s: string): (r: string)
    ensures |r| == |s|
    ensures forall k :: 0 <= k < |s| ==> r[k] == s[|s| - 1 - k]
  {
    if s == [] then [] else Reverse(s[1..]) + [s[0]]
  }

  /** The digit to_string prints for a bit. */
  function Digit(b: bool): (c: char)
    ensures c == '0' || c == '1'
    ensures c == '1' <==> b
  {
    if b then '1' else '0'
  }

  class Bitvec {
    const nbits: Word
    const nblocks: nat
    const blocks: array<Word>

    /** The storage always holds one word more than nbits strictly needs. */
    predicate Valid()
    {
      nblocks == 1 + nbits / W && blocks.Length == nblocks
    }

    /** The storage as bits, bit j at word j / 64, offset j % 64. */
    ghost function Bits(): seq<bool>
      reads blocks
    {
      BitsOf(blocks[..])
    }

    /** The storage as one unsigned integer of 64 * nblocks bits. */
    ghost function IntValue(): nat
      reads blocks
    {
      Value(blocks[..])
    }

    /** A vector of nbits bits, all zero (nbits defaults to 0). */
    constructor(nbits: Word := 0)
      ensures this.nbits == nbits && nblocks == 1 + nbits / W
      ensures Valid() && fresh(blocks)
      ensures blocks[..] == Zeros(nblocks)
      ensures forall j :: 0 <= j < |Bits()| ==> !Bits()[j]
      ensures IntValue() == 0
    {
      this.nbits := nbits;
      nblocks := 1 + nbits / W;
      blocks := new Word[1 + nbits / W];
      new;
      Clear();
    }

    /** The bit count; every bit below it has a word. */
    function Size(): (n: Word)
      requires Valid()
      ensures n == nbits && nblocks == 1 + n / W && n < W * nblocks
    {
      InStorage(nbits, nblocks);
      nbits
    }

    /** Bit p, as 0 or 1. */
    function GetBit(p: Word): (b: Word)
      requires Valid() && p / W < nblocks
      reads blocks
      ensures p < |Bits()|
      ensures b == 0 || b == 1
      ensures b == 1 <==> Bits()[p]
    {
      InStorage(p, nblocks);
      IndexDecomposition(p);
      ExtractBit(blocks[p / W], p % W);
      BitAnd(Shr(blocks[Shr(p, SHIFT)], BitAnd(p, MASK)), 1)
    }

    /** Sets bit p; every other bit keeps its value. */
    method SetBit(p: Word)
      requires Valid() && p / W < nblocks
      modifies blocks
      ensures p < |Bits()| && Bits() == old(Bits())[p := true]
    {
      ghost var ws := blocks[..];
      IndexDecomposition(p);
      SetBitWords(ws, p);
      InStorage(p, nblocks);
      var i := Shr(p, SHIFT);
      blocks[i] := BitOr(blocks[i], Shl(1, BitAnd(p, MASK)));
      assert blocks[..] == ws[p / W := BitOr(ws[p / W], Shl(1, p % W))];
    }

    /** Clears bit p; every other bit keeps its value. */
    method UnsetBit(p: Word)
      requires Valid() && p / W < nblocks
      modifies blocks
      ensures p < |Bits()| && Bits() == old(Bits())[p := false]
    {
      ghost var ws := blocks[..];
      IndexDecomposition(p);
      UnsetBitWords(ws, p);
      InStorage(p, nblocks);
      var i := Shr(p, SHIFT);
      blocks[i] := BitAnd(blocks[i], BitNot(Shl(1, BitAnd(p, MASK))));
      assert blocks[..] == ws[p / W := BitAnd(ws[p / W], BitNot(Shl(1, p % W)))];
    }

    /** Zeroes every word, including the bits at or above nbits. */
    method Clear()
      requires Valid()
      modifies blocks
      ensures blocks[..] == Zeros(nblocks)
      ensures forall j :: 0 <= j < |Bits()| ==> !Bits()[j]
      ensures IntValue() == 0
    {
      for i := 0 to nblocks
        invariant forall k :: 0 <= k < i ==> blocks[k] == 0
      {
        blocks[i] := 0;
      }
      assert blocks[..] == Zeros(nblocks);
      ZerosBits(nblocks);
      ValueZeros(nblocks);
    }

    /** `*this <<= wid`: the in-place shift, then the receiver itself. */
    method ShiftLeftAssign(wid: Word) returns (r: Bitvec)
      requires Valid() && wid / W <= INT_MAX && nblocks <= INT_MAX + 1
      modifies blocks
      ensures r == this
      ensures Bits() == ShiftedLeft(old(Bits()), wid)
    {
      InplaceLshift(wid);
      r := this;
    }

    /** `*this >>= wid`: the in-place shift, then the receiver itself. */
    method ShiftRightAssign(wid: Word) returns (r: Bitvec)
      requires Valid() && nblocks + wid / W <= INT_MAX
      modifies blocks
      ensures r == this
      ensures Bits() == ShiftedRight(old(Bits()), wid)
    {
      InplaceRshift(wid);
      r := this;
    }

    /** `~*this`: complements the receiver in place and returns it. */
    method Complement() returns (r: Bitvec)
      requires Valid()
      modifies blocks
      ensures r == this
      ensures forall j :: 0 <= j < |Bits()| ==> Bits()[j] == !old(Bits())[j]
    {
      InplaceNot();
      r := this;
    }

    /** `*this &= other`. */
    method AndAssign(other: Bitvec) returns (r: Bitvec)
      requires Valid() && other.Valid() && other.nblocks >= nblocks
      modifies blocks
      ensures r == this
      ensures blocks[..] == ZipWords(AndOp, old(blocks[..]), old(other.blocks[..]))
    {
      InplaceAnd(other);
      r := this;
    }

    /** `*this |= other`. */
    method OrAssign(other: Bitvec) returns (r: Bitvec)
      requires Valid() && other.Valid() && other.nblocks >= nblocks
      modifies blocks
      ensures r == this
      ensures blocks[..] == ZipWords(OrOp, old(blocks[..]), old(other.blocks[..]))
    {
      InplaceOr(other);
      r := this;
    }

    /** `*this ^= other`. */
    method XorAssign(other: Bitvec) returns (r: Bitvec)
      requires Valid() && other.Valid() && other.nblocks >= nblocks
      modifies blocks
      ensures r == this
      ensures blocks[..] == ZipWords(XorOp, old(blocks[..]), old(other.blocks[..]))
    {
      InplaceXor(other);
      r := this;
    }

    /**
     * `*this += other`: the integer sum modulo 2^(64 * nblocks) whenever none
     * of other's words is all ones.
     */
    method AddAssign(other: Bitvec) returns (r: Bitvec)
      requires Valid() && other.Valid() && other.nblocks >= nblocks
      modifies blocks
      ensures r == this
      ensures blocks[..] == AddWords(old(blocks[..]), old(other.blocks[..]), AsWritten)
      ensures NoAllOnes(old(other.blocks[..]), nblocks) ==>
        IntValue() == Truncate(old(IntValue()) + Value(old(other.blocks[..])[..nblocks]), nblocks)
    {
      ghost var a, b := blocks[..], other.blocks[..];
      InplaceAdd(other);
      AddAsWrittenValue(a, b);
      r := this;
    }

    /**
     * `*this -= other`: the integer difference modulo 2^(64 * nblocks),
     * wrapping on underflow; `v -= v` zeroes v.
     */
    method SubAssign(other: Bitvec) returns (r: Bitvec)
      requires Valid() && other.Valid() && other.nblocks >= nblocks
      modifies blocks
      ensures r == this
      ensures blocks[..] == SubWords(old(blocks[..]), old(other.blocks[..]))
      ensures IntValue() == Truncate(old(IntValue()) - Value(old(other.blocks[..])[..nblocks]), nblocks)
      ensures other.blocks == blocks ==> blocks[..] == Zeros(nblocks)
    {
      ghost var a, b := blocks[..], other.blocks[..];
      InplaceSub(other);
      SubWordsValue(a, b);
      SubWordsSelf(a);
      r := this;
    }

    /** The number of words; every bit below nbits lies in one of them. */
    function BlockSize(): (n: nat)
      requires Valid()
      ensures n == nblocks && n >= 1 && nbits < W * n
    {
      InStorage(nbits, nblocks);
      nblocks
    }

    /** Word i: bit k of it is storage bit 64 * i + k. */
    function GetBlock(i: nat): (w: Word)
      requires Valid() && i < nblocks
      reads blocks
      ensures forall k :: 0 <= k < W ==> W * i + k < |Bits()| && (Bit(w, k) == 1) == Bits()[W * i + k]
    {
      WordBits(blocks[..], i);
      assert |Bits()| == W * nblocks;
      assert forall k :: 0 <= k < W ==> (Bit(blocks[..][i], k) == 1) == Bits()[W * i + k];
      blocks[i]
    }

    /** Overwrites word i with v. */
    method SetBlock(i: nat, v: Word)
      requires Valid() && i < nblocks
      modifies blocks
      ensures blocks[..] == old(blocks[..])[i := v]
    {
      blocks[i] := v;
    }

    /** Zeroes word i. */
    method UnsetBlock(i: nat)
      requires Valid() && i < nblocks
      modifies blocks
      ensures blocks[..] == old(blocks[..])[i := 0]
    {
      blocks[i] := 0;
    }

    /**
     * Shifts the storage left by wid bits, top word first, so that each
     * word read is one not yet overwritten. The int index and the word
     * count must fit in a C++ int.
     */
    method InplaceLshift(wid: Word)
      requires Valid() && wid / W <= INT_MAX && nblocks <= INT_MAX + 1
      modifies blocks
      ensures blocks[..] == LShiftWords(old(blocks[..]), wid)
      ensures Bits() == ShiftedLeft(old(Bits()), wid)
    {
      ghost var ws := blocks[..];
      IndexDecomposition(wid);
      var width: int := Shr(wid, SHIFT);
      var offset: nat := BitAnd(wid, MASK);
      for i: int := nblocks downto 0
        invariant forall k :: 0 <= k < i ==> blocks[k] == ws[k]
        invariant forall k :: i <= k < nblocks ==> blocks[k] == LShiftWord(ws, width, offset, k)
      {
        var block1: Word := if i - width >= 0 then Shl(blocks[i - width], offset) else 0;
        var block2: Word := if i - width - 1 >= 0 && offset != 0 then Shr(blocks[i - width - 1], W - offset) else 0;
        blocks[i] := BitOr(block1, block2);
      }
      assert blocks[..] == LShiftWords(ws, wid);
      LShiftWordsBits(ws, wid);
    }

    /**
     * Shifts the storage right by wid bits, bottom word first, so that each
     * word read is one not yet overwritten. i + width + 1 must fit in a C++ int.
     */
    method InplaceRshift(wid: Word)
      requires Valid() && nblocks + wid / W <= INT_MAX
      modifies blocks
      ensures blocks[..] == RShiftWords(old(blocks[..]), wid)
      ensures Bits() == ShiftedRight(old(Bits()), wid)
    {
      ghost var ws := blocks[..];
      IndexDecomposition(wid);
      var width: int := Shr(wid, SHIFT);
      var offset: nat := BitAnd(wid, MASK);
      for i := 0 to nblocks
        invariant forall k :: i <= k < nblocks ==> blocks[k] == ws[k]
        invariant forall k :: 0 <= k < i ==> blocks[k] == RShiftWord(ws, width, offset, k)
      {
        var block1: Word := if i + width + 1 < nblocks && offset != 0 then Shl(blocks[i + width + 1], W - offset) else 0;
        var block2: Word := if i + width < nblocks then Shr(blocks[i + width], offset) else 0;
        blocks[i] := BitOr(block1, block2);
      }
      assert blocks[..] == RShiftWords(ws, wid);
      RShiftWordsBits(ws, wid);
    }

    /** Complements every word. */
    method InplaceNot()
      requires Valid()
      modifies blocks
      ensures blocks[..] == NotWords(old(blocks[..]))
      ensures forall j :: 0 <= j < |Bits()| ==> Bits()[j] == !old(Bits())[j]
    {
      ghost var ws := blocks[..];
      for i := 0 to nblocks
        invariant forall k :: 0 <= k < i ==> blocks[k] == BitNot(ws[k])
        invariant forall k :: i <= k < nblocks ==> blocks[k] == ws[k]
      {
        blocks[i] := BitNot(blocks[i]);
      }
      assert blocks[..] == NotWords(ws);
      NotWordsBits(ws);
    }

    /**
     * ANDs other's words into the receiver's. Other is only read; when it is
     * the receiver itself each word is read before it is written.
     */
    method InplaceAnd(other: Bitvec)
      requires Valid() && other.Valid() && other.nblocks >= nblocks
      modifies blocks
      ensures blocks[..] == ZipWords(AndOp, old(blocks[..]), old(other.blocks[..]))
      ensures forall j :: 0 <= j < |Bits()| ==> Bits()[j] == (old(Bits())[j] && old(other.Bits())[j])
      ensures other.blocks == blocks ==> blocks[..] == old(blocks[..])
    {
      ghost var a, b := blocks[..], other.blocks[..];
      for i := 0 to nblocks
        invariant forall k :: 0 <= k < i ==> blocks[k] == BitAnd(a[k], b[k])
        invariant forall k :: i <= k < nblocks ==> blocks[k] == a[k] && other.blocks[k] == b[k]
      {
        blocks[i] := BitAnd(blocks[i], other.blocks[i]);
      }
      assert blocks[..] == ZipWords(AndOp, a, b);
      ZipWordsBits(AndOp, a, b);
      ZipWordsSelf(AndOp, a);
    }

    /** ORs other's words into the receiver's; other is only read. */
    method InplaceOr(other: Bitvec)
      requires Valid() && other.Valid() && other.nblocks >= nblocks
      modifies blocks
      ensures blocks[..] == ZipWords(OrOp, old(blocks[..]), old(other.blocks[..]))
      ensures forall j :: 0 <= j < |Bits()| ==> Bits()[j] == (old(Bits())[j] || old(other.Bits())[j])
      ensures other.blocks == blocks ==> blocks[..] == old(blocks[..])
    {
      ghost var a, b := blocks[..], other.blocks[..];
      for i := 0 to nblocks
        invariant forall k :: 0 <= k < i ==> blocks[k] == BitOr(a[k], b[k])
        invariant forall k :: i <= k < nblocks ==> blocks[k] == a[k] && other.blocks[k] == b[k]
      {
        blocks[i] := BitOr(blocks[i], other.blocks[i]);
      }
      assert blocks[..] == ZipWords(OrOp, a, b);
      ZipWordsBits(OrOp, a, b);
      ZipWordsSelf(OrOp, a);
    }

    /** XORs other's words into the receiver's; other is only read. */
    method InplaceXor(other: Bitvec)
      requires Valid() && other.Valid() && other.nblocks >= nblocks
      modifies blocks
      ensures blocks[..] == ZipWords(XorOp, old(blocks[..]), old(other.blocks[..]))
      ensures forall j :: 0 <= j < |Bits()| ==> Bits()[j] == (old(Bits())[j] != old(other.Bits())[j])
      ensures other.blocks == blocks ==> blocks[..] == Zeros(nblocks)
    {
      ghost var a, b := blocks[..], other.blocks[..];
      for i := 0 to nblocks
        invariant forall k :: 0 <= k < i ==> blocks[k] == BitXor(a[k], b[k])
        invariant forall k :: i <= k < nblocks ==> blocks[k] == a[k] && other.blocks[k] == b[k]
      {
        blocks[i] := BitXor(blocks[i], other.blocks[i]);
      }
      assert blocks[..] == ZipWords(XorOp, a, b);
      ZipWordsBits(XorOp, a, b);
      ZipWordsSelf(XorOp, a);
    }

    /**
     * Ripple-carry addition of other's low nblocks words, with the carry test
     * as written: a carry leaves every word where other's word is all ones.
     * The integer sum modulo 2^(64 * nblocks) results whenever none of
     * other's words is all ones.
     */
    method InplaceAdd(other: Bitvec)
      requires Valid() && other.Valid() && other.nblocks >= nblocks
      modifies blocks
      ensures blocks[..] == AddWords(old(blocks[..]), old(other.blocks[..]), AsWritten)
    {
      ghost var a, b := blocks[..], other.blocks[..];
      var carry: nat := 0;
      for i := 0 to nblocks
        invariant carry == AddCarry(a, b, i, AsWritten)
        invariant forall k :: 0 <= k < i ==> blocks[k] == AddWord(a, b, k, AsWritten)
        invariant forall k :: i <= k < nblocks ==> blocks[k] == a[k] && other.blocks[k] == b[k]
      {
        var (newBlock, next) := AddStep(blocks[i], other.blocks[i], carry, AsWritten);
        carry := next;
        blocks[i] := newBlock;
      }
      assert blocks[..] == AddWords(a, b, AsWritten);
    }

    /**
     * Ripple-borrow subtraction of other's low nblocks words: the integer
     * difference modulo 2^(64 * nblocks), wrapping on underflow.
     */
    method InplaceSub(other: Bitvec)
      requires Valid() && other.Valid() && other.nblocks >= nblocks
      modifies blocks
      ensures blocks[..] == SubWords(old(blocks[..]), old(other.blocks[..]))
    {
      ghost var a, b := blocks[..], other.blocks[..];
      var carry: nat := 0;
      for i := 0 to nblocks
        invariant carry == SubBorrow(a, b, i)
        invariant forall k :: 0 <= k < i ==> blocks[k] == SubWord(a, b, k)
        invariant forall k :: i <= k < nblocks ==> blocks[k] == a[k] && other.blocks[k] == b[k]
      {
        var (newBlock, next) := SubStep(blocks[i], other.blocks[i], carry);
        carry := next;
        blocks[i] := newBlock;
      }
      assert blocks[..] == SubWords(a, b);
    }

    /** The nbits low bits, most significant first. */
    method ToString() returns (s: string)
      requires Valid()
      ensures |s| == nbits
      ensures forall k :: 0 <= k < nbits ==> nbits - 1 - k < |Bits()| && s[k] == Digit(Bits()[nbits - 1 - k])
    {
      InStorage(nbits, nblocks);
      ghost var bits := Bits();
      var res: string := [];
      for i := 0 to nbits
        invariant |res| == i
        invariant forall k :: 0 <= k < i ==> res[k] == Digit(bits[k])
      {
        InStorage(i, nblocks);
        var ch := Digit(GetBit(i) == 1);
        res := res + [ch];
      }
      s := Reverse(res);
    }
  }

  /** A fresh vector of n bits prints as n zeros. */
  method FreshString(n: Word) returns (s: string)
    ensures s == seq(n, _ => '0')
  {
    var v := new Bitvec(n);
    s := v.ToString();
  }

  /** A default-constructed vector has size 0, one word, value 0 and prints as "". */
  method DefaultVector() returns (size: Word, words: nat, value: nat, s: string)
    ensures size == 0 && words == 1 && value == 0 && s == []
  {
    var v := new Bitvec();
    size := v.Size();
    words := v.BlockSize();
    value := v.blocks[0];
    s := v.ToString();
  }

  /** Setting bit p makes it read 1; unsetting it again makes it read 0. */
  method SetUnsetGet(n: Word, p: Word) returns (afterSet: Word, afterUnset: Word)
    requires p < n
    ensures afterSet == 1 && afterUnset == 0
  {
    var v := new Bitvec(n);
    InStorage(p, v.nblocks);
    InStorage(n, v.nblocks);
    v.SetBit(p);
    afterSet := v.GetBit(p);
    v.UnsetBit(p);
    afterUnset := v.GetBit(p);
  }
}
