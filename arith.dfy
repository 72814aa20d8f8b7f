/**
 * The word buffer read as one little-endian unsigned integer of 64 * n bits,
 * and the ripple-carry addition and ripple-borrow subtraction over it, word
 * by word, with the carry and borrow tests exactly as the vector computes
 * them.
 */
module Arith {
  import opened Words

  /** 2^(64 n): the modulus of an n-word integer. */
  function Radix(n: nat): (r: nat)
    ensures r >= 1
  {
    if n == 0 then 1 else BASE * Radix(n - 1)
  }

  /** x reduced modulo 2^(64 n): what n words of unsigned arithmetic keep of x. */
  function Truncate(x: int, n: nat): int
  {
    x % Radix(n)
  }

  /** The integer held by the words, word 0 least significant. */
  function Value(ws: seq<Word>): nat
  {
    if ws == [] then 0 else ws[0] + BASE * Value(ws[1..])
  }

  /** An n-word integer is below 2^(64 n). */
  lemma {:induction false} ValueBound(ws: seq<Word>)
    ensures Value(ws) < Radix(|ws|)
  {
    if ws != [] {
      ValueBound(ws[1..]);
      DigitBound(ws[0], BASE, Value(ws[1..]), Radix(|ws| - 1));
    }
  }

  /** Appending a word adds it at weight 2^(64 |ws|). */
  lemma {:induction false} ValueSnoc(ws: seq<Word>, w: Word)
    ensures Value(ws + [w]) == Value(ws) + Radix(|ws|) * w
  {
    if ws == [] {
      assert [] + [w] == [w] && [w][1..] == [];
    } else {
      var t := ws[1..];
      assert (ws + [w])[1..] == t + [w];
      ValueSnoc(t, w);
      ShiftColumn(BASE, Value(t), Radix(|t|), w);
    }
  }

  lemma {:induction false} ValueWhole(ws: seq<Word>)
    ensures Value(ws[..|ws|]) == Value(ws)
  {
    assert ws[..|ws|] == ws;
  }

  /** The value of a prefix grows by one weighted word at a time. */
  lemma {:induction false} ValuePrefix(ws: seq<Word>, i: nat)
    requires 0 < i <= |ws|
    ensures Value(ws[..i]) == Value(ws[..i - 1]) + Radix(i - 1) * ws[i - 1]
  {
    assert ws[..i] == ws[..i - 1] + [ws[i - 1]];
    ValueSnoc(ws[..i - 1], ws[i - 1]);
  }

  // Algebra over plain integers, kept apart so that the solver does not see
  // the 2^64 constant inside products.

  /** A digit below b plus b times a value below r stays below b * r. */
  lemma {:induction false} DigitBound(d: int, b: int, v: int, r: int)
    requires 0 <= d < b && 0 <= v < r
    ensures d + b * v < b * r
  {
    assert b * v <= b * (r - 1) by { MulLe(b, v, r - 1); }
    assert b * (r - 1) == b * r - b;
  }

  /** Pushing a weighted word under one more factor b. */
  lemma {:induction false} ShiftColumn(b: int, v: int, r: int, w: int)
    ensures b * (v + r * w) == b * v + (b * r) * w
  {
    assert b * (r * w) == (b * r) * w;
  }

  lemma {:induction false} MulLe(x: int, y: int, z: int)
    requires x >= 0 && y <= z
    ensures x * y <= x * z
  {
    assert x * z - x * y == x * (z - y);
  }

  /** v is x truncated to n words when v + 2^(64 n) * c == x and v fits. */
  lemma {:induction false} TruncateOfCarry(x: int, v: int, n: nat, c: int)
    requires 0 <= v < Radix(n) && v + Radix(n) * c == x
    ensures v == Truncate(x, n)
  {
    DivModUnique(x, Radix(n), c, v);
  }

  /** v is x truncated to n words when v - 2^(64 n) * c == x and v fits. */
  lemma {:induction false} TruncateOfBorrow(x: int, v: int, n: nat, c: int)
    requires 0 <= v < Radix(n) && v - Radix(n) * c == x
    ensures v == Truncate(x, n)
  {
    var m := Radix(n);
    assert m * (-c) == -(m * c);
    DivModUnique(x, m, -c, v);
  }

  /** One column of the ripple adder, lifted to weight r (b * r is the next weight). */
  lemma {:induction false} AddColumn(vr: int, r: int, c: int, va: int, vb: int,
                  x: int, y: int, digit: int, next: int, b: int)
    requires vr + r * c == va + vb
    requires digit + b * next == x + y + c
    ensures (vr + r * digit) + (b * r) * next == (va + r * x) + (vb + r * y)
  {
    assert (b * r) * next == r * (b * next);
    assert r * digit + r * (b * next) == r * (x + y + c);
  }

  /** One column of the ripple subtractor, lifted to weight r. */
  lemma {:induction false} SubColumn(vr: int, r: int, c: int, va: int, vb: int,
                  x: int, y: int, digit: int, next: int, b: int)
    requires vr - r * c == va - vb
    requires digit - b * next == x - y - c
    ensures (vr + r * digit) - (b * r) * next == (va + r * x) - (vb + r * y)
  {
    assert (b * r) * next == r * (b * next);
    assert r * digit - r * (b * next) == r * (x - y - c);
  }

  lemma {:induction false} ValueZeros(n: nat)
    ensures Value(Zeros(n)) == 0
  {
    if n > 0 {
      assert Zeros(n)[1..] == Zeros(n - 1);
      ValueZeros(n - 1);
    }
  }

  /** Only an all-zero buffer has value 0. */
  lemma {:induction false} ValueZeroIsZeros(ws: seq<Word>)
    requires Value(ws) == 0
    ensures ws == Zeros(|ws|)
  {
    if ws != [] {
      ValueZeroIsZeros(ws[1..]);
      assert ws == [ws[0]] + ws[1..];
    }
  }

  /** Which carry test the adder uses. */
  datatype CarryRule =
    | AsWritten   // carry' = (sum < a) || (b == MAX)
    | Intended    // carry' = (sum < a) || (b == MAX && carry == 1)

  /** `a + b + carry` in uint64_t arithmetic and the carry into the next word. */
  function AddStep(a: Word, b: Word, carry: nat, rule: CarryRule): (Word, nat)
    requires carry <= 1
  {
    var sum := (a + b + carry) % BASE;
    var next := if sum < a || (b == MAX && (rule == AsWritten || carry == 1)) then 1 else 0;
    (sum, next)
  }

  /**
   * One adder step: the sum word is a + b + carry wrapped below 2^64, and a
   * carry leaves the word exactly when the sum overflows or, under the test
   * as written, when b is all ones.
   */
  lemma {:induction false} AddStepSpec(a: Word, b: Word, carry: nat, rule: CarryRule)
    requires carry <= 1
    ensures AddStep(a, b, carry, rule).0
         == if a + b + carry < BASE then a + b + carry else a + b + carry - BASE
    ensures AddStep(a, b, carry, rule).1 == 1
        <==> a + b + carry >= BASE || (rule == AsWritten && b == MAX)
  {
    var t := a + b + carry;
    if t < BASE {
      DivModUnique(t, BASE, 0, t);
    } else {
      DivModUnique(t, BASE, 1, t - BASE);
    }
  }

  /** The carry into word i of `a + b`. */
  function AddCarry(a: seq<Word>, b: seq<Word>, i: nat, rule: CarryRule): (c: nat)
    requires i <= |a| <= |b|
    ensures c <= 1
  {
    if i == 0 then 0 else AddStep(a[i - 1], b[i - 1], AddCarry(a, b, i - 1, rule), rule).1
  }

  /** Word k of `a + b`. */
  function AddWord(a: seq<Word>, b: seq<Word>, k: nat, rule: CarryRule): Word
    requires k < |a| <= |b|
  {
    AddStep(a[k], b[k], AddCarry(a, b, k, rule), rule).0
  }

  /** The words of `a + b`, with overflow out of the top word dropped. */
  function AddWords(a: seq<Word>, b: seq<Word>, rule: CarryRule): (r: seq<Word>)
    requires |a| <= |b|
    ensures |r| == |a|
  {
    seq(|a|, k requires 0 <= k < |a| => AddWord(a, b, k, rule))
  }

  /** No word below n is all ones: the case in which the literal carry test is exact. */
  predicate NoAllOnes(ws: seq<Word>, n: nat)
  {
    forall i :: 0 <= i < n && i < |ws| ==> ws[i] != MAX
  }

  /** The first i sum words plus the carry into word i are exactly a + b on those words. */
  lemma {:induction false} AddPrefixExact(a: seq<Word>, b: seq<Word>, i: nat, rule: CarryRule)
    requires i <= |a| <= |b|
    requires rule == Intended || NoAllOnes(b, i)
    ensures Value(AddWords(a, b, rule)[..i]) + Radix(i) * AddCarry(a, b, i, rule)
         == Value(a[..i]) + Value(b[..i])
  {
    if i > 0 {
      AddPrefixExact(a, b, i - 1, rule);
      AddPrefixStep(a, b, i, rule);
    }
  }

  /** One more column keeps the sum exact. */
  lemma {:induction false} AddPrefixStep(a: seq<Word>, b: seq<Word>, i: nat, rule: CarryRule)
    requires 0 < i <= |a| <= |b|
    requires rule == Intended || b[i - 1] != MAX
    requires Value(AddWords(a, b, rule)[..i - 1]) + Radix(i - 1) * AddCarry(a, b, i - 1, rule)
          == Value(a[..i - 1]) + Value(b[..i - 1])
    ensures Value(AddWords(a, b, rule)[..i]) + Radix(i) * AddCarry(a, b, i, rule)
         == Value(a[..i]) + Value(b[..i])
  {
    var r := AddWords(a, b, rule);
    var carry := AddCarry(a, b, i - 1, rule);
    var sum := r[i - 1];
    var next := AddCarry(a, b, i, rule);
    assert (sum, next) == AddStep(a[i - 1], b[i - 1], carry, rule);
    AddStepSpec(a[i - 1], b[i - 1], carry, rule);
    assert sum as int + BASE * next == a[i - 1] as int + b[i - 1] + carry;
    ValuePrefix(r, i);
    ValuePrefix(a, i);
    ValuePrefix(b, i);
    AddColumn(Value(r[..i - 1]), Radix(i - 1), carry, Value(a[..i - 1]), Value(b[..i - 1]),
              a[i - 1], b[i - 1], sum, next, BASE);
  }

  /** Without an all-ones addend word below i, both carry tests pass the same carries. */
  lemma {:induction false} AddCarryAgree(a: seq<Word>, b: seq<Word>, i: nat)
    requires i <= |a| <= |b| && NoAllOnes(b, i)
    ensures AddCarry(a, b, i, AsWritten) == AddCarry(a, b, i, Intended)
  {
    if i > 0 {
      AddCarryAgree(a, b, i - 1);
    }
  }

  /** Without an all-ones addend word, the literal adder and the corrected one agree. */
  lemma {:induction false} AddRulesAgree(a: seq<Word>, b: seq<Word>)
    requires |a| <= |b| && NoAllOnes(b, |a|)
    ensures AddWords(a, b, AsWritten) == AddWords(a, b, Intended)
  {
    forall k | 0 <= k < |a|
      ensures AddWords(a, b, AsWritten)[k] == AddWords(a, b, Intended)[k]
    {
      AddCarryAgree(a, b, k);
    }
  }

  /**
   * When no addend word is all ones, the literal adder computes
   * (x + y) mod 2^(64 n), where n is the receiver's word count.
   */
  lemma {:induction false} AddAsWrittenValue(a: seq<Word>, b: seq<Word>)
    requires |a| <= |b|
    ensures NoAllOnes(b, |a|) ==> Value(AddWords(a, b, AsWritten)) == Truncate(Value(a) + Value(b[..|a|]), |a|)
  {
    if NoAllOnes(b, |a|) {
      var c := AddWordsExact(a, b, AsWritten);
      ValueBound(AddWords(a, b, AsWritten));
      TruncateOfCarry(Value(a) + Value(b[..|a|]), Value(AddWords(a, b, AsWritten)), |a|, c);
    }
  }

  /** With the intended carry test the adder is exact for every input. */
  lemma {:induction false} AddIntendedValue(a: seq<Word>, b: seq<Word>)
    requires |a| <= |b|
    ensures Value(AddWords(a, b, Intended)) == Truncate(Value(a) + Value(b[..|a|]), |a|)
  {
    var c := AddWordsExact(a, b, Intended);
    ValueBound(AddWords(a, b, Intended));
    TruncateOfCarry(Value(a) + Value(b[..|a|]), Value(AddWords(a, b, Intended)), |a|, c);
  }

  /** The sum words plus the carry out of the top word are exactly a + b. */
  lemma {:induction false} AddWordsExact(a: seq<Word>, b: seq<Word>, rule: CarryRule) returns (c: nat)
    requires |a| <= |b|
    requires rule == Intended || NoAllOnes(b, |a|)
    ensures Value(AddWords(a, b, rule)) + Radix(|a|) * c == Value(a) + Value(b[..|a|])
  {
    c := AddCarry(a, b, |a|, rule);
    AddPrefixExact(a, b, |a|, rule);
    ValueWhole(a);
    ValueWhole(AddWords(a, b, rule));
  }

  /**
   * The literal carry test is wrong when the receiver word is 0, the addend
   * word is all ones and no carry comes in: 0 + 0xFFFFFFFFFFFFFFFF does not
   * overflow, yet a carry of 1 is passed to the next word. With two words,
   * [0, 0] + [MAX, 0] yields [MAX, 1] instead of [MAX, 0].
   */
  lemma {:induction false} AddAsWrittenCounterexample()
    ensures AddWords([0, 0], [MAX, 0], AsWritten) == [MAX, 1]
    ensures Value(AddWords([0, 0], [MAX, 0], AsWritten))
         != Truncate(Value([0, 0]) + Value([MAX, 0]), 2)
  {
    var a: seq<Word> := [0, 0];
    var b: seq<Word> := [MAX, 0];
    assert AddStep(0, MAX, 0, AsWritten) == (MAX, 1);
    assert AddStep(0, 0, 1, AsWritten) == (1, 0);
    assert AddCarry(a, b, 1, AsWritten) == 1;
    assert AddCarry(a, b, 2, AsWritten) == 0;
    assert AddWords(a, b, AsWritten) == [MAX, 1];
    var r: seq<Word> := [MAX, 1];
    assert r[1..] == [1] && [1][1..] == [] && b[1..] == [0] && [0][1..] == [] && a[1..] == [0];
    assert Value(r) == MAX + BASE;
    assert Value(b) == MAX;
    assert Value(a) == 0;
    assert Radix(2) == BASE * BASE;
    TruncateOfCarry(0 + MAX, MAX, 2, 0);
  }

  // ---------------------------------------------------------------------
  // Subtraction.

  /** `a - b - borrow` in uint64_t arithmetic and the borrow from the next word. */
  function SubStep(a: Word, b: Word, borrow: nat): (Word, nat)
    requires borrow <= 1
  {
    var diff := (a - b - borrow) % BASE;
    var next := if diff > a || (b == MAX && borrow == 1) then 1 else 0;
    (diff, next)
  }

  /**
   * One subtractor step: a borrow leaves the word exactly when b + borrow
   * exceeds a, and the difference word is a - b - borrow plus 2^64 times it.
   */
  lemma {:induction false} SubStepSpec(a: Word, b: Word, borrow: nat)
    requires borrow <= 1
    ensures SubStep(a, b, borrow).1 == 1 <==> a < b + borrow
    ensures SubStep(a, b, borrow).0 == a - b - borrow + BASE * SubStep(a, b, borrow).1
  {
    var t := a - b - borrow;
    if t >= 0 {
      DivModUnique(t, BASE, 0, t);
    } else {
      DivModUnique(t, BASE, -1, t + BASE);
    }
  }

  /** The borrow into word i of `a - b`. */
  function SubBorrow(a: seq<Word>, b: seq<Word>, i: nat): (c: nat)
    requires i <= |a| <= |b|
    ensures c <= 1
  {
    if i == 0 then 0 else SubStep(a[i - 1], b[i - 1], SubBorrow(a, b, i - 1)).1
  }

  /** Word k of `a - b`. */
  function SubWord(a: seq<Word>, b: seq<Word>, k: nat): Word
    requires k < |a| <= |b|
  {
    SubStep(a[k], b[k], SubBorrow(a, b, k)).0
  }

  /** The words of `a - b`, wrapping around below zero. */
  function SubWords(a: seq<Word>, b: seq<Word>): (r: seq<Word>)
    requires |a| <= |b|
    ensures |r| == |a|
  {
    seq(|a|, k requires 0 <= k < |a| => SubWord(a, b, k))
  }

  /** The first i difference words minus the borrow into word i are exactly a - b on those words. */
  lemma {:induction false} SubPrefixExact(a: seq<Word>, b: seq<Word>, i: nat)
    requires i <= |a| <= |b|
    ensures Value(SubWords(a, b)[..i]) - Radix(i) * SubBorrow(a, b, i)
         == Value(a[..i]) - Value(b[..i])
  {
    if i > 0 {
      SubPrefixExact(a, b, i - 1);
      SubPrefixStep(a, b, i);
    }
  }

  /** One more column keeps the difference exact. */
  lemma {:induction false} SubPrefixStep(a: seq<Word>, b: seq<Word>, i: nat)
    requires 0 < i <= |a| <= |b|
    requires Value(SubWords(a, b)[..i - 1]) - Radix(i - 1) * SubBorrow(a, b, i - 1)
          == Value(a[..i - 1]) - Value(b[..i - 1])
    ensures Value(SubWords(a, b)[..i]) - Radix(i) * SubBorrow(a, b, i)
         == Value(a[..i]) - Value(b[..i])
  {
    var r := SubWords(a, b);
    var borrow := SubBorrow(a, b, i - 1);
    var diff := r[i - 1];
    var next := SubBorrow(a, b, i);
    assert (diff, next) == SubStep(a[i - 1], b[i - 1], borrow);
    SubStepSpec(a[i - 1], b[i - 1], borrow);
    ValuePrefix(r, i);
    ValuePrefix(a, i);
    ValuePrefix(b, i);
    SubColumn(Value(r[..i - 1]), Radix(i - 1), borrow, Value(a[..i - 1]), Value(b[..i - 1]),
              a[i - 1], b[i - 1], diff, next, BASE);
  }

  /** Subtraction is exact modulo 2^(64 n) for every input. */
  lemma {:induction false} SubWordsValue(a: seq<Word>, b: seq<Word>)
    requires |a| <= |b|
    ensures Value(SubWords(a, b)) == Truncate(Value(a) - Value(b[..|a|]), |a|)
  {
    assert Value(SubWords(a, b)) == Truncate(Value(a) - Value(b[..|a|]), |a|) by {
      var c := SubWordsExact(a, b);
      ValueBound(SubWords(a, b));
      TruncateOfBorrow(Value(a) - Value(b[..|a|]), Value(SubWords(a, b)), |a|, c);
    }
  }

  /** The difference words minus the borrow out of the top word are exactly a - b. */
  lemma {:induction false} SubWordsExact(a: seq<Word>, b: seq<Word>) returns (c: nat)
    requires |a| <= |b|
    ensures Value(SubWords(a, b)) - Radix(|a|) * c == Value(a) - Value(b[..|a|])
  {
    c := SubBorrow(a, b, |a|);
    SubPrefixExact(a, b, |a|);
    ValueWhole(a);
    ValueWhole(SubWords(a, b));
  }

  /** `a -= a` leaves every word 0. */
  lemma {:induction false} SubWordsSelf(ws: seq<Word>)
    ensures SubWords(ws, ws) == Zeros(|ws|)
  {
    SubWordsValue(ws, ws);
    assert ws[..|ws|] == ws;
    ValueZeroIsZeros(SubWords(ws, ws));
  }
}
