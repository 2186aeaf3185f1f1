/**
 The MIPS R2000 multiplier of the machine simulator: a 32-step shift-and-add over
 two 32-bit halves.  A C `int` is a mathematical integer in [-2^31, 2^31) and an
 `unsigned int` one in [0, 2^32); every wrap-around of the C code is written out.
 */
module Multiply {
  const WORD: int := 0x1_0000_0000
  const HALF: int := 0x8000_0000

  predicate IsInt32(x: int) { -HALF <= x < HALF }
  predicate IsUint32(x: int) { 0 <= x < WORD }

  /** The conversion `(unsigned) x`. */
  function Unsigned(x: int): (r: int)
    requires IsInt32(x)
    ensures IsUint32(r)
  {
    if x < 0 then x + WORD else x
  }

  /** The conversion `(int) x`. */
  function Signed(x: int): (r: int)
    requires IsUint32(x)
    ensures IsInt32(r) && Unsigned(r) == x
  {
    if x < HALF then x else x - WORD
  }

  /** `-x` on a C int, with the most negative value its own negation. */
  function Negate(x: int): (r: int)
    requires IsInt32(x)
    ensures IsInt32(r)
  {
    if x == -HALF then x else -x
  }

  /** The 64-bit value held by a pair of unsigned words. */
  function Pair(hi: int, lo: int): int { hi * WORD + lo }

  lemma AddStep(r: int, b: int, p: int, bit: int)
    requires 0 <= bit <= 1
    ensures (r + bit * p) * b == r * b + bit * (b * p)
  {
    if bit == 1 {
      assert (r + p) * b == r * b + p * b;
    }
  }

  /** A product with one factor below `p` stays below `b * p`. */
  lemma ProductBound(r: int, b: int, p: int)
    requires 0 <= r < p && 0 <= b < WORD && 0 < p <= WORD
    ensures 0 <= r * b <= (WORD - 1) * (WORD - 1)
    ensures 0 <= b * p <= (WORD - 1) * WORD
  {
    MulMonotone(r, b, WORD - 1, WORD - 1);
    MulMonotone(b, p, WORD - 1, WORD);
  }

  lemma MulMonotone(x: int, y: int, x': int, y': int)
    requires 0 <= x <= x' && 0 <= y <= y'
    ensures 0 <= x * y <= x' * y'
  {
    assert x * y <= x' * y;
    assert x' * y <= x' * y';
  }

  /** One pass of the accumulating half of the loop: 64-bit addition with the carry detected by `lo < bLo`. */
  method AddPair(hi: int, lo: int, bHi: int, bLo: int) returns (hi': int, lo': int)
    requires IsUint32(hi) && IsUint32(lo) && IsUint32(bHi) && IsUint32(bLo)
    requires Pair(hi, lo) + Pair(bHi, bLo) < WORD * WORD
    ensures IsUint32(hi') && IsUint32(lo')
    ensures Pair(hi', lo') == Pair(hi, lo) + Pair(bHi, bLo)
  {
    hi', lo' := hi, (lo + bLo) % WORD;
    if lo' < bLo {
      hi' := (hi' + 1) % WORD;
    }
    hi' := (hi' + bHi) % WORD;
  }

  /** The two's complement of a non-zero double word. */
  method NegatePair(hi: int, lo: int) returns (hi': int, lo': int)
    requires IsUint32(hi) && IsUint32(lo) && Pair(hi, lo) != 0
    ensures IsUint32(hi') && IsUint32(lo')
    ensures Pair(hi', lo') == WORD * WORD - Pair(hi, lo)
  {
    hi', lo' := WORD - 1 - hi, WORD - 1 - lo;
    lo' := (lo' + 1) % WORD;
    if lo' == 0 {
      hi' := (hi' + 1) % WORD;
    }
  }

  /**
   What the first i iterations have established: p is 2^i, r the low i bits of the
   multiplicand, and the accumulator and the shifted multiplier hold r * b and b * p.
   */
  ghost predicate Progress(a0: int, b: int, a: int, p: int, r: int, acc: int, shifted: int) {
    && 0 <= r < p
    && a0 == a * p + r
    && acc == r * b
    && shifted == b * p
  }

  /** One iteration, on mathematical integers. */
  lemma Advance(a0: int, b: int, a: int, p: int, r: int, acc: int, shifted: int) returns (r': int)
    requires Progress(a0, b, a, p, r, acc, shifted) && IsUint32(b) && 2 * p <= WORD
    ensures Progress(a0, b, a / 2, 2 * p, r', if a % 2 == 1 then acc + shifted else acc, 2 * shifted)
    ensures 0 <= acc && 0 <= acc + shifted < WORD * WORD && 0 <= 2 * shifted < WORD * WORD
  {
    r' := r + (a % 2) * p;
    BitStep(a, p, r);
    AddStep(r, b, p, a % 2);
    AddStep(0, b, 2 * p, 1);
    ProductBound(r, b, p);
    ProductBound(r + p, b, 2 * p);
    AddStep(r, b, p, 1);
    assert b * (2 * p) == 2 * (b * p);
  }

  lemma Start(a0: int, b: int)
    ensures Progress(a0, b, a0, 1, 0, 0, b)
  {
  }

  /** What is left to read off when the multiplicand is used up: one bit at the early exit, none after 32 steps. */
  lemma Finish(a0: int, b: int, a: int, p: int, r: int, acc: int, shifted: int)
    requires Progress(a0, b, a, p, r, acc, shifted) && IsInt32(a0) && p <= WORD
    ensures a == 1 ==> acc + shifted == Unsigned(a0) * b
    ensures p == WORD ==> acc == Unsigned(a0) * b
  {
    if a == 1 {
      AddStep(r, b, p, 1);
    }
    if p == WORD {
      LastBit(a0, a, r);
    }
  }

  /**
   The unsigned main loop.  `a0` is still a signed C int, shifted arithmetically, so a
   multiplicand with its top bit set never takes the early exit and is consumed bit by bit.
   */
  method MultiplyMagnitudes(a0: int, b0: int) returns (hi: int, lo: int)
    requires IsInt32(a0) && IsInt32(b0) && a0 != 0
    ensures IsUint32(hi) && IsUint32(lo)
    ensures Pair(hi, lo) == Unsigned(a0) * Unsigned(b0)
  {
    var a, bLo, bHi := a0, Unsigned(b0), 0;
    lo, hi := 0, 0;
    ghost var b, p, r := Unsigned(b0), 1, 0;
    Start(a0, b);
    var i := 0;
    while i < 32
      invariant 0 <= i <= 32 && p == Pow2(i) && IsInt32(a)
      invariant IsUint32(hi) && IsUint32(lo) && IsUint32(bHi) && IsUint32(bLo)
      invariant Progress(a0, b, a, p, r, Pair(hi, lo), Pair(bHi, bLo))
    {
      Pow2Bound(i + 1);
      ghost var acc, shifted := Pair(hi, lo), Pair(bHi, bLo);
      if a % 2 == 1 {
        Finish(a0, b, a, p, r, acc, shifted);
      }
      r := Advance(a0, b, a, p, r, acc, shifted);
      if a % 2 == 1 {
        hi, lo := AddPair(hi, lo, bHi, bLo);
        if a - a % 2 == 0 {
          return;
        }
      }
      DoublePair(bHi, bLo, shifted);
      bHi := bHi * 2 % WORD;
      if bLo >= HALF {
        bHi := bHi + 1;
      }
      bLo := bLo * 2 % WORD;
      a := a / 2;
      p := 2 * p;
      i := i + 1;
    }
    Pow2Bound(32);
    Finish(a0, b, a, p, r, Pair(hi, lo), Pair(bHi, bLo));
  }

  function Pow2(i: nat): (p: int)
    ensures p > 0
  {
    if i == 0 then 1 else 2 * Pow2(i - 1)
  }

  lemma {:induction false} Pow2Bound(i: nat)
    requires i <= 32
    ensures Pow2(i) <= WORD && (i == 32 ==> Pow2(i) == WORD)
  {
    Pow2Exact(i, 32);
  }

  lemma {:induction false} Pow2Exact(i: nat, n: nat)
    requires i <= n
    ensures Pow2(i) <= Pow2(n)
    ensures Pow2(32) == WORD
    decreases n
  {
    assert Pow2(8) == 256;
    assert Pow2(16) == 0x1_0000;
    assert Pow2(24) == 0x100_0000;
    if i < n { Pow2Exact(i, n - 1); }
  }

  lemma BitStep(a: int, p: int, r: int)
    requires 0 <= r < p
    ensures a * p + r == (a / 2) * (2 * p) + (r + (a % 2) * p)
    ensures 0 <= r + (a % 2) * p < 2 * p
  {
    assert a == 2 * (a / 2) + a % 2;
    assert a * p == (2 * (a / 2)) * p + (a % 2) * p;
  }

  lemma DoublePair(hi: int, lo: int, n: int)
    requires IsUint32(hi) && IsUint32(lo) && Pair(hi, lo) == n
    requires 2 * n < WORD * WORD
    ensures Pair(hi * 2 % WORD + (if lo >= HALF then 1 else 0), lo * 2 % WORD) == 2 * n
    ensures hi < HALF
  {
  }

  lemma LastBit(a0: int, a: int, r: int)
    requires IsInt32(a0) && IsUint32(r) && a0 == a * WORD + r
    ensures r == Unsigned(a0)
  {
  }

  /** Multiplication of magnitudes: what negating the negative operands leaves to multiply. */
  lemma SignOfProduct(a: int, b: int)
    requires IsInt32(a) && IsInt32(b)
    ensures Unsigned(Magnitude(a)) * Unsigned(Magnitude(b)) == if (a < 0) != (b < 0) then -(a * b) else a * b
    ensures -(HALF * HALF) <= a * b <= HALF * HALF
  {
    var x, y := if a < 0 then -a else a, if b < 0 then -b else b;
    MulMonotone(x, y, HALF, HALF);
    assert a < 0 ==> x * y == -(a * y);
    assert b < 0 ==> a * y == -(a * b);
  }

  function Magnitude(x: int): (r: int)
    requires IsInt32(x)
    ensures IsInt32(r) && Unsigned(r) == if x < 0 then -x else x
  {
    if x < 0 then Negate(x) else x
  }

  /**
   The `MULT` and `MULTU` instructions: hi:lo is the exact double-length product, signed
   or unsigned, for every pair of operands.
   */
  method Mult(a0: int, b0: int, signedArith: bool) returns (hiReg: int, loReg: int)
    requires IsInt32(a0) && IsInt32(b0)
    ensures IsInt32(hiReg) && IsInt32(loReg)
    ensures signedArith ==> Pair(hiReg, Unsigned(loReg)) == a0 * b0
    ensures !signedArith ==> Pair(Unsigned(hiReg), Unsigned(loReg)) == Unsigned(a0) * Unsigned(b0)
  {
    if a0 == 0 || b0 == 0 {
      return 0, 0;
    }
    var a, b, negative := a0, b0, false;
    if signedArith {
      if a < 0 {
        negative := !negative;
        a := Negate(a);
      }
      if b < 0 {
        negative := !negative;
        b := Negate(b);
      }
      SignOfProduct(a0, b0);
    }
    var hi, lo := MultiplyMagnitudes(a, b);
    if negative {
      hi, lo := NegatePair(hi, lo);
    }
    hiReg, loReg := Signed(hi), Signed(lo);
  }
}
