/** The bitmap allocator of lib/bitmap.cc: bits packed in 32-bit words, first-fit search. */
module Bitmaps {
  import opened Bytes

  const BITS_IN_WORD := 32

  /** The mask `1 << k`, one shift at a time. */
  function Mask(k: nat): bv32
    requires k < BITS_IN_WORD
  {
    if k == 0 then 1 else Mask(k - 1) << 1
  }

  predicate Has(word: bv32, mask: bv32) { word & mask != 0 }

  function Put(word: bv32, mask: bv32, on: bool): bv32 {
    if on then word | mask else word & !mask
  }

  predicate TestBit(words: seq<bv32>, which: nat)
    requires which < |words| * BITS_IN_WORD
  {
    Has(words[which / BITS_IN_WORD], Mask(which % BITS_IN_WORD))
  }

  /** What a packed bitmap means: its first n bits. */
  function Unpack(words: seq<bv32>, n: nat): (bits: seq<bool>)
    requires n <= |words| * BITS_IN_WORD
    ensures |bits| == n
  {
    seq(n, i requires 0 <= i < n => TestBit(words, i))
  }

  lemma LowBitIsLost(x: bv32)
    ensures (x << 1) & 1 == 0 && 1 & (x << 1) == 0
  {
  }

  lemma ShiftedStayDisjoint(x: bv32, y: bv32)
    requires x & y == 0
    ensures (x << 1) & (y << 1) == 0
  {
  }

  lemma {:induction false} MasksDistinct(j: nat, k: nat)
    requires j < BITS_IN_WORD && k < BITS_IN_WORD && j != k
    ensures Mask(j) & Mask(k) == 0
  {
    if j == 0 {
      LowBitIsLost(Mask(k - 1));
    } else if k == 0 {
      LowBitIsLost(Mask(j - 1));
    } else {
      MasksDistinct(j - 1, k - 1);
      ShiftedStayDisjoint(Mask(j - 1), Mask(k - 1));
    }
  }

  /** No mask is shifted out of the word: the last one is not. */
  lemma {:induction false} MaskNonZero(k: nat)
    requires k < BITS_IN_WORD
    ensures Mask(k) != 0
    decreases BITS_IN_WORD - k
  {
    if k == BITS_IN_WORD - 1 {
      assert Mask(8) == 0x100;
      assert Mask(16) == 0x1_0000;
      assert Mask(24) == 0x100_0000;
      assert Mask(31) == 0x8000_0000;
    } else {
      MaskNonZero(k + 1);
      assert (0 as bv32) << 1 == 0;
    }
  }

  lemma PutSame(word: bv32, mask: bv32, on: bool)
    requires mask != 0
    ensures Has(Put(word, mask, on), mask) <==> on
  {
  }

  lemma OrDisjoint(word: bv32, mask: bv32, other: bv32)
    requires mask & other == 0
    ensures (word | mask) & other == word & other
  {
  }

  lemma AndNotDisjoint(word: bv32, mask: bv32, other: bv32)
    requires mask & other == 0
    ensures (word & !mask) & other == word & other
  {
  }

  lemma PutDisjoint(word: bv32, mask: bv32, other: bv32, on: bool)
    requires mask & other == 0
    ensures Put(word, mask, on) & other == word & other
  {
    if on {
      OrDisjoint(word, mask, other);
    } else {
      AndNotDisjoint(word, mask, other);
    }
  }

  lemma PutOther(word: bv32, mask: bv32, other: bv32, on: bool)
    requires mask & other == 0
    ensures Has(Put(word, mask, on), other) <==> Has(word, other)
  {
    hide Put;
    PutDisjoint(word, mask, other, on);
  }

  /** Setting or clearing one bit of one word changes that bit of the bitmap and no other. */
  lemma UpdateUnpacked(words: seq<bv32>, n: nat, which: nat, on: bool)
    requires which < n <= |words| * BITS_IN_WORD
    ensures var w := which / BITS_IN_WORD;
            Unpack(words[w := Put(words[w], Mask(which % BITS_IN_WORD), on)], n) == Unpack(words, n)[which := on]
  {
    hide Has, Put, Mask;
    var w, mask := which / BITS_IN_WORD, Mask(which % BITS_IN_WORD);
    var words' := words[w := Put(words[w], mask, on)];
    MaskNonZero(which % BITS_IN_WORD);
    PutSame(words[w], mask, on);
    forall i | 0 <= i < n
      ensures TestBit(words', i) == if i == which then on else TestBit(words, i)
    {
      if i % BITS_IN_WORD == which % BITS_IN_WORD {
        assert i / BITS_IN_WORD == w ==> i == which;
      } else {
        MasksDistinct(which % BITS_IN_WORD, i % BITS_IN_WORD);
        PutOther(words[w], mask, Mask(i % BITS_IN_WORD), on);
      }
    }
  }

  function CountClear(bits: seq<bool>): nat {
    if bits == [] then 0 else CountClear(bits[..|bits| - 1]) + if bits[|bits| - 1] then 0 else 1
  }

  function Clear(bits: seq<bool>): set<nat> {
    set i: nat | i < |bits| && !bits[i]
  }

  /** CountClear is the number of items not allocated. */
  lemma {:induction false} CountClearIsCardinality(bits: seq<bool>)
    ensures CountClear(bits) == |Clear(bits)|
  {
    if bits != [] {
      var last := |bits| - 1;
      CountClearIsCardinality(bits[..last]);
      assert Clear(bits) == if bits[last] then Clear(bits[..last]) else Clear(bits[..last]) + {last};
    }
  }

  /** Allocating a free item leaves exactly one fewer. */
  lemma CountClearMark(bits: seq<bool>, which: nat)
    requires which < |bits| && !bits[which]
    ensures CountClear(bits[which := true]) == CountClear(bits) - 1
  {
    CountClearIsCardinality(bits);
    CountClearIsCardinality(bits[which := true]);
    assert Clear(bits) == Clear(bits[which := true]) + {which};
  }

  /** The first free item, or none. */
  predicate IsFirstClear(bits: seq<bool>, r: int) {
    if r == -1 then forall i :: 0 <= i < |bits| ==> bits[i]
    else 0 <= r < |bits| && !bits[r] && forall i :: 0 <= i < r ==> bits[i]
  }

  function FirstClear(bits: seq<bool>): (r: int)
    ensures IsFirstClear(bits, r)
    ensures (r == -1) <==> CountClear(bits) == 0
  {
    FirstClearFrom(bits, 0)
  }

  function FirstClearFrom(bits: seq<bool>, from: nat): (r: int)
    requires from <= |bits| && forall i :: 0 <= i < from ==> bits[i]
    ensures IsFirstClear(bits, r)
    ensures (r == -1) <==> CountClear(bits) == 0
    decreases |bits| - from
  {
    if from == |bits| then
      FullHasNoneClear(bits);
      -1
    else if bits[from] then FirstClearFrom(bits, from + 1)
    else
      CountClearMark(bits, from);
      from
  }

  lemma {:induction false} FullHasNoneClear(bits: seq<bool>)
    requires forall i :: 0 <= i < |bits| ==> bits[i]
    ensures CountClear(bits) == 0
  {
    if bits != [] { FullHasNoneClear(bits[..|bits| - 1]); }
  }

  class Bitmap {
    const numBits: nat
    const words: array<bv32>

    ghost predicate Valid() {
      numBits > 0 && words.Length == DivRoundUp(numBits, BITS_IN_WORD)
    }

    ghost function Bits(): (bits: seq<bool>)
      requires Valid()
      reads words
      ensures |bits| == numBits
    {
      Unpack(words[..], numBits)
    }

    constructor (numItems: nat)
      requires numItems > 0
      ensures Valid() && fresh(words) && numBits == numItems
      ensures Bits() == seq(numItems, _ => false)
    {
      numBits := numItems;
      words := new bv32[DivRoundUp(numItems, BITS_IN_WORD)];
      new;
      for i := 0 to words.Length
        invariant forall j :: 0 <= j < i ==> words[j] == 0
      {
        words[i] := 0;
      }
      assert forall i :: 0 <= i < numBits ==> words[..][i / BITS_IN_WORD] == 0;
      for i := 0 to numBits
        invariant Bits() == seq(numBits, _ => false)
      {
        Clear(i);
      }
    }

    method Mark(which: nat)
      requires Valid() && which < numBits
      modifies words
      ensures Bits() == old(Bits())[which := true]
    {
      hide Has, Put, Mask;
      UpdateUnpacked(words[..], numBits, which, true);
      words[which / BITS_IN_WORD] := Put(words[which / BITS_IN_WORD], Mask(which % BITS_IN_WORD), true);
      assert words[..] == old(words[..])[which / BITS_IN_WORD := words[which / BITS_IN_WORD]];
    }

    method Clear(which: nat)
      requires Valid() && which < numBits
      modifies words
      ensures Bits() == old(Bits())[which := false]
    {
      hide Has, Put, Mask;
      UpdateUnpacked(words[..], numBits, which, false);
      words[which / BITS_IN_WORD] := Put(words[which / BITS_IN_WORD], Mask(which % BITS_IN_WORD), false);
      assert words[..] == old(words[..])[which / BITS_IN_WORD := words[which / BITS_IN_WORD]];
    }

    method Test(which: nat) returns (set_: bool)
      requires Valid() && which < numBits
      ensures set_ == Bits()[which]
    {
      set_ := Has(words[which / BITS_IN_WORD], Mask(which % BITS_IN_WORD));
    }

    /** First fit: the lowest free item, now allocated, or -1 and no change. */
    method FindAndSet() returns (r: int)
      requires Valid()
      modifies words
      ensures r == FirstClear(old(Bits()))
      ensures Bits() == if r == -1 then old(Bits()) else old(Bits())[r := true]
    {
      for i := 0 to numBits
        invariant words[..] == old(words[..])
        invariant forall j :: 0 <= j < i ==> Bits()[j]
      {
        var marked := Test(i);
        if !marked {
          Mark(i);
          return i;
        }
      }
      assert Bits() == old(Bits());
      return -1;
    }

    method NumClear() returns (count: nat)
      requires Valid()
      ensures count == CountClear(Bits())
    {
      count := 0;
      for i := 0 to numBits
        invariant count == CountClear(Bits()[..i])
      {
        assert Bits()[..i + 1][..i] == Bits()[..i];
        var marked := Test(i);
        if !marked {
          count := count + 1;
        }
      }
      assert Bits()[..numBits] == Bits();
    }
  }
}
