/** The words of the frame bitmap as sets of frame numbers.

    A word is a number below 2^32; the bit operations of the source act on its binary digits. */
module FrameBits {
  type word = w: nat | w < 0x1_0000_0000

  const FULL: word := 0xFFFF_FFFF

  function Power2(n: nat): (p: nat)
    ensures p > 0
  {
    if n == 0 then 1 else 2 * Power2(n - 1)
  }

  /** Binary digit `j` of `w`: `w & (1 << j)` is not zero. */
  predicate Bit(w: nat, j: nat) {
    if j == 0 then w % 2 == 1 else Bit(w / 2, j - 1)
  }

  /** `w | (1 << j)` */
  function OrBit(w: nat, j: nat): nat {
    if j == 0 then w - w % 2 + 1 else 2 * OrBit(w / 2, j - 1) + w % 2
  }

  /** `w & ~(1 << j)` */
  function AndNotBit(w: nat, j: nat): nat {
    if j == 0 then w - w % 2 else 2 * AndNotBit(w / 2, j - 1) + w % 2
  }

  /** `w` with its low `n` bits zero, as memset leaves a word it has half overwritten. */
  function ClearLow(w: nat, n: nat): nat {
    if n == 0 then w else 2 * ClearLow(w / 2, n - 1)
  }

  lemma {:induction false} OrBitValue(w: nat, j: nat)
    ensures OrBit(w, j) == if Bit(w, j) then w else w + Power2(j)
  {
    if j > 0 {
      OrBitValue(w / 2, j - 1);
    }
  }

  lemma {:induction false} AndNotBitValue(w: nat, j: nat)
    ensures Bit(w, j) ==> w >= Power2(j)
    ensures AndNotBit(w, j) == if Bit(w, j) then w - Power2(j) else w
  {
    if j > 0 {
      AndNotBitValue(w / 2, j - 1);
    }
  }

  lemma {:induction false} OrSetsOneBit(w: nat, j: nat, k: nat)
    ensures Bit(OrBit(w, j), k) <==> j == k || Bit(w, k)
  {
    if j > 0 && k > 0 {
      OrSetsOneBit(w / 2, j - 1, k - 1);
    }
  }

  lemma {:induction false} AndNotClearsOneBit(w: nat, j: nat, k: nat)
    ensures Bit(AndNotBit(w, j), k) <==> j != k && Bit(w, k)
  {
    if j > 0 && k > 0 {
      AndNotClearsOneBit(w / 2, j - 1, k - 1);
    }
  }

  lemma {:induction false} ClearLowBits(w: nat, n: nat, k: nat)
    ensures Bit(ClearLow(w, n), k) <==> n <= k && Bit(w, k)
  {
    if n > 0 && k > 0 {
      ClearLowBits(w / 2, n - 1, k - 1);
    }
  }

  lemma {:induction false} ClearLowAtMost(w: nat, n: nat)
    ensures ClearLow(w, n) <= w
  {
    if n > 0 {
      ClearLowAtMost(w / 2, n - 1);
    }
  }

  lemma {:induction false} OrBitBounded(w: nat, j: nat, n: nat)
    requires w < Power2(n) && j < n
    ensures OrBit(w, j) < Power2(n)
  {
    if j > 0 {
      OrBitBounded(w / 2, j - 1, n - 1);
    }
  }

  lemma {:induction false} LargestHasAllBits(n: nat, j: nat)
    requires j < n
    ensures Bit(Power2(n) - 1, j)
  {
    if j > 0 {
      LargestHasAllBits(n - 1, j - 1);
      assert (Power2(n) - 1) / 2 == Power2(n - 1) - 1;
    }
  }

  /** Any other number of `n` bits has a clear bit to find. */
  lemma {:induction false} AllBitsIsLargest(w: nat, n: nat)
    requires w < Power2(n)
    requires forall j: nat :: j < n ==> Bit(w, j)
    ensures w == Power2(n) - 1
  {
    if n > 0 {
      forall j: nat | j < n - 1
        ensures Bit(w / 2, j)
      {
        assert Bit(w, j + 1);
      }
      AllBitsIsLargest(w / 2, n - 1);
      assert Bit(w, 0);
    }
  }

  lemma Width()
    ensures Power2(32) == 0x1_0000_0000
  {
    assert Power2(8) == 256;
    assert Power2(16) == 0x1_0000;
    assert Power2(24) == 0x100_0000;
  }

  ghost predicate AllBits(w: nat, n: nat) {
    forall j: nat :: j < n ==> Bit(w, j)
  }

  lemma FullWord(w: word)
    ensures w == FULL <==> AllBits(w, 32)
  {
    Width();
    if w == FULL {
      forall j: nat | j < 32
        ensures Bit(w, j)
      {
        LargestHasAllBits(32, j);
      }
    } else if AllBits(w, 32) {
      AllBitsIsLargest(w, 32);
    }
  }

  /** The three operations on words. */
  function Or(w: word, j: nat): word
    requires j < 32
  {
    Width();
    OrBitBounded(w, j, 32);
    OrBit(w, j)
  }

  function AndNot(w: word, j: nat): word
    requires j < 32
  {
    AndNotBitValue(w, j);
    AndNotBit(w, j)
  }

  function ClearBytes(w: word, n: nat): word
    requires n <= 4
  {
    ClearLowAtMost(w, 8 * n);
    ClearLow(w, 8 * n)
  }

  /** The frames whose bit is set: bit `f % 32` of word `f / 32`. */
  ghost function Marked(words: seq<word>): set<nat> {
    set f: nat | f < 32 * |words| && Bit(words[f / 32], f % 32)
  }

  lemma SetMarks(words: seq<word>, f: nat)
    requires f < 32 * |words|
    ensures Marked(words[f / 32 := Or(words[f / 32], f % 32)]) == Marked(words) + {f}
  {
    forall g: nat | g / 32 == f / 32
      ensures Bit(Or(words[f / 32], f % 32), g % 32) <==> g == f || Bit(words[f / 32], g % 32)
    {
      OrSetsOneBit(words[f / 32], f % 32, g % 32);
    }
  }

  lemma ClearUnmarks(words: seq<word>, f: nat)
    requires f < 32 * |words|
    ensures Marked(words[f / 32 := AndNot(words[f / 32], f % 32)]) == Marked(words) - {f}
  {
    forall g: nat | g / 32 == f / 32
      ensures Bit(AndNot(words[f / 32], f % 32), g % 32) <==> g != f && Bit(words[f / 32], g % 32)
    {
      AndNotClearsOneBit(words[f / 32], f % 32, g % 32);
    }
  }
}
