/** The free bitmap: bit k of the concatenated bitmap blocks is set exactly for the free blocks. */
module Bitmap {
  import opened Arith
  import Bytes
  import opened Image

  const WORD: nat := 32

  predicate Bit(w: nat, k: nat) {
    if k == 0 then w % 2 == 1 else Bit(w / 2, k - 1)
  }

  /** w | (1 << k) */
  function OrBit(w: nat, k: nat): nat {
    if Bit(w, k) then w else w + Pow2(k)
  }

  /** The word whose bit i, for i < n, is set iff start <= base + i < end. */
  function RangeWord(base: nat, start: nat, end: nat, n: nat): nat {
    if n == 0 then 0
    else RangeWord(base, start, end, n - 1) + if start <= base + n - 1 < end then Pow2(n - 1) else 0
  }

  lemma {:induction false} RangeWordBound(base: nat, start: nat, end: nat, n: nat)
    ensures RangeWord(base, start, end, n) < Pow2(n)
  {
    if n > 0 {
      RangeWordBound(base, start, end, n - 1);
    }
  }

  lemma {:induction false} RangeEmpty(base: nat, start: nat, end: nat, n: nat)
    requires end <= start
    ensures RangeWord(base, start, end, n) == 0
  {
    if n > 0 {
      RangeEmpty(base, start, end, n - 1);
    }
  }

  lemma {:induction false} RangeWordBits(base: nat, start: nat, end: nat, n: nat, i: nat)
    requires i < n
    ensures Bit(RangeWord(base, start, end, n), i) <==> start <= base + i < end
  {
    var w := RangeWord(base, start, end, n - 1);
    RangeWordBound(base, start, end, n - 1);
    if i == n - 1 {
      TopBit(w, i);
    } else {
      RangeWordBits(base, start, end, n - 1, i);
      HighBit(w, i, n - 1);
    }
  }

  lemma {:induction false} TopBit(w: nat, i: nat)
    requires w < Pow2(i)
    ensures !Bit(w, i) && Bit(w + Pow2(i), i)
  {
    if i > 0 {
      TopBit(w / 2, i - 1);
    }
  }

  /** A bit above i does not show in bit i. */
  lemma {:induction false} HighBit(w: nat, i: nat, n: nat)
    requires i < n
    ensures Bit(w + Pow2(n), i) == Bit(w, i)
  {
    if i > 0 {
      HighBit(w / 2, i - 1, n - 1);
    }
  }

  // ---- setting the bits of a range one by one ----

  /** One turn of the loop that sets bit j of the bitmap: only the word of j changes. */
  lemma {:induction false} RangeWordStep(base: nat, start: nat, j: nat, n: nat)
    requires start <= j
    ensures RangeWord(base, start, j + 1, n) ==
            if base <= j < base + n then OrBit(RangeWord(base, start, j, n), j - base) else RangeWord(base, start, j, n)
  {
    if n > 0 {
      RangeWordStep(base, start, j, n - 1);
      if j == base + n - 1 {
        RangeWordBits(base, start, j, n, n - 1);
      } else if base <= j < base + n - 1 {
        RangeWordBits(base, start, j, n, j - base);
        RangeWordBits(base, start, j, n - 1, j - base);
      }
    }
  }

  /** Words of a bitmap block in which exactly the bits start..end are set. */
  function RangeWords(start: nat, end: nat): (r: seq<nat>)
    ensures |r| == NENTRY
  {
    seq(NENTRY, w requires 0 <= w < NENTRY => RangeWord(WORD * w, start, end, WORD))
  }

  /** Bitmap block number i of an image with ninos blocks, the first next of them in use. */
  function BitmapWords(ninos: nat, next: nat, i: nat): (r: seq<nat>)
    requires BLKBITS * i < ninos
    ensures |r| == NENTRY
  {
    var base := BLKBITS * i;
    var start := if next > base then next - base else 0;
    var end := if base + BLKBITS > ninos then ninos - base else BLKBITS;
    RangeWords(start, end)
  }

  lemma WordBound(base: nat, start: nat, end: nat)
    ensures RangeWord(base, start, end, WORD) < Bytes.W32
  {
    hide RangeWord;
    RangeWordBound(base, start, end, WORD);
    Pow2Of32();
  }

  lemma Digits(k: nat)
    ensures k == BLKBITS * (k / BLKBITS) + WORD * (k % BLKBITS / WORD) + k % WORD
    ensures k % BLKBITS / WORD < NENTRY && k % WORD < WORD && k % BLKBITS < BLKBITS
  {}

  /** Bit k of the concatenated bitmap blocks is set iff block k is free. */
  lemma BitmapBits(ninos: nat, next: nat, k: nat)
    requires BLKBITS * (k / BLKBITS) < ninos
    ensures var w := BitmapWords(ninos, next, k / BLKBITS)[k % BLKBITS / WORD];
      w < Bytes.W32 && (Bit(w, k % WORD) <==> next <= k < ninos)
  {
    hide RangeWord, Bit, Pow2;
    var base := BLKBITS * (k / BLKBITS);
    var start := if next > base then next - base else 0;
    var end := if base + BLKBITS > ninos then ninos - base else BLKBITS;
    var j := k % BLKBITS / WORD;
    Digits(k);
    RangeWordBits(WORD * j, start, end, WORD, k % WORD);
    WordBound(WORD * j, start, end);
  }
}
