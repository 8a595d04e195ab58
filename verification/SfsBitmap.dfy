/** The freemap: 32-bit words whose bits stand for block ids, refined to a set
    of ids.  Bit j of word i stands for block id 32 * i + j + 1. */
module SfsBitmap {

  /** The C expression 1 << j: one shift per position. */
  function Mask(j: nat): bv32
    requires j < 32
  {
    if j == 0 then 1 else Mask(j - 1) << 1
  }

  predicate Has(w: bv32, m: bv32) {
    w & m != 0
  }

  predicate Bit(words: seq<bv32>, b: nat)
    requires 1 <= b <= 32 * |words|
  {
    Has(words[(b - 1) / 32], Mask((b - 1) % 32))
  }

  /** The set of block ids that the freemap marks as used. */
  ghost function UsedOf(words: seq<bv32>): set<nat> {
    set b: nat | 1 <= b <= 32 * |words| && Bit(words, b)
  }

  ghost function Upto(m: nat): (s: set<nat>)
    ensures forall b: nat :: b in s <==> 1 <= b <= m
    ensures |s| == m
  {
    if m == 0 then {} else Upto(m - 1) + {m}
  }

  // ----- bit-vector facts

  lemma LowBitClear(y: bv32)
    ensures 1 & (y << 1) == 0 && (y << 1) & 1 == 0
  {
  }

  lemma ShiftDistributes(x: bv32, y: bv32)
    ensures (x << 1) & (y << 1) == (x & y) << 1
  {
  }

  lemma {:induction false} MaskDisjoint(j: nat, k: nat)
    requires j < 32 && k < 32 && j != k
    ensures Mask(j) & Mask(k) == 0
  {
    if j == 0 {
      LowBitClear(Mask(k - 1));
    } else if k == 0 {
      LowBitClear(Mask(j - 1));
    } else {
      MaskDisjoint(j - 1, k - 1);
      ShiftDistributes(Mask(j - 1), Mask(k - 1));
    }
  }

  lemma MaskValues()
    ensures Mask(0) == 0x1 && Mask(1) == 0x2 && Mask(2) == 0x4 && Mask(3) == 0x8
    ensures Mask(4) == 0x10 && Mask(5) == 0x20 && Mask(6) == 0x40 && Mask(7) == 0x80
    ensures Mask(8) == 0x100 && Mask(9) == 0x200 && Mask(10) == 0x400 && Mask(11) == 0x800
    ensures Mask(12) == 0x1000 && Mask(13) == 0x2000 && Mask(14) == 0x4000 && Mask(15) == 0x8000
    ensures Mask(16) == 0x1_0000 && Mask(17) == 0x2_0000 && Mask(18) == 0x4_0000 && Mask(19) == 0x8_0000
    ensures Mask(20) == 0x10_0000 && Mask(21) == 0x20_0000 && Mask(22) == 0x40_0000 && Mask(23) == 0x80_0000
    ensures Mask(24) == 0x100_0000 && Mask(25) == 0x200_0000 && Mask(26) == 0x400_0000 && Mask(27) == 0x800_0000
    ensures Mask(28) == 0x1000_0000 && Mask(29) == 0x2000_0000 && Mask(30) == 0x4000_0000 && Mask(31) == 0x8000_0000
  {
  }

  lemma AllBits(w: bv32)
    requires w & 0x1 != 0 && w & 0x2 != 0 && w & 0x4 != 0 && w & 0x8 != 0
    requires w & 0x10 != 0 && w & 0x20 != 0 && w & 0x40 != 0 && w & 0x80 != 0
    requires w & 0x100 != 0 && w & 0x200 != 0 && w & 0x400 != 0 && w & 0x800 != 0
    requires w & 0x1000 != 0 && w & 0x2000 != 0 && w & 0x4000 != 0 && w & 0x8000 != 0
    requires w & 0x1_0000 != 0 && w & 0x2_0000 != 0 && w & 0x4_0000 != 0 && w & 0x8_0000 != 0
    requires w & 0x10_0000 != 0 && w & 0x20_0000 != 0 && w & 0x40_0000 != 0 && w & 0x80_0000 != 0
    requires w & 0x100_0000 != 0 && w & 0x200_0000 != 0 && w & 0x400_0000 != 0 && w & 0x800_0000 != 0
    requires w & 0x1000_0000 != 0 && w & 0x2000_0000 != 0 && w & 0x4000_0000 != 0 && w & 0x8000_0000 != 0
    ensures w == 0xFFFF_FFFF
  {
  }

  lemma FullAnd(m: bv32)
    ensures 0xFFFF_FFFF & m == m
  {
  }

  lemma DoubleNonzero(x: bv32)
    requires x != 0 && x & 0x8000_0000 == 0
    ensures x << 1 != 0
  {
  }

  lemma {:induction false} MaskNonzero(j: nat)
    requires j < 32
    ensures Mask(j) != 0
  {
    if j > 0 {
      MaskNonzero(j - 1);
      MaskValues();
      MaskDisjoint(j - 1, 31);
      DoubleNonzero(Mask(j - 1));
    }
  }

  lemma HasAllBits(w: bv32)
    requires forall j: nat :: j < 32 ==> Has(w, Mask(j))
    ensures w == 0xFFFF_FFFF
  {
    MaskValues();
    assert Has(w, Mask(0)) && Has(w, Mask(1)) && Has(w, Mask(2)) && Has(w, Mask(3));
    assert Has(w, Mask(4)) && Has(w, Mask(5)) && Has(w, Mask(6)) && Has(w, Mask(7));
    assert Has(w, Mask(8)) && Has(w, Mask(9)) && Has(w, Mask(10)) && Has(w, Mask(11));
    assert Has(w, Mask(12)) && Has(w, Mask(13)) && Has(w, Mask(14)) && Has(w, Mask(15));
    assert Has(w, Mask(16)) && Has(w, Mask(17)) && Has(w, Mask(18)) && Has(w, Mask(19));
    assert Has(w, Mask(20)) && Has(w, Mask(21)) && Has(w, Mask(22)) && Has(w, Mask(23));
    assert Has(w, Mask(24)) && Has(w, Mask(25)) && Has(w, Mask(26)) && Has(w, Mask(27));
    assert Has(w, Mask(28)) && Has(w, Mask(29)) && Has(w, Mask(30)) && Has(w, Mask(31));
    AllBits(w);
  }

  lemma FullHas(m: bv32)
    requires m != 0
    ensures Has(0xFFFF_FFFF, m)
  {
    FullAnd(m);
  }

  ghost predicate AllSet(w: bv32) {
    forall j: nat :: j < 32 ==> Has(w, Mask(j))
  }

  lemma FullHasAll(w: bv32)
    requires w == 0xFFFF_FFFF
    ensures AllSet(w)
  {
    forall j: nat | j < 32 ensures Has(w, Mask(j)) {
      MaskNonzero(j);
      FullHas(Mask(j));
    }
  }

  /** The test "freemap[i] != entry_full" finds exactly the words with a clear bit. */
  lemma EntryFull(w: bv32)
    ensures w == 0xFFFF_FFFF <==> AllSet(w)
  {
    if w == 0xFFFF_FFFF {
      FullHasAll(w);
    } else if AllSet(w) {
      HasAllBits(w);
    }
  }

  /** Two masks are the same nonzero mask, or they share no bit. */
  lemma MaskPair(j: nat, k: nat, m: bv32, n: bv32)
    requires j < 32 && k < 32 && m == Mask(j) && n == Mask(k)
    ensures j == k ==> m == n && m != 0
    ensures j != k ==> m & n == 0
  {
    if j == k {
      MaskNonzero(j);
    } else {
      MaskDisjoint(j, k);
    }
  }

  lemma OrHasSame(w: bv32, m: bv32)
    requires m != 0
    ensures Has(w | m, m)
  {
  }

  lemma OrHasOther(w: bv32, m: bv32, n: bv32)
    requires m & n == 0
    ensures Has(w | m, n) == Has(w, n)
  {
  }

  lemma AndNotHasSame(w: bv32, m: bv32)
    ensures !Has(w & !m, m)
  {
  }

  lemma AndNotHasOther(w: bv32, m: bv32, n: bv32)
    requires m & n == 0
    ensures Has(w & !m, n) == Has(w, n)
  {
  }

  lemma SetHas(w: bv32, j: nat, k: nat, m: bv32, n: bv32, w': bv32)
    requires j < 32 && k < 32 && m == Mask(j) && n == Mask(k) && w' == w | m
    ensures Has(w', n) == (j == k || Has(w, n))
  {
    MaskPair(j, k, m, n);
    if j == k {
      OrHasSame(w, m);
    } else {
      OrHasOther(w, m, n);
    }
  }

  lemma ClearHas(w: bv32, j: nat, k: nat, m: bv32, n: bv32, w': bv32)
    requires j < 32 && k < 32 && m == Mask(j) && n == Mask(k) && w' == w & !m
    ensures Has(w', n) == (j != k && Has(w, n))
  {
    MaskPair(j, k, m, n);
    if j == k {
      AndNotHasSame(w, m);
    } else {
      AndNotHasOther(w, m, n);
    }
  }

  /** From w to w', bit j was set and no other bit changed. */
  ghost predicate SetsBit(w: bv32, j: nat, w': bv32) {
    forall k: nat :: k < 32 ==> Has(w', Mask(k)) == (j == k || Has(w, Mask(k)))
  }

  /** From w to w', bit j was cleared and no other bit changed. */
  ghost predicate ClearsBit(w: bv32, j: nat, w': bv32) {
    forall k: nat :: k < 32 ==> Has(w', Mask(k)) == (j != k && Has(w, Mask(k)))
  }

  lemma OrSetsBit(w: bv32, j: nat, m: bv32, w': bv32)
    requires j < 32 && m == Mask(j) && w' == w | m
    ensures SetsBit(w, j, w')
  {
    forall k: nat | k < 32 ensures Has(w', Mask(k)) == (j == k || Has(w, Mask(k))) {
      SetHas(w, j, k, m, Mask(k), w');
    }
  }

  lemma AndNotClearsBit(w: bv32, j: nat, m: bv32, w': bv32)
    requires j < 32 && m == Mask(j) && w' == w & !m
    ensures ClearsBit(w, j, w')
  {
    forall k: nat | k < 32 ensures Has(w', Mask(k)) == (j != k && Has(w, Mask(k))) {
      ClearHas(w, j, k, m, Mask(k), w');
    }
  }

  // ----- the set view

  lemma IdSplit(i: nat, j: nat, b: nat)
    requires j < 32 && b >= 1
    ensures (b - 1) / 32 == i && (b - 1) % 32 == j <==> b == 32 * i + j + 1
  {
  }

  /** Marking a bit adds exactly its block id. */
  lemma SetBitAddsId(words: seq<bv32>, i: nat, j: nat, w: bv32)
    requires i < |words| && j < 32 && SetsBit(words[i], j, w)
    ensures UsedOf(words[i := w]) == UsedOf(words) + {32 * i + j + 1}
  {
    forall b: nat | 1 <= b <= 32 * |words|
      ensures Bit(words[i := w], b) <==> Bit(words, b) || b == 32 * i + j + 1
    {
      IdSplit(i, j, b);
    }
  }

  /** Clearing a bit removes exactly its block id. */
  lemma ClearBitRemovesId(words: seq<bv32>, i: nat, j: nat, w: bv32)
    requires i < |words| && j < 32 && ClearsBit(words[i], j, w)
    ensures UsedOf(words[i := w]) == UsedOf(words) - {32 * i + j + 1}
  {
    forall b: nat | 1 <= b <= 32 * |words|
      ensures Bit(words[i := w], b) <==> Bit(words, b) && b != 32 * i + j + 1
    {
      IdSplit(i, j, b);
    }
  }

  lemma SubsetCount(s: set<nat>, t: set<nat>)
    requires s <= t
    ensures |s| <= |t| && (|s| == |t| ==> s == t)
  {
    assert t == s + (t - s);
    assert |t| == |s| + |t - s|;
  }

  predicate OneBit(m: bv32) {
    m != 0 && m & (m - 1) == 0
  }

  lemma OneBitDoubled(m: bv32)
    requires OneBit(m) && m & 0x8000_0000 == 0
    ensures OneBit(m << 1)
  {
  }

  lemma {:induction false} MaskIsOneBit(j: nat)
    requires j < 32
    ensures OneBit(Mask(j))
  {
    if j > 0 {
      MaskIsOneBit(j - 1);
      MaskValues();
      MaskDisjoint(j - 1, 31);
      OneBitDoubled(Mask(j - 1));
    }
  }

  lemma BitOrNothing(w: bv32, m: bv32)
    requires OneBit(m)
    ensures w & m == 0 || w & m == m
  {
  }

  lemma NoDifference(w: bv32, x: bv32, m: bv32)
    requires m != 0 && w & m == x & m
    ensures Has(!(w ^ x), m)
  {
  }

  lemma SameHas(w: bv32, x: bv32, m: bv32)
    requires OneBit(m) && Has(w, m) == Has(x, m)
    ensures Has(!(w ^ x), m)
  {
    BitOrNothing(w, m);
    BitOrNothing(x, m);
    NoDifference(w, x, m);
  }

  lemma NoBitDiffers(w: bv32, x: bv32)
    requires !(w ^ x) == 0xFFFF_FFFF
    ensures w == x
  {
  }

  lemma SameBits(w: bv32, x: bv32)
    requires forall j: nat :: j < 32 ==> Has(w, Mask(j)) == Has(x, Mask(j))
    ensures w == x
  {
    var y := !(w ^ x);
    forall j: nat | j < 32 ensures Has(y, Mask(j)) {
      MaskIsOneBit(j);
      SameHas(w, x, Mask(j));
    }
    HasAllBits(y);
    NoBitDiffers(w, x);
  }

  /** The set of ids determines the words: nothing else is stored in the freemap. */
  lemma UsedDetermines(words: seq<bv32>, other: seq<bv32>)
    requires |words| == |other| && UsedOf(words) == UsedOf(other)
    ensures words == other
  {
    forall i: nat | i < |words| ensures words[i] == other[i] {
      forall j: nat | j < 32 ensures Has(words[i], Mask(j)) == Has(other[i], Mask(j)) {
        IdSplit(i, j, 32 * i + j + 1);
        assert 32 * i + j + 1 in UsedOf(words) <==> 32 * i + j + 1 in UsedOf(other);
      }
      SameBits(words[i], other[i]);
    }
  }

  /** Freeing the block that was just allocated restores every word of the freemap. */
  lemma FreeUndoesAlloc(words: seq<bv32>, taken: seq<bv32>, freed: seq<bv32>, bid: nat)
    requires |words| == |taken| == |freed| && bid !in UsedOf(words)
    requires UsedOf(taken) == UsedOf(words) + {bid} && UsedOf(freed) == UsedOf(taken) - {bid}
    ensures freed == words
  {
    UsedDetermines(words, freed);
  }
}
