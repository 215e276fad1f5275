/** 64-bit words: the bit tricks that size the incremental tree, against the word read bit by bit. */
module Words {

  /** The number a word stands for. */
  ghost function Value(w: bv64): nat
    decreases w
  {
    if w == 0 then 0 else 2 * Value(w >> 1) + if w & 1 != 0 then 1 else 0
  }

  /** The number of bits up to the highest one set. */
  ghost function Bits(w: bv64): nat
    decreases w
  {
    if w == 0 then 0 else 1 + Bits(w >> 1)
  }

  predicate Even(w: bv64) { w & 1 == 0 }

  function Half(w: bv64): bv64 { w >> 1 }

  function Next(w: bv64): bv64 { w + 1 }

  const LAST_WORD: bv64 := 0xFFFF_FFFF_FFFF_FFFF

  function Smear(w: bv64): bv64 {
    var w := w | (w >> 1);
    var w := w | (w >> 2);
    var w := w | (w >> 4);
    var w := w | (w >> 8);
    var w := w | (w >> 16);
    w | (w >> 32)
  }

  function NextPowerOf2(w: bv64): bv64 {
    Smear(w - 1) + 1
  }

  /** Counts as the source does; on a power of two this is its exponent. */
  function ClzPower2(w: bv64): int {
    var lz := if w != 0 then 63 else 64;
    var lz := if w & 0x00000000FFFFFFFF != 0 then lz - 32 else lz;
    var lz := if w & 0x0000FFFF0000FFFF != 0 then lz - 16 else lz;
    var lz := if w & 0x00FF00FF00FF00FF != 0 then lz - 8 else lz;
    var lz := if w & 0x0F0F0F0F0F0F0F0F != 0 then lz - 4 else lz;
    var lz := if w & 0x3333333333333333 != 0 then lz - 2 else lz;
    if w & 0x5555555555555555 != 0 then lz - 1 else lz
  }

  function MaxDepth(nodeCount: bv64): int {
    if nodeCount == 0 then 0 else ClzPower2(NextPowerOf2(nodeCount)) + 1
  }

  lemma SmearMask(w: bv64)
    ensures Smear(w) & (Smear(w) + 1) == 0
  {
  }

  lemma SmearHalf(w: bv64)
    ensures Smear(w >> 1) == Smear(w) >> 1
  {
  }

  lemma SmearOdd(w: bv64)
    requires w != 0
    ensures Smear(w) & 1 == 1
  {
  }

  lemma ClzDoubles(m: bv64)
    requires m & (m + 1) == 0 && m & 1 == 1
    ensures ClzPower2(m + 1) == ClzPower2((m >> 1) + 1) + 1
  {
  }

  lemma ClzSmearZero()
    ensures ClzPower2(Smear(0) + 1) == 0
  {
  }

  lemma Halved(w: bv64)
    requires w != 0
    ensures w >> 1 < w
  {
  }

  /** The depth that the bit tricks compute is the bit length of the last index. */
  lemma {:induction false} ClzSmear(w: bv64)
    ensures ClzPower2(Smear(w) + 1) == Bits(w)
    decreases w
  {
    hide Smear, ClzPower2;
    if w == 0 {
      ClzSmearZero();
    } else {
      Halved(w);
      ClzSmear(w >> 1);
      SmearHalf(w);
      SmearOdd(w);
      SmearMask(w);
      ClzDoubles(Smear(w));
    }
  }

  lemma DepthIsBitLength(w: bv64)
    requires w != LAST_WORD
    ensures MaxDepth(Next(w)) - 1 == Bits(w) && MaxDepth(0) == 0
  {
    assert w + 1 != 0 && (w + 1) - 1 == w;
    ClzSmear(w);
  }

  lemma EvenNext(w: bv64)
    requires w & 1 == 0
    ensures (w + 1) >> 1 == w >> 1 && (w + 1) & 1 == 1 && w + 1 != 0
  {
  }

  lemma OddNext(w: bv64)
    requires w & 1 == 1 && w != 0xFFFF_FFFF_FFFF_FFFF
    ensures (w + 1) >> 1 == (w >> 1) + 1 && (w + 1) & 1 == 0 && w + 1 != 0
    ensures w != 0 && w >> 1 != 0xFFFF_FFFF_FFFF_FFFF
  {
  }

  lemma LowBit(w: bv64)
    ensures w & 1 == 0 || w & 1 == 1
  {
  }

  lemma ValueNextEven(w: bv64)
    requires w & 1 == 0
    ensures Value(w + 1) == Value(w) + 1
  {
    hide Value;
    EvenNext(w);
    ValueDigits(w);
    ValueDigits(w + 1);
  }

  lemma ValueNextOdd(w: bv64)
    requires w & 1 == 1 && w != 0xFFFF_FFFF_FFFF_FFFF
    requires Value((w >> 1) + 1) == Value(w >> 1) + 1
    ensures Value(w + 1) == Value(w) + 1
  {
    hide Value;
    OddNext(w);
    ValueDigits(w);
    ValueDigits(w + 1);
  }

  lemma {:induction false} ValueNext(w: bv64)
    requires w != LAST_WORD
    ensures Value(Next(w)) == Value(w) + 1
    decreases Bits(w)
  {
    hide Value;
    LowBit(w);
    if w & 1 == 0 {
      ValueNextEven(w);
    } else {
      OddNext(w);
      ValueNext(w >> 1);
      ValueNextOdd(w);
    }
  }

  lemma ValueDigits(w: bv64)
    ensures Value(w) == 2 * Value(w >> 1) + if w & 1 != 0 then 1 else 0
  {
    if w == 0 {
      assert w >> 1 == 0 && w & 1 == 0;
    }
  }

  /** Shifting a word right drops its last binary digit. */
  lemma ValueHalf(w: bv64)
    ensures Value(Half(w)) == Value(w) / 2
    ensures Even(w) <==> Value(w) % 2 == 0
    ensures w == 0 <==> Value(w) == 0
  {
    LowBit(w);
    if w != 0 && w & 1 == 0 && Value(w >> 1) == 0 {
      ValueZero(w >> 1);
    }
  }

  lemma BitsHalf(w: bv64)
    ensures Bits(w) == 0 <==> w == 0
    ensures w != 0 ==> Bits(Half(w)) == Bits(w) - 1
  {
  }

  lemma {:induction false} ValueZero(w: bv64)
    requires w != 0
    ensures Value(w) > 0
    decreases w
  {
    if w & 1 == 0 {
      assert w >> 1 != 0;
      ValueZero(w >> 1);
    }
  }
}
