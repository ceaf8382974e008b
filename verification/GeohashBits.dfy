/**
 * The bit-level half of peat-protocol/src/geohash.rs: spreading a 32-bit word over the even
 * positions of a 64-bit word, squashing it back, and reading words as bit strings.
 *
 * Words are bit-vectors. A word is related to numbers only through its bit string, most
 * significant bit first (TopBits), so no proof has to relate bit-vector and integer arithmetic.
 */
module GeohashBits {
  // --- The source's word operations ---

  function Spread(x: bv32): bv64 {
    var v0 := x as bv64;
    var v1 := (v0 | (v0 << 16)) & 0x0000ffff0000ffff;
    var v2 := (v1 | (v1 << 8)) & 0x00ff00ff00ff00ff;
    var v3 := (v2 | (v2 << 4)) & 0x0f0f0f0f0f0f0f0f;
    var v4 := (v3 | (v3 << 2)) & 0x3333333333333333;
    (v4 | (v4 << 1)) & 0x5555555555555555
  }

  function Squash(x: bv64): bv32 {
    var v0 := x & 0x5555555555555555;
    var v1 := (v0 | (v0 >> 1)) & 0x3333333333333333;
    var v2 := (v1 | (v1 >> 2)) & 0x0f0f0f0f0f0f0f0f;
    var v3 := (v2 | (v2 >> 4)) & 0x00ff00ff00ff00ff;
    var v4 := (v3 | (v3 >> 8)) & 0x0000ffff0000ffff;
    var v5 := (v4 | (v4 >> 16)) & 0x00000000ffffffff;
    v5 as bv32
  }

  /** Interleaves two words: x on the even bit positions, y on the odd ones. */
  function Interleave(x: bv32, y: bv32): (z: bv64)
    ensures Deinterleave(z) == (x, y)
  {
    Spread(x) | (Spread(y) << 1)
  }

  function Deinterleave(z: bv64): (bv32, bv32) {
    (Squash(z), Squash(z >> 1))
  }

  lemma SquashUndoesSpread(x: bv32)
    ensures Squash(Spread(x)) == x
  {}

  lemma InterleaveUndoesDeinterleave(z: bv64)
    ensures Interleave(Deinterleave(z).0, Deinterleave(z).1) == z
  {}

  // --- Bit strings ---

  predicate Leading(v: bv64) { v & 0x8000000000000000 != 0 }

  function Tail(v: bv64): bv64 { v << 1 }

  /** v moved down one place, with the given leading bit. */
  function Prepend(b: bool, v: bv64): bv64 { (if b then 0x8000000000000000 else 0) | (v >> 1) }

  function Widen(x: bv32): bv64 { (x as bv64) << 32 }

  function Narrow(v: bv64): bv32 { (v >> 32) as bv32 }

  /** The k most significant bits of v, most significant first. */
  function TopBits(v: bv64, k: nat): (b: seq<bool>)
    ensures |b| == k
    decreases k
  {
    if k == 0 then [] else [Leading(v)] + TopBits(Tail(v), k - 1)
  }

  /** The k most significant bits of a 32-bit word. */
  function TopBits32(x: bv32, k: nat): (b: seq<bool>)
    ensures |b| == k
  {
    TopBits(Widen(x), k)
  }

  function Evens(b: seq<bool>): (e: seq<bool>) {
    seq((|b| + 1) / 2, i requires 0 <= i < (|b| + 1) / 2 => b[2 * i])
  }

  function Odds(b: seq<bool>): (o: seq<bool>) {
    seq(|b| / 2, i requires 0 <= i < |b| / 2 => b[2 * i + 1])
  }

  function Zeros(k: nat): (b: seq<bool>) {
    seq(k, _ => false)
  }

  lemma TopBitsCons(v: bv64, k: nat)
    requires k > 0
    ensures TopBits(v, k) == [Leading(v)] + TopBits(Tail(v), k - 1)
  {}

  // --- Deinterleaving takes alternate bits ---

  /** The low half of a deinterleaved word, widened. */
  function Lower(z: bv64): bv64 { Widen(Deinterleave(z).0) }

  function Upper(z: bv64): bv64 { Widen(Deinterleave(z).1) }

  lemma SquashShifts(z: bv64)
    ensures Squash(z << 2) == Squash(z) << 1
    ensures Squash((z << 2) >> 1) == Squash(z >> 1) << 1
  {}

  lemma WidenShifts(x: bv32)
    ensures Widen(x << 1) == Widen(x) << 1
  {}

  lemma TailShifts(v: bv64)
    ensures Tail(v) == v << 1 && Tail(Tail(v)) == v << 2
  {}

  function Tail32(x: bv32): bv32 { x << 1 }

  lemma SquashTail(z: bv64)
    ensures Squash(Tail(Tail(z))) == Tail32(Squash(z))
  {
    SquashShifts(z);
    TailShifts(z);
    hide Squash, Tail;
  }

  lemma SquashOddTail(z: bv64)
    ensures Squash(Tail(Tail(z)) >> 1) == Tail32(Squash(z >> 1))
  {
    SquashShifts(z);
    TailShifts(z);
    hide Squash, Tail;
  }

  lemma WidenTail(x: bv32)
    ensures Widen(Tail32(x)) == Tail(Widen(x))
  {
    WidenShifts(x);
    hide Widen;
  }

  lemma HalvesShift(z: bv64)
    ensures Lower(Tail(Tail(z))) == Tail(Lower(z))
    ensures Upper(Tail(Tail(z))) == Tail(Upper(z))
  {
    hide Squash, Widen, Tail, Tail32;
    SquashTail(z);
    SquashOddTail(z);
    WidenTail(Squash(z));
    WidenTail(Squash(z >> 1));
  }

  lemma HalvesLead(z: bv64)
    ensures Leading(Upper(z)) == Leading(z)
    ensures Leading(Lower(z)) == Leading(Tail(z))
  {}

  /** Both halves of a deinterleaved word, read as bit strings, are the alternate bits of the word. */
  lemma {:induction false} DeinterleaveTakesAlternateBits(z: bv64, k: nat)
    ensures TopBits(Upper(z), k) == Evens(TopBits(z, 2 * k))
    ensures TopBits(Lower(z), k) == Odds(TopBits(z, 2 * k))
    decreases k
  {
    hide *;
    if k == 0 {
      AlternateBitsOfNothing(TopBits(z, 0));
    } else {
      var z' := Tail(Tail(z));
      HalvesShift(z);
      HalvesLead(z);
      TopBitsCons(Upper(z), k);
      TopBitsCons(Lower(z), k);
      TopBitsCons(z, 2 * k);
      TopBitsCons(Tail(z), 2 * k - 1);
      DeinterleaveTakesAlternateBits(z', k - 1);
      var rest := TopBits(z', 2 * (k - 1));
      assert TopBits(z, 2 * k) == [Leading(z), Leading(Tail(z))] + rest;
      AlternateBitsStep(Leading(z), Leading(Tail(z)), rest);
    }
  }

  lemma AlternateBitsOfNothing(b: seq<bool>)
    requires b == []
    ensures Evens(b) == [] && Odds(b) == []
  {}

  lemma AlternateBitsStep(a: bool, b: bool, rest: seq<bool>)
    ensures Evens([a, b] + rest) == [a] + Evens(rest)
    ensures Odds([a, b] + rest) == [b] + Odds(rest)
  {}

  /** A bit string is fixed by its alternate bits. */
  lemma AlternateBitsDetermine(a: seq<bool>, b: seq<bool>)
    requires |a| == |b| && Evens(a) == Evens(b) && Odds(a) == Odds(b)
    ensures a == b
  {
    forall i | 0 <= i < |a| ensures a[i] == b[i] {
      if i % 2 == 0 {
        assert a[i] == Evens(a)[i / 2];
      } else {
        assert a[i] == Odds(a)[i / 2];
      }
    }
  }

  // --- Words with a given bit string ---

  /** The word whose leading bits are the given ones and whose other bits are zero. */
  function WordOf(bits: seq<bool>): bv64 {
    if bits == [] then 0 else Prepend(bits[0], WordOf(bits[1..]))
  }

  function WordOf32(bits: seq<bool>): bv32 {
    Narrow(WordOf(bits))
  }

  /** All ones in the low 64 - k positions. */
  function LowMask(k: nat): bv64 {
    if k == 0 then 0xffffffffffffffff else Halve(LowMask(k - 1))
  }

  function Halve(m: bv64): bv64 { m >> 1 }

  predicate IsOnes(m: bv64) { m & (m + 1) == 0 }

  predicate Within(m: bv64, n: bv64) { m & n == m }

  predicate Disjoint(m: bv64, n: bv64) { m & n == 0 }

  lemma PrependDisjoint(b: bool, v: bv64, m: bv64)
    requires Disjoint(v, m)
    ensures Disjoint(Prepend(b, v), Halve(m))
  {}

  lemma HalveOnes(m: bv64)
    requires IsOnes(m)
    ensures IsOnes(Halve(m))
  {}

  lemma HalveWithin(m: bv64, n: bv64)
    requires Within(m, n) && IsOnes(n)
    ensures Within(Halve(m), n)
  {}

  lemma DisjointWithin(v: bv64, m: bv64, n: bv64)
    requires Disjoint(v, n) && Within(m, n)
    ensures Disjoint(v, m)
  {}

  lemma TailOfPrepend(b: bool, v: bv64)
    requires Disjoint(v, 1)
    ensures Tail(Prepend(b, v)) == v && Leading(Prepend(b, v)) == b
  {}

  lemma WidenNarrow(v: bv64)
    requires Disjoint(v, 0xffffffff)
    ensures Widen(Narrow(v)) == v
  {}

  lemma {:induction false} LowMaskOnes(k: nat)
    ensures IsOnes(LowMask(k))
  {
    if k > 0 {
      LowMaskOnes(k - 1);
      hide IsOnes, Halve;
      HalveOnes(LowMask(k - 1));
    }
  }

  lemma {:induction false} LowMaskWithin(k: nat, j: nat)
    requires k <= j
    ensures Within(LowMask(j), LowMask(k))
    decreases j
  {
    if k < j {
      LowMaskWithin(k, j - 1);
      LowMaskOnes(k);
      hide Within, IsOnes, Halve;
      HalveWithin(LowMask(j - 1), LowMask(k));
    }
  }

  lemma Halve8(m: bv64)
    ensures Halve(Halve(Halve(Halve(Halve(Halve(Halve(Halve(m)))))))) == m >> 8
  {}

  lemma LowMask8(k: nat)
    ensures LowMask(k + 8) == LowMask(k) >> 8
  {
    Halve8(LowMask(k));
    hide Halve;
    assert LowMask(k + 2) == Halve(Halve(LowMask(k)));
    assert LowMask(k + 4) == Halve(Halve(LowMask(k + 2)));
    assert LowMask(k + 6) == Halve(Halve(LowMask(k + 4)));
    assert LowMask(k + 8) == Halve(Halve(LowMask(k + 6)));
  }

  lemma LowMaskValues()
    ensures LowMask(32) == 0xffffffff && LowMask(63) == 1
  {
    LowMask8(0);
    LowMask8(8);
    LowMask8(16);
    LowMask8(24);
    LowMask8(32);
    LowMask8(40);
    LowMask8(48);
    assert LowMask(56) == 0xff;
    assert LowMask(58) == 0x3f;
    assert LowMask(60) == 0xf;
    assert LowMask(62) == 3;
  }

  lemma {:induction false} WordOfTailIsZero(bits: seq<bool>)
    ensures Disjoint(WordOf(bits), LowMask(|bits|))
  {
    if bits != [] {
      WordOfTailIsZero(bits[1..]);
      hide Disjoint, Halve, Prepend;
      PrependDisjoint(bits[0], WordOf(bits[1..]), LowMask(|bits| - 1));
    }
  }

  /** A word built from fewer bits is also zero wherever a longer prefix would end. */
  lemma WordOfDisjoint(bits: seq<bool>, j: nat)
    requires |bits| <= j
    ensures Disjoint(WordOf(bits), LowMask(j))
  {
    hide *;
    WordOfTailIsZero(bits);
    LowMaskWithin(|bits|, j);
    DisjointWithin(WordOf(bits), LowMask(j), LowMask(|bits|));
  }

  /** Reading a word back gives the bits it was built from. */
  lemma {:induction false} BitsOfWord(bits: seq<bool>)
    requires |bits| <= 64
    ensures TopBits(WordOf(bits), |bits|) == bits
  {
    if bits != [] {
      hide Prepend, Disjoint, Tail, Leading, LowMask;
      var rest := WordOf(bits[1..]);
      BitsOfWord(bits[1..]);
      WordOfDisjoint(bits[1..], 63);
      LowMaskValues();
      TailOfPrepend(bits[0], rest);
      TopBitsCons(Prepend(bits[0], rest), |bits|);
      assert bits == [bits[0]] + bits[1..];
    }
  }

  lemma BitsOfWord32(bits: seq<bool>)
    requires |bits| <= 32
    ensures TopBits32(WordOf32(bits), |bits|) == bits
  {
    hide WordOf, TopBits, LowMask, Disjoint, Widen, Narrow;
    BitsOfWord(bits);
    WordOfDisjoint(bits, 32);
    LowMaskValues();
    WidenNarrow(WordOf(bits));
  }
}
