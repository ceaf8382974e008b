/**
 * Numbers as bit strings: powers of two, the bits of a number, the value of a bit string, and how
 * shifting, appending and rounding down look from both sides. Everything is by doubling and
 * halving, which keeps the arithmetic linear.
 */
module GeohashCells {
  import opened GeohashBits

  function Pow2(k: nat): (p: nat)
    ensures p >= 1
  {
    if k == 0 then 1 else 2 * Pow2(k - 1)
  }

  /** v << k on unbounded numbers. */
  function ShiftUp(v: nat, k: nat): (r: nat)
    decreases k
  {
    if k == 0 then v else ShiftUp(2 * v, k - 1)
  }

  /** v >> k. */
  function ShiftDown(v: nat, k: nat): (r: nat)
    decreases k
  {
    if k == 0 then v else ShiftDown(v / 2, k - 1)
  }

  /** The low w bits of v as a number: v as an unsigned integer of w bits. */
  function Truncate(v: nat, w: nat): (r: nat)
  {
    v % Pow2(w)
  }

  /** The w low bits of n, most significant first. */
  function Bits(n: nat, w: nat): (b: seq<bool>)
    ensures |b| == w
    decreases w
  {
    if w == 0 then [] else Bits(n / 2, w - 1) + [n % 2 == 1]
  }

  /** The number a bit string denotes, most significant bit first. */
  function Val(b: seq<bool>): (n: nat)
    ensures n < Pow2(|b|)
  {
    if b == [] then 0 else 2 * Val(b[..|b| - 1]) + if b[|b| - 1] then 1 else 0
  }

  lemma {:induction false} ValOfBits(n: nat, w: nat)
    requires n < Pow2(w)
    ensures Val(Bits(n, w)) == n
    decreases w
  {
    if w > 0 {
      ValOfBits(n / 2, w - 1);
      assert Bits(n, w)[..w - 1] == Bits(n / 2, w - 1);
    }
  }

  lemma {:induction false} BitsOfVal(b: seq<bool>)
    ensures Bits(Val(b), |b|) == b
  {
    if b != [] {
      BitsOfVal(b[..|b| - 1]);
      assert Val(b) / 2 == Val(b[..|b| - 1]);
      assert b == b[..|b| - 1] + [b[|b| - 1]];
    }
  }

  /** Appending zero bits shifts up. */
  lemma {:induction false} ValShift(b: seq<bool>, k: nat)
    ensures Val(b + Zeros(k)) == ShiftUp(Val(b), k)
    decreases k
  {
    if k == 0 {
      assert b + Zeros(0) == b;
    } else {
      assert (b + [false])[..|b|] == b;
      ValShift(b + [false], k - 1);
      assert b + Zeros(k) == b + [false] + Zeros(k - 1);
    }
  }

  lemma {:induction false} BitsShift(n: nat, w: nat, k: nat)
    ensures Bits(ShiftUp(n, k), w + k) == Bits(n, w) + Zeros(k)
    decreases k
  {
    if k == 0 {
      assert Bits(n, w) + Zeros(0) == Bits(n, w);
    } else {
      BitsShift(2 * n, w + 1, k - 1);
      assert Bits(2 * n, w + 1) == Bits(n, w) + [false];
      assert [false] + Zeros(k - 1) == Zeros(k);
      assert Bits(n, w) + [false] + Zeros(k - 1) == Bits(n, w) + ([false] + Zeros(k - 1));
    }
  }

  /** Keeping the leading bits shifts down. */
  lemma {:induction false} BitsPrefix(n: nat, w: nat, k: nat)
    requires k <= w
    ensures Bits(n, w)[..k] == Bits(ShiftDown(n, w - k), k)
    decreases w
  {
    if k < w {
      BitsPrefix(n / 2, w - 1, k);
      assert Bits(n, w)[..k] == Bits(n / 2, w - 1)[..k];
    }
  }

  lemma {:induction false} BitsSuffix(n: nat, w: nat, k: nat)
    requires k <= w
    ensures Bits(n, w)[w - k..] == Bits(n, k)
    decreases w
  {
    if k > 0 {
      BitsSuffix(n / 2, w - 1, k - 1);
      assert Bits(n, w)[w - k..] == Bits(n / 2, w - 1)[w - k..] + [n % 2 == 1];
    }
  }

  lemma {:induction false} ShiftUpDouble(m: nat, w: nat)
    ensures ShiftUp(m, w + 1) == 2 * ShiftUp(m, w)
    decreases w
  {
    if w > 0 {
      ShiftUpDouble(2 * m, w - 1);
    }
  }

  /** Appending j bits to a number appends them to its bit string. */
  lemma {:induction false} BitsAppend(v: nat, c: nat, w: nat, j: nat)
    requires c < Pow2(j)
    ensures Bits(ShiftUp(v, j) + c, w + j) == Bits(v, w) + Bits(c, j)
    decreases j
  {
    if j > 0 {
      ShiftUpDouble(v, j - 1);
      BitsAppend(v, c / 2, w, j - 1);
      assert (ShiftUp(v, j) + c) / 2 == ShiftUp(v, j - 1) + c / 2;
    }
  }

  lemma ShiftUpFive(v: nat)
    ensures ShiftUp(v, 5) == 32 * v && Pow2(5) == 32
  {
    assert ShiftUp(v, 5) == ShiftUp(2 * (2 * v), 3) == ShiftUp(2 * (2 * (2 * (2 * v))), 1);
    assert Pow2(3) == 8;
  }

  lemma {:induction false} ShiftUpIsMul(v: nat, k: nat)
    ensures ShiftUp(v, k) == v * Pow2(k)
    decreases k
  {
    if k > 0 {
      ShiftUpIsMul(2 * v, k - 1);
      assert 2 * v * Pow2(k - 1) == v * (2 * Pow2(k - 1));
    }
  }

  lemma {:induction false} BitsIgnoreMultiples(n: nat, m: nat, w: nat)
    ensures Bits(n + ShiftUp(m, w), w) == Bits(n, w)
    decreases w
  {
    if w > 0 {
      ShiftUpDouble(m, w - 1);
      BitsIgnoreMultiples(n / 2, m, w - 1);
    }
  }

  lemma DivSplit(n: nat, p: nat)
    requires p > 0
    ensures n == n % p + n / p * p
  {}

  lemma TruncateSplit(n: nat, w: nat) returns (q: nat)
    ensures n == Truncate(n, w) + ShiftUp(q, w)
  {
    hide Pow2, ShiftUp;
    q := n / Pow2(w);
    DivSplit(n, Pow2(w));
    ShiftUpIsMul(q, w);
  }

  /** Truncating to w bits keeps the w low bits. */
  lemma BitsTruncate(n: nat, w: nat)
    ensures Bits(Truncate(n, w), w) == Bits(n, w)
  {
    hide *;
    var q := TruncateSplit(n, w);
    BitsIgnoreMultiples(Truncate(n, w), q, w);
  }

  // --- Scaling by powers of two on reals ---

  /** y * 2^k. */
  function Doubled(y: real, k: nat): (r: real) {
    if k == 0 then y else 2.0 * Doubled(y, k - 1)
  }

  /** y * 2^-k. */
  function Halved(y: real, k: nat): (r: real) {
    if k == 0 then y else Halved(y, k - 1) / 2.0
  }

  lemma {:induction false} DoubledAdds(y: real, a: nat, b: nat)
    ensures Doubled(Doubled(y, a), b) == Doubled(y, a + b)
    decreases b
  {
    if b > 0 {
      DoubledAdds(y, a, b - 1);
    }
  }

  lemma {:induction false} DoubledUndoesHalved(y: real, k: nat)
    ensures Doubled(Halved(y, k), k) == y
    decreases k
  {
    if k > 0 {
      DoubledAdds(Halved(y, k), 1, k - 1);
      assert Doubled(Halved(y, k), 1) == Halved(y, k - 1) by { assert Doubled(Halved(y, k), 0) == Halved(y, k); }
      DoubledUndoesHalved(y, k - 1);
    }
  }

  /** Scaling down undoes scaling up, whichever is larger. */
  lemma {:induction false} HalvedUndoesDoubled(y: real, j: nat, k: nat)
    ensures Halved(Doubled(y, j), k + j) == Halved(y, k)
    decreases j
  {
    if j > 0 {
      DoubledAdds(y, 1, j - 1);
      assert Doubled(y, 1) == 2.0 * y by { assert Doubled(y, 0) == y; }
      HalvedUndoesDoubled(2.0 * y, j - 1, k + 1);
      HalvedLinear(y, y, k + 1);
    }
  }

  lemma {:induction false} HalvedLinear(x: real, y: real, k: nat)
    ensures Halved(x + y, k) == Halved(x, k) + Halved(y, k)
    decreases k
  {
    if k > 0 {
      HalvedLinear(x, y, k - 1);
    }
  }

  lemma {:induction false} HalvedTimes(c: real, y: real, k: nat)
    ensures Halved(c * y, k) == c * Halved(y, k)
    decreases k
  {
    if k > 0 {
      HalvedTimes(c, y, k - 1);
    }
  }

  lemma {:induction false} HalvedMonotone(x: real, y: real, k: nat)
    requires x < y
    ensures Halved(x, k) < Halved(y, k)
    decreases k
  {
    if k > 0 {
      HalvedMonotone(x, y, k - 1);
    }
  }

  lemma {:induction false} HalvedPow2(k: nat)
    ensures Halved(Pow2(k) as real, k) == 1.0 && Halved(0.0, k) == 0.0
    decreases k
  {
    if k > 0 {
      HalvedPow2(k - 1);
      HalvedLinear(Pow2(k - 1) as real, Pow2(k - 1) as real, k - 1);
    }
  }

  lemma {:induction false} DoubledNat(n: nat, k: nat)
    ensures Doubled(n as real, k) == ShiftUp(n, k) as real
    decreases k
  {
    if k > 0 {
      DoubledNat(n, k - 1);
      ShiftUpDouble(n, k - 1);
    }
  }

  /** Half-open unit interval: a cell index plus one half, scaled down, lies strictly between 0 and 1. */
  lemma CellFraction(a: nat, k: nat)
    requires a < Pow2(k)
    ensures 0.0 < Halved(a as real + 0.5, k) < 1.0
  {
    HalvedPow2(k);
    HalvedMonotone(0.0, a as real + 0.5, k);
    HalvedMonotone(a as real + 0.5, Pow2(k) as real, k);
  }

  lemma FloorOfDouble(u: real)
    requires u >= 0.0
    ensures (2.0 * u).Floor >= 0 && (2.0 * u).Floor / 2 == u.Floor
  {}

  /** Rounding down at a finer scale and dropping j bits is rounding down at the coarser scale. */
  lemma {:induction false} FloorNests(y: real, j: nat)
    requires y >= 0.0
    ensures Doubled(y, j) >= 0.0 && Doubled(y, j).Floor >= 0
    ensures ShiftDown(Doubled(y, j).Floor, j) == y.Floor
    decreases j
  {
    if j > 0 {
      FloorNests(y, j - 1);
      FloorOfDouble(Doubled(y, j - 1));
    }
  }

  lemma DoubledFour(y: real)
    ensures Doubled(y, 4) == 16.0 * y
  {
    assert Doubled(y, 1) == 2.0 * y;
    assert Doubled(y, 2) == 4.0 * y;
    assert Doubled(y, 3) == 8.0 * y;
  }

  lemma DoubledAt32(y: real)
    ensures Doubled(y, 32) == 4294967296.0 * y
  {
    hide Doubled;
    DoubledFour(y);
    DoubledAdds(y, 4, 4);
    DoubledFour(Doubled(y, 4));
    DoubledAdds(y, 8, 4);
    DoubledFour(Doubled(y, 8));
    DoubledAdds(y, 12, 4);
    DoubledFour(Doubled(y, 12));
    DoubledAdds(y, 16, 4);
    DoubledFour(Doubled(y, 16));
    DoubledAdds(y, 20, 4);
    DoubledFour(Doubled(y, 20));
    DoubledAdds(y, 24, 4);
    DoubledFour(Doubled(y, 24));
    DoubledAdds(y, 28, 4);
    DoubledFour(Doubled(y, 28));
  }

  lemma Pow2At32()
    ensures Pow2(32) == 0x1_0000_0000
  {
    DoubledAt32(1.0);
    DoubledNat(1, 32);
    ShiftUpIsMul(1, 32);
    assert Pow2(32) as real == 4294967296.0;
  }
}
