/**
 * What the geohash codec of peat-protocol/src/geohash.rs promises: a hash names one cell of a grid,
 * encode finds the cell of a point, decode finds the centre of a cell, and neighbour search is
 * arithmetic on a torus.
 */
module Geohash {
  import opened Prelude
  import opened GeohashBits
  import opened GeohashCells
  import opened GeohashCodec

  function LatBits(len: nat): nat { 5 * len / 2 }

  function LonBits(len: nat): nat { 5 * len - 5 * len / 2 }

  /** The row of the cell a hash names. */
  ghost function LatCell(h: seq<Byte>): (a: nat)
    requires AllDigits(h)
  {
    Val(Odds(HashBits(h)))
  }

  /** The column of the cell a hash names. */
  ghost function LonCell(h: seq<Byte>): (a: nat)
    requires AllDigits(h)
  {
    Val(Evens(HashBits(h)))
  }

  lemma CellBounds(h: seq<Byte>)
    requires AllDigits(h)
    ensures LatCell(h) < Pow2(LatBits(|h|)) && LonCell(h) < Pow2(LonBits(|h|))
  {
    hide HashBits, AllDigits, Pow2;
    assert |Odds(HashBits(h))| == LatBits(|h|);
    assert |Evens(HashBits(h))| == LonBits(|h|);
  }

  /** A hash is fixed by its length and its cell. */
  lemma CellsDetermineHash(h: seq<Byte>, g: seq<Byte>)
    requires AllDigits(h) && AllDigits(g) && |h| == |g|
    ensures LatCell(h) == LatCell(g) && LonCell(h) == LonCell(g) <==> h == g
  {
    hide Decoder, HashBits, Bits;
    if LatCell(h) != LatCell(g) || LonCell(h) != LonCell(g) { return; }
    BitsOfVal(Odds(HashBits(h)));
    BitsOfVal(Odds(HashBits(g)));
    BitsOfVal(Evens(HashBits(h)));
    BitsOfVal(Evens(HashBits(g)));
    AlternateBitsDetermine(HashBits(h), HashBits(g));
    HashBitsDetermine(h, g);
  }

  // --- Encode finds the cell of a point ---

  lemma InterleavedBits(lon: real, lat: real)
    ensures Odds(Bits(Interleaved(lon, lat), 64)) == Bits(Mantissa(lat / 180.0 + 0.5), 32)
    ensures Evens(Bits(Interleaved(lon, lat), 64)) == Bits(Mantissa(lon / 360.0 + 0.5), 32)
  {
    hide Mantissa, Bits, TopBits, Interleave, Deinterleave, WordOf32, Odds, Evens;
    var w := Interleave(LatWord(lat), LonWord(lon));
    BitsOfVal(TopBits(w, 64));
    DeinterleaveTakesAlternateBits(w, 32);
    BitsOfWord32(Bits(Mantissa(lat / 180.0 + 0.5), 32));
    BitsOfWord32(Bits(Mantissa(lon / 360.0 + 0.5), 32));
  }

  lemma AlternatePrefix(b: seq<bool>, n: nat)
    requires n <= |b|
    ensures Odds(b[..n]) == Odds(b)[..n / 2]
    ensures Evens(b[..n]) == Evens(b)[..(n + 1) / 2]
  {}

  lemma {:induction false} ShiftDownBelow(v: nat, k: nat, j: nat)
    requires v < Pow2(k + j)
    ensures ShiftDown(v, j) < Pow2(k)
    decreases j
  {
    if j > 0 {
      ShiftDownBelow(v / 2, k, j - 1);
    }
  }

  /** The leading k of 32 bits of a number. */
  lemma LeadingBits(m: nat, k: nat)
    requires m < Pow2(32) && k <= 32
    ensures Val(Bits(m, 32)[..k]) == ShiftDown(m, 32 - k)
  {
    hide Bits, Pow2, ShiftDown;
    BitsPrefix(m, 32, k);
    ShiftDownBelow(m, k, 32 - k);
    ValOfBits(ShiftDown(m, 32 - k), k);
  }

  /** The alternate bits of the leading part of the interleaved word, as numbers. */
  lemma LeadingCells(lon: real, lat: real, len: nat)
    requires len <= 12
    ensures var b := Bits(Interleaved(lon, lat), 64)[..5 * len];
            && Val(Odds(b)) == ShiftDown(Mantissa(lat / 180.0 + 0.5), 32 - LatBits(len))
            && Val(Evens(b)) == ShiftDown(Mantissa(lon / 360.0 + 0.5), 32 - LonBits(len))
  {
    hide Interleaved, Mantissa, Bits, Odds, Evens, ShiftDown, Val, Pow2;
    AlternatePrefix(Bits(Interleaved(lon, lat), 64), 5 * len);
    InterleavedBits(lon, lat);
    MantissaBelow(lat / 180.0 + 0.5);
    MantissaBelow(lon / 360.0 + 0.5);
    LeadingBits(Mantissa(lat / 180.0 + 0.5), LatBits(len));
    LeadingBits(Mantissa(lon / 360.0 + 0.5), LonBits(len));
  }

  lemma EncodeCellsInBits(lon: real, lat: real, len: nat)
    requires InRange(lon, lat) && 1 <= len <= 12
    ensures EncodeSpec(lon, lat, len).Ok?
    ensures var h := EncodeSpec(lon, lat, len).value;
            && ValidHash(h) && |h| == len
            && LatCell(h) == ShiftDown(Mantissa(lat / 180.0 + 0.5), 32 - LatBits(len))
            && LonCell(h) == ShiftDown(Mantissa(lon / 360.0 + 0.5), 32 - LonBits(len))
  {
    hide Interleaved, Mantissa, Bits, Odds, Evens, HashBits, TopDigits, ShiftDown, Val, AllDigits;
    TopDigitsBits(Interleaved(lon, lat), len);
    LeadingCells(lon, lat, len);
  }

  lemma MantissaBelow(x: real)
    ensures Mantissa(x) < Pow2(32)
  {
    Pow2At32();
  }

  /** Rounding down at 32 bits and keeping k of them is rounding down at k bits. */
  lemma MantissaCell(x: real, k: nat)
    requires 0.0 <= x < 1.0 && k <= 32
    ensures ShiftDown(Mantissa(x), 32 - k) == Doubled(x, k).Floor
  {
    hide Doubled, ShiftDown;
    FloorNests(x, k);
    FloorNests(Doubled(x, k), 32 - k);
    DoubledAdds(x, k, 32 - k);
    DoubledAt32(x);
    assert 0 <= (x * 4294967296.0).Floor < 0x1_0000_0000;
  }

  /** Encode returns the hash, of the asked length, of the cell the point falls in. */
  lemma EncodeFindsCell(lon: real, lat: real, len: nat)
    requires -180.0 <= lon < 180.0 && -90.0 <= lat < 90.0 && 1 <= len <= 12
    ensures var r := EncodeSpec(lon, lat, len);
            && r.Ok? && ValidHash(r.value) && |r.value| == len
            && LatCell(r.value) == Doubled(lat / 180.0 + 0.5, LatBits(len)).Floor
            && LonCell(r.value) == Doubled(lon / 360.0 + 0.5, LonBits(len)).Floor
  {
    hide LatCell, LonCell, Mantissa, ShiftDown, Doubled, TopDigits, Interleaved, AllDigits;
    EncodeCellsInBits(lon, lat, len);
    MantissaCell(lat / 180.0 + 0.5, LatBits(len));
    MantissaCell(lon / 360.0 + 0.5, LonBits(len));
  }

  // --- Decode finds the centre of a cell ---

  lemma AlternateOfPadded(b: seq<bool>)
    requires |b| <= 64
    ensures Odds(b + Zeros(64 - |b|)) == Odds(b) + Zeros(32 - |b| / 2)
    ensures Evens(b + Zeros(64 - |b|)) == Evens(b) + Zeros(32 - (|b| + 1) / 2)
  {}

  ghost function FullWord(h: seq<Byte>): bv64
    requires ValidHash(h)
  {
    WordOf(Bits(ShiftUp(Number(h), 64 - 5 * |h|), 64))
  }

  lemma FullWordBits(h: seq<Byte>)
    requires ValidHash(h)
    ensures TopBits(FullWord(h), 64) == HashBits(h) + Zeros(64 - 5 * |h|)
  {
    hide Decoder, HashBits, Bits, Number, ShiftUp, WordOf, TopBits, Zeros, AllDigits;
    var n := 5 * |h|;
    NumberBits(h);
    BitsShift(Number(h), n, 64 - n);
    assert n + (64 - n) == 64;
    BitsOfWord(Bits(ShiftUp(Number(h), 64 - n), 64));
  }

  /** The two u32 values decode reads off are the cell indices, shifted up to 32 bits. */
  lemma DecodedWords(h: seq<Byte>)
    requires ValidHash(h)
    ensures Val(TopBits32(Deinterleave(FullWord(h)).0, 32)) == ShiftUp(LatCell(h), 32 - LatBits(|h|))
    ensures Val(TopBits32(Deinterleave(FullWord(h)).1, 32)) == ShiftUp(LonCell(h), 32 - LonBits(|h|))
  {
    hide FullWord, Decoder, HashBits, ShiftUp, Deinterleave, TopBits, Odds, Evens, Val, Zeros, AllDigits;
    FullWordBits(h);
    DeinterleaveTakesAlternateBits(FullWord(h), 32);
    AlternateOfPadded(HashBits(h));
    ValShift(Odds(HashBits(h)), 32 - LatBits(|h|));
    ValShift(Evens(HashBits(h)), 32 - LonBits(|h|));
  }

  lemma RangeOfCell(x: bv32, cell: nat, k: nat, r: real)
    requires k <= 32 && Val(TopBits32(x, 32)) == ShiftUp(cell, 32 - k)
    ensures DecodeRange(x, r) == 2.0 * r * Halved(cell as real, k) - r
  {
    hide Val, TopBits32, ShiftUp, Doubled, Halved;
    var v := ShiftUp(cell, 32 - k) as real;
    DoubledNat(cell, 32 - k);
    HalvedUndoesDoubled(cell as real, 32 - k, k);
    DoubledUndoesHalved(v, 32);
    DoubledAt32(Halved(v, 32));
    assert v / 4294967296.0 == Halved(cell as real, k);
  }

  /** The centre of cell a among 2^k cells of the range from -r to r. */
  function CentreOf(a: nat, k: nat, r: real): real {
    2.0 * r * Halved(a as real + 0.5, k) - r
  }

  /** Decode returns the centre of the named cell and half its height and width. */
  lemma DecodeFindsCentre(h: seq<Byte>)
    requires ValidHash(h)
    ensures var k, j := LatBits(|h|), LonBits(|h|);
            DecodeSpec(h) == Ok(Decoded(CentreOf(LonCell(h), j, 180.0), CentreOf(LatCell(h), k, 90.0),
                Halved(180.0, j), Halved(90.0, k)))
  {
    hide Decoder, Deinterleave, WordOf, Bits, Number, ShiftUp, LatCell, LonCell, AllDigits, Halved, Val, TopBits32,
        DecodeRange;
    var k, j := LatBits(|h|), LonBits(|h|);
    var d := Deinterleave(FullWord(h));
    DecodedWords(h);
    RangeOfCell(d.0, LatCell(h), k, 90.0);
    RangeOfCell(d.1, LonCell(h), j, 180.0);
    HalfExtent(LatCell(h), k, 90.0);
    HalfExtent(LonCell(h), j, 180.0);
    assert 5 * |h| - 5 * |h| / 2 == j;
  }

  lemma HalfExtent(a: nat, k: nat, r: real)
    requires r == 90.0 || r == 180.0
    ensures Halved(2.0 * r, k) / 2.0 == Halved(r, k)
    ensures 2.0 * r * Halved(a as real, k) - r + Halved(r, k) == CentreOf(a, k, r)
  {
    hide Halved;
    HalvedLinear(r, r, k);
    HalvedLinear(a as real, 0.5, k);
    HalvedTimes(2.0 * r, 0.5, k);
    assert 2.0 * r * 0.5 == r;
    if r == 90.0 {
    } else {
      assert r == 180.0;
    }
  }

  // --- Round trips ---

  lemma LatCentreInCell(a: nat, k: nat)
    requires a < Pow2(k)
    ensures -90.0 < CentreOf(a, k, 90.0) < 90.0
    ensures Doubled(CentreOf(a, k, 90.0) / 180.0 + 0.5, k).Floor == a
  {
    hide Halved, Doubled, Pow2;
    CellFraction(a, k);
    DoubledUndoesHalved(a as real + 0.5, k);
    assert CentreOf(a, k, 90.0) / 180.0 + 0.5 == Halved(a as real + 0.5, k);
  }

  lemma LonCentreInCell(a: nat, k: nat)
    requires a < Pow2(k)
    ensures -180.0 < CentreOf(a, k, 180.0) < 180.0
    ensures Doubled(CentreOf(a, k, 180.0) / 360.0 + 0.5, k).Floor == a
  {
    hide Halved, Doubled, Pow2;
    CellFraction(a, k);
    DoubledUndoesHalved(a as real + 0.5, k);
    assert CentreOf(a, k, 180.0) / 360.0 + 0.5 == Halved(a as real + 0.5, k);
  }

  /** Encoding the centre of a cell, at the hash's own length, gives back the hash. */
  lemma EncodeUndoesDecode(h: seq<Byte>)
    requires ValidHash(h)
    ensures DecodeSpec(h).Ok?
    ensures var d := DecodeSpec(h).value; EncodeSpec(d.lon, d.lat, |h|) == Ok(h)
  {
    hide AllDigits, LatCell, LonCell, Pow2, CentreOf, EncodeSpec, DecodeSpec, Halved;
    DecodeFindsCentre(h);
    CellBounds(h);
    EncodeCentre(LatCell(h), LonCell(h), |h|);
    CellsDetermineHash(EncodeSpec(DecodeSpec(h).value.lon, DecodeSpec(h).value.lat, |h|).value, h);
  }

  /** A shorter encoding of a point is a prefix of a longer one. */
  lemma ShorterIsPrefix(lon: real, lat: real, j: nat, k: nat)
    requires InRange(lon, lat) && 1 <= j <= k <= 12
    ensures EncodeSpec(lon, lat, j).value == EncodeSpec(lon, lat, k).value[..j]
  {
    TopDigitsPrefix(Interleaved(lon, lat), j, k);
  }

  lemma {:induction false} TopDigitsPrefix(z: nat, j: nat, k: nat)
    requires j <= k
    ensures TopDigits(z, j) == TopDigits(z, k)[..j]
    decreases j
  {
    hide Encoder, Decoder, ShiftDown, ShiftUp, Truncate;
    if j > 0 {
      var z' := Truncate(ShiftUp(z, 5), 64);
      TopDigitsPrefix(z', j - 1, k - 1);
      assert TopDigits(z, k)[..j] == [TopDigits(z, k)[0]] + TopDigits(z', k - 1)[..j - 1];
    }
  }

  // --- How far the centre is from the encoded point ---

  function Abs(x: real): real { if x < 0.0 then -x else x }

  lemma {:induction false} HalfCellShrinks(k: nat)
    requires k >= 1
    ensures 0.0 < Halved(0.5, k) <= 0.25
  {
    if k == 1 {
      assert Halved(0.5, 0) == 0.5;
    } else {
      HalfCellShrinks(k - 1);
    }
  }

  lemma {:induction false} ShiftDownZero(k: nat)
    ensures ShiftDown(0, k) == 0
  {
    if k > 0 {
      ShiftDownZero(k - 1);
    }
  }

  /** One axis: the centre is at most half a cell from the point, unless the point is the upper edge. */
  lemma AxisWithin(x: real, k: nat)
    requires 0.0 <= x <= 1.0 && 1 <= k <= 32
    ensures var a := ShiftDown(Mantissa(x), 32 - k);
            Abs(Halved(a as real + 0.5, k) - x) <= Halved(0.5, k) <==> x < 1.0
  {
    hide Halved, Doubled, ShiftDown;
    HalfCellShrinks(k);
    if x < 1.0 {
      MantissaCell(x, k);
      FloorNests(x, k);
      NearFloor(x, k);
    } else {
      assert Mantissa(x) == 0;
      ShiftDownZero(32 - k);
    }
  }

  lemma NearFloor(x: real, k: nat)
    requires x >= 0.0
    ensures Abs(Halved(Doubled(x, k).Floor as real + 0.5, k) - x) <= Halved(0.5, k)
  {
    hide Halved, Doubled;
    var y := Doubled(x, k);
    var c := y.Floor as real + 0.5;
    HalvedUndoesDoubled(x, k, 0);
    assert Halved(x, 0) == x by { HalvedNone(x); }
    HalvedLinear(c - y, y, k);
    HalvedLinear(0.5, -0.5, k);
    HalvedPow2(k);
    if c - y < 0.5 { HalvedMonotone(c - y, 0.5, k); }
    if -0.5 < c - y { HalvedMonotone(-0.5, c - y, k); }
    assert c - y + y == c;
  }

  lemma HalvedNone(x: real)
    ensures Halved(x, 0) == x
  {}

  lemma LatAxisCentre(a: nat, k: nat, lat: real)
    ensures Abs(CentreOf(a, k, 90.0) - lat) <= Halved(90.0, k)
       <==> Abs(Halved(a as real + 0.5, k) - (lat / 180.0 + 0.5)) <= Halved(0.5, k)
  {
    hide Halved;
    HalvedTimes(180.0, 0.5, k);
    assert 180.0 * 0.5 == 90.0;
  }

  lemma LonAxisCentre(a: nat, k: nat, lon: real)
    ensures Abs(CentreOf(a, k, 180.0) - lon) <= Halved(180.0, k)
       <==> Abs(Halved(a as real + 0.5, k) - (lon / 360.0 + 0.5)) <= Halved(0.5, k)
  {
    hide Halved;
    HalvedTimes(360.0, 0.5, k);
    assert 360.0 * 0.5 == 180.0;
  }

  /** The upper edges encode like the lower ones. */
  lemma UpperEdgesWrap(lon: real, lat: real, len: nat)
    requires InRange(lon, lat) && 1 <= len <= 12
    ensures EncodeSpec(180.0, lat, len) == EncodeSpec(-180.0, lat, len)
    ensures EncodeSpec(lon, 90.0, len) == EncodeSpec(lon, -90.0, len)
  {
    assert Mantissa(180.0 / 360.0 + 0.5) == Mantissa(-180.0 / 360.0 + 0.5) == 0;
    assert Mantissa(90.0 / 180.0 + 0.5) == Mantissa(-90.0 / 180.0 + 0.5) == 0;
    hide TopDigits, Mantissa;
  }

  /** The decoded centre is within the reported errors of the encoded point exactly off the upper edges. */
  lemma CentreWithinErrors(lon: real, lat: real, len: nat)
    requires InRange(lon, lat) && 1 <= len <= 12
    ensures var d := DecodeSpec(EncodeSpec(lon, lat, len).value);
            && d.Ok?
            && ((Abs(d.value.lon - lon) <= d.value.lonErr && Abs(d.value.lat - lat) <= d.value.latErr)
                <==> lon < 180.0 && lat < 90.0)
  {
    hide Mantissa, LatCell, LonCell, EncodeSpec, DecodeSpec, Halved, ShiftDown, CentreOf, AllDigits;
    EncodeCellsInBits(lon, lat, len);
    var h := EncodeSpec(lon, lat, len).value;
    DecodeFindsCentre(h);
    AxisWithin(lat / 180.0 + 0.5, LatBits(len));
    AxisWithin(lon / 360.0 + 0.5, LonBits(len));
    LatAxisCentre(LatCell(h), LatBits(len), lat);
    LonAxisCentre(LonCell(h), LonBits(len), lon);
  }

  // --- Neighbours ---

  datatype Direction = N | NE | E | SE | S | SW | W | NW

  /** Rows and columns a direction moves. */
  function ToTuple(d: Direction): (int, int) {
    match d
    case SW => (-1, -1)
    case S => (-1, 0)
    case SE => (-1, 1)
    case W => (0, -1)
    case E => (0, 1)
    case NW => (1, -1)
    case N => (1, 0)
    case NE => (1, 1)
  }

  function Opposite(d: Direction): Direction {
    match d
    case N => S case S => N case E => W case W => E
    case NE => SW case SW => NE case SE => NW case NW => SE
  }

  /** x.rem_euclid(360), for longitudes. */
  function WrapLon(x: real): real { x - 360.0 * (x / 360.0).Floor as real }

  /** x.rem_euclid(180), for latitudes. */
  function WrapLat(x: real): real { x - 180.0 * (x / 180.0).Floor as real }

  /** One cell of the given half extent north (d = 1) or south (d = -1) of lat. */
  function MoveLat(lat: real, err: real, d: int): real {
    WrapLat(lat + 2.0 * Abs(err) * d as real + 90.0) - 90.0
  }

  function MoveLon(lon: real, err: real, d: int): real {
    WrapLon(lon + 2.0 * Abs(err) * d as real + 180.0) - 180.0
  }

  function Neighbor(h: seq<Byte>, direction: Direction): Result<seq<Byte>, GeohashError> {
    match DecodeSpec(h)
    case Err(e) => Err(e)
    case Ok(c) =>
      var (dlat, dlon) := ToTuple(direction);
      EncodeSpec(MoveLon(c.lon, c.lonErr, dlon), MoveLat(c.lat, c.latErr, dlat), |h|)
  }

  /** The index d places along a ring of 2^k cells. */
  ghost function Around(a: int, d: int, k: nat): (b: nat)
    ensures b < Pow2(k)
  {
    (a + d) % Pow2(k)
  }

  lemma ModUnique(n: int, d: int, q: int, r: int)
    requires d > 0 && n == q * d + r && 0 <= r < d
    ensures n % d == r
  {
    var q' := n / d;
    assert n == d * q' + n % d;
    assert (q - q') * d == q * d - d * q';
    assert (q' - q) * d == d * q' - q * d;
    if q > q' {
      MulAtLeast(q - q', d);
    } else if q < q' {
      MulAtLeast(q' - q, d);
    }
  }

  lemma MulAtLeast(a: int, d: int)
    requires a >= 1 && d > 0
    ensures a * d >= d
  {
    assert a * d == (a - 1) * d + d;
    assert (a - 1) * d >= 0;
  }

  /** Stepping off either end of the ring comes back at the other. */
  lemma AroundEnds(a: int, d: int, k: nat)
    requires -1 <= a + d <= Pow2(k)
    ensures Around(a, d, k) == if a + d == -1 then Pow2(k) - 1 else if a + d == Pow2(k) then 0 else a + d
  {
    hide Pow2;
    if a + d == -1 {
      ModUnique(a + d, Pow2(k), -1, Pow2(k) - 1);
    } else if a + d == Pow2(k) {
      ModUnique(a + d, Pow2(k), 1, 0);
    } else {
      ModUnique(a + d, Pow2(k), 0, a + d);
    }
  }

  lemma ShiftedFraction(a: nat, d: int, k: nat)
    requires -1 <= d <= 1
    ensures Halved(a as real + 0.5, k) + d as real * Halved(1.0, k) == Halved((a + d) as real + 0.5, k)
  {
    hide Halved;
    if d == 1 {
      HalvedLinear(a as real + 0.5, 1.0, k);
      assert a as real + 0.5 + 1.0 == (a + d) as real + 0.5;
    } else if d == -1 {
      HalvedLinear((a + d) as real + 0.5, 1.0, k);
      assert (a + d) as real + 0.5 + 1.0 == a as real + 0.5;
    } else {
      assert d as real * Halved(1.0, k) == 0.0;
    }
  }

  /** A fraction of a ring, brought back into the unit interval, is the fraction of the cell around the ring. */
  lemma WrappedFraction(a: nat, d: int, k: nat)
    requires a < Pow2(k) && -1 <= d <= 1
    ensures var t := Halved((a + d) as real + 0.5, k);
            t - t.Floor as real == Halved(Around(a, d, k) as real + 0.5, k)
  {
    var b := a + d;
    AroundEnds(a, d, k);
    HalvedPow2(k);
    hide Halved, Pow2, Around;
    if b == -1 {
      CellFraction(Pow2(k) - 1, k);
      HalvedLinear(b as real + 0.5, Pow2(k) as real, k);
      assert b as real + 0.5 + Pow2(k) as real == (Pow2(k) - 1) as real + 0.5;
    } else if b == Pow2(k) {
      CellFraction(0, k);
      HalvedLinear(0.5, Pow2(k) as real, k);
      assert 0 as real + 0.5 == 0.5;
      assert b as real + 0.5 == 0.5 + Pow2(k) as real;
    } else {
      CellFraction(b, k);
    }
  }

  /** Neighbour search on one axis, with the source's arithmetic. */
  lemma LatStep(a: nat, d: int, k: nat)
    requires a < Pow2(k) && -1 <= d <= 1
    ensures MoveLat(CentreOf(a, k, 90.0), Halved(90.0, k), d) == CentreOf(Around(a, d, k), k, 90.0)
  {
    hide Halved, Around, Pow2;
    var t := Halved((a + d) as real + 0.5, k);
    StepExtent(k, 90.0);
    ShiftedFraction(a, d, k);
    WrappedFraction(a, d, k);
    assert CentreOf(a, k, 90.0) + 2.0 * Abs(Halved(90.0, k)) * d as real + 90.0 == 180.0 * t by {
      if d == 1 {} else if d == -1 {} else {}
    }
    assert 180.0 * t / 180.0 == t;
  }

  lemma LonStep(a: nat, d: int, k: nat)
    requires a < Pow2(k) && -1 <= d <= 1
    ensures MoveLon(CentreOf(a, k, 180.0), Halved(180.0, k), d) == CentreOf(Around(a, d, k), k, 180.0)
  {
    hide Halved, Around, Pow2;
    var t := Halved((a + d) as real + 0.5, k);
    StepExtent(k, 180.0);
    ShiftedFraction(a, d, k);
    WrappedFraction(a, d, k);
    assert CentreOf(a, k, 180.0) + 2.0 * Abs(Halved(180.0, k)) * d as real + 180.0 == 360.0 * t by {
      if d == 1 {} else if d == -1 {} else {}
    }
    assert 360.0 * t / 360.0 == t;
  }

  lemma StepExtent(k: nat, r: real)
    requires r == 90.0 || r == 180.0
    ensures Halved(r, k) == r * Halved(1.0, k) > 0.0
  {
    hide Halved;
    HalvedTimes(r, 1.0, k);
    HalvedMonotone(0.0, r, k);
    HalvedPow2(k);
    assert r * 1.0 == r;
  }

  /**
   * Neighbour search is arithmetic on a torus: the neighbour is the hash of the same length whose
   * row and column are the old ones moved by the direction, each around its own ring.
   */
  lemma NeighborIsTorusStep(h: seq<Byte>, direction: Direction)
    requires ValidHash(h)
    ensures var r := Neighbor(h, direction);
            && r.Ok? && ValidHash(r.value) && |r.value| == |h|
            && LatCell(r.value) == Around(LatCell(h), ToTuple(direction).0, LatBits(|h|))
            && LonCell(r.value) == Around(LonCell(h), ToTuple(direction).1, LonBits(|h|))
  {
    hide AllDigits, LatCell, LonCell, Pow2, CentreOf, EncodeSpec, DecodeSpec, Doubled, Halved, Around, MoveLat, MoveLon;
    var (dlat, dlon) := ToTuple(direction);
    var k, j := LatBits(|h|), LonBits(|h|);
    var a, b := Around(LatCell(h), dlat, k), Around(LonCell(h), dlon, j);
    DecodeFindsCentre(h);
    CellBounds(h);
    LatStep(LatCell(h), dlat, k);
    LonStep(LonCell(h), dlon, j);
    EncodeCentre(a, b, |h|);
  }

  /** The hash of a cell's centre names that cell. */
  lemma EncodeCentre(a: nat, b: nat, len: nat)
    requires 1 <= len <= 12 && a < Pow2(LatBits(len)) && b < Pow2(LonBits(len))
    ensures var r := EncodeSpec(CentreOf(b, LonBits(len), 180.0), CentreOf(a, LatBits(len), 90.0), len);
            && r.Ok? && ValidHash(r.value) && |r.value| == len && LatCell(r.value) == a && LonCell(r.value) == b
  {
    hide AllDigits, LatCell, LonCell, Pow2, CentreOf, EncodeSpec, Doubled, Halved;
    LatCentreInCell(a, LatBits(len));
    LonCentreInCell(b, LonBits(len));
    EncodeFindsCell(CentreOf(b, LonBits(len), 180.0), CentreOf(a, LatBits(len), 90.0), len);
  }

  lemma AroundBack(a: nat, d: int, k: nat)
    requires a < Pow2(k) && -1 <= d <= 1
    ensures Around(Around(a, d, k), -d, k) == a
  {
    AroundEnds(a, d, k);
    AroundEnds(Around(a, d, k), -d, k);
  }

  /** Going one way and then the opposite way comes back to the same hash. */
  lemma OppositeCancels(h: seq<Byte>, direction: Direction)
    requires ValidHash(h)
    ensures Neighbor(h, direction).Ok?
    ensures Neighbor(Neighbor(h, direction).value, Opposite(direction)) == Ok(h)
  {
    hide AllDigits, LatCell, LonCell, Pow2, Neighbor, Around;
    NeighborIsTorusStep(h, direction);
    var g := Neighbor(h, direction).value;
    NeighborIsTorusStep(g, Opposite(direction));
    CellBounds(h);
    AroundBack(LatCell(h), ToTuple(direction).0, LatBits(|h|));
    AroundBack(LonCell(h), ToTuple(direction).1, LonBits(|h|));
    CellsDetermineHash(Neighbor(g, Opposite(direction)).value, h);
  }

  lemma AroundCommutes(a: int, d: int, e: int, k: nat)
    ensures Around(Around(a, d, k), e, k) == Around(Around(a, e, k), d, k)
  {
    AroundAdds(a, d, e, k);
    AroundAdds(a, e, d, k);
    assert a + (d + e) == a + (e + d);
  }

  lemma AroundAdds(a: int, d: int, e: int, k: nat)
    ensures Around(Around(a, d, k), e, k) == Around(a, d + e, k)
  {
    hide Pow2;
    var p := Pow2(k);
    var x, y := Around(a, d, k), Around(a, d + e, k);
    var q, r := (a + d) / p, (a + (d + e)) / p;
    assert a + d == p * q + x;
    assert a + (d + e) == p * r + y;
    assert (r - q) * p == p * r - p * q;
    ModUnique(x + e, p, r - q, y);
  }

  /** The order of two neighbour steps does not matter. */
  lemma NeighborsCommute(h: seq<Byte>, first: Direction, second: Direction)
    requires ValidHash(h)
    ensures Neighbor(h, first).Ok? && Neighbor(h, second).Ok?
    ensures Neighbor(Neighbor(h, first).value, second) == Neighbor(Neighbor(h, second).value, first)
  {
    hide AllDigits, LatCell, LonCell, Pow2, Neighbor, Around;
    NeighborIsTorusStep(h, first);
    NeighborIsTorusStep(h, second);
    var f, g := Neighbor(h, first).value, Neighbor(h, second).value;
    NeighborIsTorusStep(f, second);
    NeighborIsTorusStep(g, first);
    AroundCommutes(LatCell(h), ToTuple(first).0, ToTuple(second).0, LatBits(|h|));
    AroundCommutes(LonCell(h), ToTuple(first).1, ToTuple(second).1, LonBits(|h|));
    CellsDetermineHash(Neighbor(f, second).value, Neighbor(g, first).value);
  }

  /** A neighbour exists for exactly the strings of one to twelve base-32 digits. */
  lemma NeighborOkIff(h: seq<Byte>, direction: Direction)
    ensures Neighbor(h, direction).Ok? <==> ValidHash(h)
  {
    hide EncodeSpec, Centre, MoveLat, MoveLon, Decoder;
    if ValidHash(h) {
      NeighborIsTorusStep(h, direction);
    }
  }

  // --- Which way is north ---

  /** North moves one row up and south one down, around the ring of rows; east and west keep the row. */
  lemma NeighborRow(h: seq<Byte>, direction: Direction)
    requires ValidHash(h)
    ensures var r, rows := Neighbor(h, direction), Pow2(LatBits(|h|));
            && r.Ok? && AllDigits(r.value) && LatCell(h) < rows
            && (direction == N || direction == NE || direction == NW ==>
                  LatCell(r.value) == if LatCell(h) == rows - 1 then 0 else LatCell(h) + 1)
            && (direction == S || direction == SE || direction == SW ==>
                  LatCell(r.value) == if LatCell(h) == 0 then rows - 1 else LatCell(h) - 1)
            && ((direction == E || direction == W) ==> LatCell(r.value) == LatCell(h))
  {
    hide AllDigits, LatCell, LonCell, Pow2, Neighbor, Around, LatBits, LonBits, DecodeSpec, EncodeSpec;
    NeighborIsTorusStep(h, direction);
    CellBounds(h);
    AroundEnds(LatCell(h), ToTuple(direction).0, LatBits(|h|));
  }

  /** East moves one column right and west one left, around the ring of columns; north and south keep the column. */
  lemma NeighborColumn(h: seq<Byte>, direction: Direction)
    requires ValidHash(h)
    ensures var r, columns := Neighbor(h, direction), Pow2(LonBits(|h|));
            && r.Ok? && AllDigits(r.value) && LonCell(h) < columns
            && ((direction == E || direction == NE || direction == SE) ==>
                  LonCell(r.value) == if LonCell(h) == columns - 1 then 0 else LonCell(h) + 1)
            && ((direction == W || direction == NW || direction == SW) ==>
                  LonCell(r.value) == if LonCell(h) == 0 then columns - 1 else LonCell(h) - 1)
            && ((direction == N || direction == S) ==> LonCell(r.value) == LonCell(h))
  {
    hide AllDigits, LatCell, LonCell, Pow2, Neighbor, Around, LatBits, LonBits, DecodeSpec, EncodeSpec;
    NeighborIsTorusStep(h, direction);
    CellBounds(h);
    AroundEnds(LonCell(h), ToTuple(direction).1, LonBits(|h|));
  }

  lemma NextCentre(a: nat, k: nat, r: real)
    ensures CentreOf(a + 1, k, r) == CentreOf(a, k, r) + 2.0 * Halved(r, k)
  {
    HalvedLinear(a as real + 0.5, 1.0, k);
    HalvedTimes(r, 1.0, k);
    hide Halved;
    assert (a + 1) as real + 0.5 == a as real + 0.5 + 1.0;
  }

  /** The decoded centre, as the lemmas above place it. */
  lemma DecodedAt(h: seq<Byte>)
    requires ValidHash(h)
    ensures DecodeSpec(h).Ok?
    ensures var c := DecodeSpec(h).value;
            && c.lat == CentreOf(LatCell(h), LatBits(|h|), 90.0) && c.latErr == Halved(90.0, LatBits(|h|))
            && c.lon == CentreOf(LonCell(h), LonBits(|h|), 180.0) && c.lonErr == Halved(180.0, LonBits(|h|))
  {
    hide AllDigits, LatCell, LonCell, LatBits, LonBits, DecodeSpec, CentreOf, Halved;
    DecodeFindsCentre(h);
  }

  /** In degrees, below the top row: north adds twice the latitude error and keeps the longitude. */
  lemma NorthInDegrees(h: seq<Byte>)
    requires ValidHash(h) && LatCell(h) + 1 < Pow2(LatBits(|h|))
    ensures DecodeSpec(h).Ok? && Neighbor(h, N).Ok? && DecodeSpec(Neighbor(h, N).value).Ok?
    ensures var c, n := DecodeSpec(h).value, DecodeSpec(Neighbor(h, N).value).value;
            n.lat == c.lat + 2.0 * c.latErr && n.lon == c.lon
  {
    hide AllDigits, LatCell, LonCell, Pow2, Neighbor, LatBits, LonBits, DecodeSpec, EncodeSpec, CentreOf, Halved;
    NeighborIsTorusStep(h, N);
    NeighborRow(h, N);
    NeighborColumn(h, N);
    DecodedAt(h);
    DecodedAt(Neighbor(h, N).value);
    NextCentre(LatCell(h), LatBits(|h|), 90.0);
  }

  /** In degrees, left of the last column: east adds twice the longitude error and keeps the latitude. */
  lemma EastInDegrees(h: seq<Byte>)
    requires ValidHash(h) && LonCell(h) + 1 < Pow2(LonBits(|h|))
    ensures DecodeSpec(h).Ok? && Neighbor(h, E).Ok? && DecodeSpec(Neighbor(h, E).value).Ok?
    ensures var c, e := DecodeSpec(h).value, DecodeSpec(Neighbor(h, E).value).value;
            e.lon == c.lon + 2.0 * c.lonErr && e.lat == c.lat
  {
    hide AllDigits, LatCell, LonCell, Pow2, Neighbor, LatBits, LonBits, DecodeSpec, EncodeSpec, CentreOf, Halved;
    NeighborIsTorusStep(h, E);
    NeighborRow(h, E);
    NeighborColumn(h, E);
    DecodedAt(h);
    DecodedAt(Neighbor(h, E).value);
    NextCentre(LonCell(h), LonBits(|h|), 180.0);
  }

  /** The one-digit hashes around the origin: the cell of the origin is "s", north of it "u" and south "k". */
  lemma AroundTheOrigin()
    ensures EncodeSpec(0.0, 0.0, 1) == Ok([0x73])
    ensures Neighbor([0x73], N) == Ok([0x75]) && Neighbor([0x73], S) == Ok([0x6b])
  {
    hide LatCell, LonCell, EncodeSpec, Neighbor, Doubled, DecodeSpec, AllDigits, Pow2;
    DigitCells();
    OriginCell();
    CellsDetermineHash(EncodeSpec(0.0, 0.0, 1).value, [0x73]);
    NextToOrigin(N);
    NextToOrigin(S);
    CellsDetermineHash(Neighbor([0x73], N).value, [0x75]);
    CellsDetermineHash(Neighbor([0x73], S).value, [0x6b]);
  }

  lemma OriginCell()
    ensures var r := EncodeSpec(0.0, 0.0, 1);
            r.Ok? && AllDigits(r.value) && |r.value| == 1 && LatCell(r.value) == 2 && LonCell(r.value) == 4
  {
    hide LatCell, LonCell, EncodeSpec, AllDigits;
    EncodeFindsCell(0.0, 0.0, 1);
    assert Doubled(0.5, 0) == 0.5 && Doubled(0.5, 1) == 1.0 && Doubled(0.5, 2) == 2.0 && Doubled(0.5, 3) == 4.0;
  }

  lemma NextToOrigin(direction: Direction)
    requires direction == N || direction == S
    ensures var r := Neighbor([0x73], direction);
            && r.Ok? && AllDigits(r.value) && |r.value| == 1 && LonCell(r.value) == 4
            && LatCell(r.value) == if direction == N then 3 else 1
  {
    assert Pow2(1) == 2 && Pow2(2) == 4;
    hide LatCell, LonCell, Neighbor, AllDigits, Pow2;
    DigitCells();
    NeighborIsTorusStep([0x73], direction);
    NeighborRow([0x73], direction);
    NeighborColumn([0x73], direction);
  }

  lemma OneDigitCell(c: Byte)
    requires Decoder(c) != 0xff
    ensures AllDigits([c]) && var b := Bits(Decoder(c), 5);
            && |b| == 5 && LatCell([c]) == Val([b[1], b[3]]) && LonCell([c]) == Val([b[0], b[2], b[4]])
  {
    var b := Bits(Decoder(c), 5);
    assert [c][1..] == [] && HashBits([c]) == b + HashBits([]) == b;
    assert Odds(b) == [b[1], b[3]] && Evens(b) == [b[0], b[2], b[4]];
  }

  lemma DigitCells()
    ensures ValidHash([0x73]) && LatCell([0x73]) == 2 && LonCell([0x73]) == 4
    ensures ValidHash([0x75]) && LatCell([0x75]) == 3 && LonCell([0x75]) == 4
    ensures ValidHash([0x6b]) && LatCell([0x6b]) == 1 && LonCell([0x6b]) == 4
  {
    assert Decoder(0x73) == 24 && Decoder(0x75) == 26 && Decoder(0x6b) == 18;
    hide LatCell, LonCell, Bits, Val, Decoder, AllDigits;
    DigitCell(0x73, [true, true, false, false, false]);
    DigitCell(0x75, [true, true, false, true, false]);
    DigitCell(0x6b, [true, false, false, true, false]);
  }

  lemma DigitCell(c: Byte, b: seq<bool>)
    requires Decoder(c) < 32 && |b| == 5
    requires Decoder(c) == 16 * Bit(b[0]) + 8 * Bit(b[1]) + 4 * Bit(b[2]) + 2 * Bit(b[3]) + Bit(b[4])
    ensures ValidHash([c]) && LatCell([c]) == 2 * Bit(b[1]) + Bit(b[3])
    ensures LonCell([c]) == 4 * Bit(b[0]) + 2 * Bit(b[2]) + Bit(b[4])
  {
    OneDigitCell(c);
    var n := Decoder(c);
    hide Decoder, LatCell, LonCell, Bits, Val, AllDigits;
    FiveBits(n);
    TwoBits(b[1], b[3]);
    ThreeBits(b[0], b[2], b[4]);
    assert Bits(n, 5) == b by { BitsAre(n, b); }
  }

  lemma BitsAre(n: nat, b: seq<bool>)
    requires n < 32 && |b| == 5 && n == 16 * Bit(b[0]) + 8 * Bit(b[1]) + 4 * Bit(b[2]) + 2 * Bit(b[3]) + Bit(b[4])
    ensures Bits(n, 5) == b
  {
    hide Bits;
    FiveBits(n);
  }

  lemma FiveBits(n: nat)
    ensures Bits(n, 5) == [n / 16 % 2 == 1, n / 8 % 2 == 1, n / 4 % 2 == 1, n / 2 % 2 == 1, n % 2 == 1]
  {
    assert Bits(n / 32, 0) == [];
    assert n / 2 / 2 == n / 4 && n / 4 / 2 == n / 8 && n / 8 / 2 == n / 16;
    assert Bits(n / 16, 1) == [n / 16 % 2 == 1];
    assert Bits(n / 8, 2) == Bits(n / 16, 1) + [n / 8 % 2 == 1];
    assert Bits(n / 4, 3) == Bits(n / 8, 2) + [n / 4 % 2 == 1];
    assert Bits(n / 2, 4) == Bits(n / 4, 3) + [n / 2 % 2 == 1];
  }

  function Bit(b: bool): nat { if b then 1 else 0 }

  lemma TwoBits(a: bool, b: bool)
    ensures Val([a, b]) == 2 * Bit(a) + Bit(b)
  {
    assert [a, b][..1] == [a] && [a][..0] == [];
    assert Val([a]) == 2 * Val([]) + Bit(a);
  }

  lemma ThreeBits(a: bool, b: bool, c: bool)
    ensures Val([a, b, c]) == 4 * Bit(a) + 2 * Bit(b) + Bit(c)
  {
    TwoBits(a, b);
    assert [a, b, c][..2] == [a, b];
  }

  /** When encoding is refused, and with what. */
  lemma EncodeErrors(lon: real, lat: real, len: nat)
    ensures lon < -180.0 || lon > 180.0 || lat < -90.0 || lat > 90.0 ==>
              EncodeSpec(lon, lat, len) == Err(InvalidCoordinateRange(lon, lat))
    ensures -180.0 <= lon <= 180.0 && -90.0 <= lat <= 90.0 && !(1 <= len <= 12) ==>
              EncodeSpec(lon, lat, len) == Err(InvalidLength(len))
    ensures -180.0 <= lon <= 180.0 && -90.0 <= lat <= 90.0 && 1 <= len <= 12 ==> EncodeSpec(lon, lat, len).Ok?
  {
    hide TopDigits, Interleaved;
  }

  /** When decoding is refused, and with what: too long, or the first character that is no digit. */
  lemma DecodeErrors(h: seq<Byte>, i: nat)
    ensures |h| > 12 ==> DecodeSpec(h) == Err(InvalidHash)
    ensures |h| <= 12 && i < |h| && AllDigits(h[..i]) && Decoder(h[i]) == 0xff ==>
              DecodeSpec(h) == Err(InvalidHashCharacter(h[i]))
    ensures DecodeSpec(h).Ok? <==> ValidHash(h)
  {
    hide Centre, Number, ShiftUp;
    if |h| <= 12 && i < |h| && AllDigits(h[..i]) && Decoder(h[i]) == 0xff { FirstBadAt(h, i); }
  }
}
