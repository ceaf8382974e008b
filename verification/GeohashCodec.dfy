/**
 * The codec of peat-protocol/src/geohash.rs: base-32 digits, encode and decode.
 *
 * f64 is modelled by exact reals; the mantissa extraction of encode is the fraction of the range,
 * rounded down at 32 bits and truncated to a u32. Strings are byte sequences. A u64 that the
 * source only shifts and masks is a number below 2^64 (a left shift multiplies modulo 2^64, a
 * right shift divides); it becomes a bit-vector word where the source interleaves or deinterleaves.
 */
module GeohashCodec {
  import opened Prelude
  import opened GeohashBits
  import opened GeohashCells

  type Byte = int  // a byte value; every value outside the table decodes like an invalid byte

  datatype GeohashError =
    | InvalidHashCharacter(c: Byte)
    | InvalidCoordinateRange(lon: real, lat: real)
    | InvalidLength(len: nat)
    | InvalidHash
    | ShiftOverflow  // decode of the empty string shifts a u64 by 64

  /** The centre of a cell and half its extent in each direction. */
  datatype Decoded = Decoded(lon: real, lat: real, lonErr: real, latErr: real)

  // --- Base-32 tables ---

  const BASE32: string := "0123456789bcdefghjkmnpqrstuvwxyz"

  /** The decoder table, by runs of consecutive bytes; 0xff marks a byte that is not a digit. */
  function Decoder(c: Byte): (v: nat)
    ensures v < 32 || v == 0xff
  {
    if 0x30 <= c <= 0x39 then c - 0x30            // '0'..'9' -> 0..9
    else if 0x62 <= c <= 0x68 then c - 0x62 + 10  // 'b'..'h' -> 10..16
    else if 0x6a <= c <= 0x6b then c - 0x6a + 17  // 'j', 'k' -> 17, 18
    else if 0x6d <= c <= 0x6e then c - 0x6d + 19  // 'm', 'n' -> 19, 20
    else if 0x70 <= c <= 0x7a then c - 0x70 + 21  // 'p'..'z' -> 21..31
    else 0xff
  }

  function Encoder(v: nat): (c: Byte)
    requires v < 32
    ensures Decoder(c) == v
  {
    BASE32[v] as int
  }

  lemma EncoderUndoesDecoder(c: Byte)
    requires Decoder(c) != 0xff
    ensures Encoder(Decoder(c)) == c
  {}

  // --- Hashes as bit strings ---

  predicate AllDigits(h: seq<Byte>) {
    forall i :: 0 <= i < |h| ==> Decoder(h[i]) != 0xff
  }

  predicate ValidHash(h: seq<Byte>) {
    1 <= |h| <= 12 && AllDigits(h)
  }

  /** The bits a hash stands for, five per character. */
  function HashBits(h: seq<Byte>): (b: seq<bool>)
    requires AllDigits(h)
    ensures |b| == 5 * |h|
  {
    if h == [] then [] else Bits(Decoder(h[0]), 5) + HashBits(h[1..])
  }

  lemma HashBitsCons(h: seq<Byte>)
    requires h != [] && AllDigits(h)
    ensures HashBits(h)[..5] == Bits(Decoder(h[0]), 5) && HashBits(h)[5..] == HashBits(h[1..])
  {
    hide Decoder, Bits;
  }

  lemma CharDetermine(c: Byte, d: Byte)
    requires Decoder(c) != 0xff && Decoder(d) != 0xff && Bits(Decoder(c), 5) == Bits(Decoder(d), 5)
    ensures c == d
  {
    hide Decoder, Encoder, Bits;
    ShiftUpFive(0);
    ValOfBits(Decoder(c), 5);
    ValOfBits(Decoder(d), 5);
    EncoderUndoesDecoder(c);
    EncoderUndoesDecoder(d);
  }

  /** Different hashes of one length stand for different bits. */
  lemma {:induction false} HashBitsDetermine(h: seq<Byte>, g: seq<Byte>)
    requires AllDigits(h) && AllDigits(g) && |h| == |g| && HashBits(h) == HashBits(g)
    ensures h == g
  {
    if h != [] {
      hide Decoder, Encoder, HashBits;
      HashBitsCons(h);
      HashBitsCons(g);
      HashBitsDetermine(h[1..], g[1..]);
      CharDetermine(h[0], g[0]);
      assert h == [h[0]] + h[1..] && g == [g[0]] + g[1..];
    }
  }

  lemma {:induction false} HashBitsSnoc(h: seq<Byte>, c: Byte)
    requires AllDigits(h) && Decoder(c) != 0xff
    ensures HashBits(h + [c]) == HashBits(h) + Bits(Decoder(c), 5)
  {
    hide Decoder, Bits;
    if h == [] {
      assert h + [c] == [c] && HashBits([]) == [];
    } else {
      HashBitsSnoc(h[1..], c);
      assert (h + [c])[1..] == h[1..] + [c];
    }
  }

  lemma {:induction false} HashBitsPrefix(h: seq<Byte>, n: nat)
    requires AllDigits(h) && n <= |h|
    ensures HashBits(h[..n]) == HashBits(h)[..5 * n]
    decreases n
  {
    hide Decoder, Bits;
    if n > 0 {
      HashBitsPrefix(h[1..], n - 1);
      assert h[..n][1..] == h[1..][..n - 1];
      assert HashBits(h)[..5 * n] == Bits(Decoder(h[0]), 5) + HashBits(h[1..])[..5 * (n - 1)];
    }
  }

  // --- Encode ---

  /** Bits 20 to 51 of the double 1 + x: the fraction rounded down at 32 bits, as a u32. */
  function Mantissa(x: real): (m: nat) {
    (x * 4294967296.0).Floor % 0x1_0000_0000
  }

  predicate InRange(lon: real, lat: real) {
    -180.0 <= lon <= 180.0 && -90.0 <= lat <= 90.0
  }

  function LatWord(lat: real): bv32 { WordOf32(Bits(Mantissa(lat / 180.0 + 0.5), 32)) }

  function LonWord(lon: real): bv32 { WordOf32(Bits(Mantissa(lon / 360.0 + 0.5), 32)) }

  /** The interleaved u64: latitude on the even bit positions, longitude on the odd ones. */
  function Interleaved(lon: real, lat: real): nat {
    Val(TopBits(Interleave(LatWord(lat), LonWord(lon)), 64))
  }

  /** The n leading base-32 digits of a u64. */
  function TopDigits(z: nat, n: nat): (h: seq<Byte>)
    ensures |h| == n && AllDigits(h)
    decreases n
  {
    if n == 0 then [] else [Encoder(ShiftDown(z, 59) % 32)] + TopDigits(Truncate(ShiftUp(z, 5), 64), n - 1)
  }

  function EncodeSpec(lon: real, lat: real, len: nat): Result<seq<Byte>, GeohashError> {
    if !InRange(lon, lat) then Err(InvalidCoordinateRange(lon, lat))
    else if !(1 <= len <= 12) then Err(InvalidLength(len))
    else Ok(TopDigits(Interleaved(lon, lat), len))
  }

  lemma TopDigitsCons(z: nat, n: nat, before: seq<Byte>)
    requires n > 0
    ensures before + TopDigits(z, n)
         == before + [Encoder(ShiftDown(z, 59) % 32)] + TopDigits(Truncate(ShiftUp(z, 5), 64), n - 1)
  {
    hide Encoder, Decoder, ShiftDown, ShiftUp, Truncate;
  }

  method Encode(lon: real, lat: real, len: nat) returns (r: Result<seq<Byte>, GeohashError>)
    ensures r == EncodeSpec(lon, lat, len)
  {
    if !InRange(lon, lat) {
      return Err(InvalidCoordinateRange(lon, lat));
    }
    if !(1 <= len <= 12) {
      return Err(InvalidLength(len));
    }
    hide Interleaved, Encoder, Decoder, ShiftDown, ShiftUp, Truncate;
    var interleaved := Interleaved(lon, lat);
    var out: seq<Byte> := [];
    for i := 0 to len
      invariant out + TopDigits(interleaved, len - i) == TopDigits(Interleaved(lon, lat), len)
    {
      var code := ShiftDown(interleaved, 59) % 32;
      TopDigitsCons(interleaved, len - i, out);
      out := out + [Encoder(code)];
      interleaved := Truncate(ShiftUp(interleaved, 5), 64);
    }
    assert out + TopDigits(interleaved, 0) == out;
    return Ok(out);
  }

  lemma FirstDigitBits(z: nat)
    ensures Bits(ShiftDown(z, 59) % 32, 5) == Bits(z, 64)[..5]
  {
    hide ShiftDown;
    BitsPrefix(z, 64, 5);
    ShiftUpFive(0);
    BitsTruncate(ShiftDown(z, 59), 5);
  }

  lemma NextWordBits(z: nat)
    ensures Bits(Truncate(ShiftUp(z, 5), 64), 64)[..59] == Bits(z, 64)[5..]
  {
    hide *;
    BitsTruncate(ShiftUp(z, 5), 64);
    BitsShift(z, 59, 5);
    BitsSuffix(z, 64, 59);
    assert (Bits(z, 59) + Zeros(5))[..59] == Bits(z, 59);
  }

  /** The digits of a u64 stand for its leading bits. */
  lemma {:induction false} TopDigitsBits(z: nat, n: nat)
    requires n <= 12
    ensures HashBits(TopDigits(z, n)) == Bits(z, 64)[..5 * n]
    decreases n
  {
    if n > 0 {
      hide Encoder, Decoder, Bits, Truncate, ShiftUp, ShiftDown;
      var z' := Truncate(ShiftUp(z, 5), 64);
      TopDigitsBits(z', n - 1);
      FirstDigitBits(z);
      NextWordBits(z);
      assert TopDigits(z, n)[1..] == TopDigits(z', n - 1);
      assert Bits(z', 64)[..5 * (n - 1)] == Bits(z', 64)[..59][..5 * (n - 1)];
      assert Bits(z, 64)[..5 * n] == Bits(z, 64)[..5] + Bits(z, 64)[5..][..5 * (n - 1)];
    }
  }

  // --- Decode ---

  /** The number decode accumulates: base-32 digits, most significant first. */
  function Number(h: seq<Byte>): (n: nat)
    requires AllDigits(h)
  {
    if h == [] then 0 else 32 * Number(h[..|h| - 1]) + Decoder(h[|h| - 1])
  }

  function DecodeRange(x: bv32, r: real): real {
    2.0 * r * (Val(TopBits32(x, 32)) as real / 4294967296.0) - r
  }

  /** Full extents of a cell of the given number of bits, as (latitude, longitude). */
  function ErrorWithPrecision(bits: nat): (real, real) {
    var latBits := bits / 2;
    (Halved(180.0, latBits), Halved(360.0, bits - latBits))
  }

  function FirstBad(h: seq<Byte>): (c: Byte)
    requires !AllDigits(h)
    ensures c in h && Decoder(c) == 0xff
  {
    if Decoder(h[0]) == 0xff then h[0] else FirstBad(h[1..])
  }

  function Centre(full: nat, bits: nat): Decoded {
    var (latWord, lonWord) := Deinterleave(WordOf(Bits(full, 64)));
    var (latErr, lonErr) := ErrorWithPrecision(bits);
    Decoded(DecodeRange(lonWord, 180.0) + lonErr / 2.0, DecodeRange(latWord, 90.0) + latErr / 2.0, lonErr / 2.0,
        latErr / 2.0)
  }

  function DecodeSpec(h: seq<Byte>): Result<Decoded, GeohashError> {
    if |h| > 12 then Err(InvalidHash)
    else if !AllDigits(h) then Err(InvalidHashCharacter(FirstBad(h)))
    else if |h| == 0 then Err(ShiftOverflow)
    else Ok(Centre(ShiftUp(Number(h), 64 - 5 * |h|), 5 * |h|))
  }

  method Decode(h: seq<Byte>) returns (r: Result<Decoded, GeohashError>)
    ensures r == DecodeSpec(h)
  {
    hide Decoder, Centre, ShiftUp;
    var bits := 5 * |h|;
    if |h| > 12 {
      return Err(InvalidHash);
    }
    var number := 0;
    for i := 0 to |h|
      invariant AllDigits(h[..i])
      invariant number == Number(h[..i])
    {
      var val := Decoder(h[i]);
      if val == 0xff {
        FirstBadAt(h, i);
        return Err(InvalidHashCharacter(h[i]));
      }
      assert h[..i + 1][..i] == h[..i];
      number := number * 32 + val;
    }
    assert h[..|h|] == h;
    if bits == 0 {
      return Err(ShiftOverflow);
    }
    return Ok(Centre(ShiftUp(number, 64 - bits), bits));
  }

  lemma {:induction false} FirstBadAt(h: seq<Byte>, i: nat)
    requires i < |h| && AllDigits(h[..i]) && Decoder(h[i]) == 0xff
    ensures !AllDigits(h) && FirstBad(h) == h[i]
  {
    assert !AllDigits(h);
    if i > 0 {
      assert h[..i][0] == h[0];
      assert h[1..][..i - 1] == h[..i][1..];
      FirstBadAt(h[1..], i - 1);
    }
  }

  lemma NumberSnoc(h: seq<Byte>, c: Byte)
    requires AllDigits(h) && Decoder(c) != 0xff
    ensures AllDigits(h + [c]) && Number(h + [c]) == ShiftUp(Number(h), 5) + Decoder(c)
  {
    hide Decoder, ShiftUp;
    ShiftUpFive(Number(h));
    assert (h + [c])[..|h|] == h;
  }

  lemma NumberBitsStep(h: seq<Byte>, c: Byte)
    requires AllDigits(h) && Decoder(c) != 0xff && AllDigits(h + [c])
    requires Bits(Number(h), 5 * |h|) == HashBits(h)
    ensures Bits(Number(h + [c]), 5 * |h + [c]|) == HashBits(h + [c])
  {
    hide Decoder, Number, HashBits, Bits, ShiftUp, Pow2, AllDigits;
    NumberSnoc(h, c);
    HashBitsSnoc(h, c);
    ShiftUpFive(0);
    BitsAppend(Number(h), Decoder(c), 5 * |h|, 5);
    assert |h + [c]| == |h| + 1;
  }

  lemma {:induction false} NumberBits(h: seq<Byte>)
    requires AllDigits(h)
    ensures Bits(Number(h), 5 * |h|) == HashBits(h)
  {
    hide Decoder;
    if h != [] {
      var init, c := h[..|h| - 1], h[|h| - 1];
      NumberBits(init);
      assert h == init + [c];
      NumberBitsStep(init, c);
    }
  }
}
