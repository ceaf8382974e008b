/**
 * The advertising-data scanner, examples/m5stack-core2-peat/src/nimble.rs: walks the length, type and
 * value structures of section 11 of the Bluetooth Core Specification Vol 3 Part C and looks for the
 * Peat service, by its 16-bit or its 128-bit UUID.
 */
module Advertising {
  type Byte = int

  const UUID_LOW: Byte := 0x7A
  const UUID_HIGH: Byte := 0xF4

  const UUID_128: seq<Byte> :=
    [0x79, 0xd4, 0xc3, 0xb2, 0x02, 0x0e, 0x67, 0xa5, 0x72, 0x43, 0xcc, 0x58, 0x0b, 0xc1, 0x7a, 0xf4]

  datatype Structure = Structure(kind: Byte, value: seq<Byte>)

  /** The structures of the well-formed prefix: it ends at a zero length or one that runs past the end. */
  function Structures(d: seq<Byte>): (r: seq<Structure>)
    requires AllBytes(d)
  {
    if d == [] || d[0] == 0 || d[0] >= |d| then []
    else [Structure(d[1], d[2..d[0] + 1])] + Structures(d[d[0] + 1..])
  }

  predicate AllBytes(d: seq<Byte>) { forall i :: 0 <= i < |d| ==> 0 <= d[i] < 256 }

  /** Some aligned pair of the value is the 16-bit UUID, low byte first. */
  predicate Lists16(v: seq<Byte>) {
    exists k :: 0 <= k <= |v| && 2 * k + 2 <= |v| && v[2 * k] == UUID_LOW && v[2 * k + 1] == UUID_HIGH
  }

  /** Some aligned run of sixteen bytes of the value is the 128-bit UUID. */
  predicate Lists128(v: seq<Byte>) {
    exists k :: 0 <= k <= |v| && 16 * k + 16 <= |v| && v[16 * k..16 * k + 16] == UUID_128
  }

  predicate Announces(s: Structure) {
    ((s.kind == 2 || s.kind == 3) && Lists16(s.value)) || ((s.kind == 6 || s.kind == 7) && Lists128(s.value))
  }

  predicate CarriesPeat(d: seq<Byte>)
    requires AllBytes(d)
  {
    exists i :: 0 <= i < |Structures(d)| && Announces(Structures(d)[i])
  }

  lemma CarriesFirst(d: seq<Byte>)
    requires AllBytes(d) && d != [] && 0 < d[0] < |d|
    ensures AllBytes(d[d[0] + 1..])
    ensures CarriesPeat(d) <==> Announces(Structure(d[1], d[2..d[0] + 1])) || CarriesPeat(d[d[0] + 1..])
  {
    hide Announces;
    var first, rest := Structure(d[1], d[2..d[0] + 1]), Structures(d[d[0] + 1..]);
    var all := Structures(d);
    assert all == [first] + rest;
    if Announces(first) { assert all[0] == first; }
    if CarriesPeat(d[d[0] + 1..]) {
      var i :| 0 <= i < |rest| && Announces(rest[i]);
      assert all[i + 1] == rest[i];
    }
    if CarriesPeat(d) {
      var i :| 0 <= i < |all| && Announces(all[i]);
      assert i > 0 ==> rest[i - 1] == all[i];
    }
  }

  /** Nothing fits in fewer than four bytes, so the scanner's length guard rejects no announcement. */
  lemma {:induction false} TooShort(d: seq<Byte>)
    requires AllBytes(d) && |d| < 4
    ensures !CarriesPeat(d)
  {
    if d != [] && 0 < d[0] < |d| {
      CarriesFirst(d);
      TooShort(d[d[0] + 1..]);
    }
  }

  method Scan16(data: array<Byte>, from: nat, to: nat) returns (found: bool)
    requires from <= to <= data.Length
    ensures found == Lists16(data[from..to])
  {
    ghost var v := data[from..to];
    var j := from;
    ghost var k := 0;
    while j + 1 < to
      invariant j == from + 2 * k && k <= |v| + 1
      invariant forall m :: 0 <= m < k && 2 * m + 2 <= |v| ==> !(v[2 * m] == UUID_LOW && v[2 * m + 1] == UUID_HIGH)
    {
      assert v[2 * k] == data[j] && v[2 * k + 1] == data[j + 1];
      if data[j] == UUID_LOW && data[j + 1] == UUID_HIGH {
        return true;
      }
      j := j + 2;
      k := k + 1;
    }
    return false;
  }

  lemma SliceOfSlice(d: seq<Byte>, from: nat, to: nat, at: nat, n: nat)
    requires from <= to <= |d| && at + n <= to - from
    ensures d[from..to][at..at + n] == d[from + at..from + at + n]
  {
    var whole, a, b := d[from..to], d[from..to][at..at + n], d[from + at..from + at + n];
    forall i | 0 <= i < n ensures a[i] == b[i] { assert a[i] == whole[at + i] == d[from + at + i]; }
    assert |a| == |b|;
  }

  method Scan128(data: array<Byte>, from: nat, to: nat) returns (found: bool)
    requires from <= to <= data.Length
    ensures found == Lists128(data[from..to])
  {
    ghost var v := data[from..to];
    var j := from;
    ghost var k := 0;
    while j + 15 < to
      invariant j == from + 16 * k && k <= |v| + 1
      invariant forall m :: 0 <= m < k && 16 * m + 16 <= |v| ==> v[16 * m..16 * m + 16] != UUID_128
    {
      SliceOfSlice(data[..], from, to, 16 * k, 16);
      if data[j..j + 16] == UUID_128 {
        return true;
      }
      j := j + 16;
      k := k + 1;
    }
    return false;
  }

  /** Looks at the structure at i whose length byte is fieldLen. */
  method ScanStructure(data: array<Byte>, i: nat, fieldLen: nat) returns (found: bool)
    requires 0 < fieldLen && i + fieldLen < data.Length
    ensures found <==> Announces(Structure(data[i + 1], data[i + 2..i + fieldLen + 1]))
  {
    hide Announces, Lists16, Lists128;
    var kind := data[i + 1];
    AnnouncesIff(kind, data[i + 2..i + fieldLen + 1]);
    if (kind == 2 || kind == 3) && fieldLen >= 3 {
      var hit := Scan16(data, i + 2, i + fieldLen + 1);
      if hit {
        return true;
      }
    }
    if (kind == 6 || kind == 7) && fieldLen >= 17 {
      var hit := Scan128(data, i + 2, i + fieldLen + 1);
      if hit {
        return true;
      }
    }
    return false;
  }

  predicate CarriesFrom(d: seq<Byte>, i: nat)
    requires AllBytes(d) && i <= |d|
  {
    CarriesPeat(d[i..])
  }

  lemma CarriesNext(d: seq<Byte>, i: nat)
    requires AllBytes(d) && i < |d| && 0 < d[i] < |d| - i
    ensures CarriesFrom(d, i)
       <==> Announces(Structure(d[i + 1], d[i + 2..i + d[i] + 1])) || CarriesFrom(d, i + d[i] + 1)
  {
    var rest, n := d[i..], d[i];
    CarriesFirst(rest);
    assert rest[2..n + 1] == d[i + 2..i + n + 1];
    assert rest[n + 1..] == d[i + n + 1..];
  }

  /**
   * True exactly when a structure of the well-formed prefix announces the Peat service. Every read is
   * inside the first len bytes.
   */
  method HasPeatService(data: array?<Byte>, len: nat) returns (found: bool)
    requires data != null ==> len <= data.Length && AllBytes(data[..len])
    ensures found <==> data != null && CarriesPeat(data[..len])
  {
    if data == null {
      return false;
    }
    if len < 4 {
      TooShort(data[..len]);
      return false;
    }
    hide Announces, Lists16, Lists128, CarriesPeat, Structures, CarriesFrom;
    ghost var d := data[..len];
    WholeBuffer(d);
    var i := 0;
    while i < len
      invariant i <= len
      invariant CarriesPeat(d) <==> CarriesFrom(d, i)
    {
      var fieldLen := data[i];
      assert d[i] == fieldLen;
      if fieldLen == 0 || i + fieldLen >= len {
        NothingLeft(d, i);
        return false;
      }
      CarriesNext(d, i);
      assert d[i + 1] == data[i + 1] && d[i + 2..i + fieldLen + 1] == data[i + 2..i + fieldLen + 1];
      var hit := ScanStructure(data, i, fieldLen);
      if hit {
        return true;
      }
      i := i + fieldLen + 1;
    }
    NothingLeft(d, i);
    return false;
  }

  lemma WholeBuffer(d: seq<Byte>)
    requires AllBytes(d)
    ensures CarriesFrom(d, 0) == CarriesPeat(d)
  {
    assert d[0..] == d;
  }

  lemma NothingLeft(d: seq<Byte>, i: nat)
    requires AllBytes(d) && i <= |d| && (i == |d| || d[i] == 0 || d[i] >= |d| - i)
    ensures !CarriesFrom(d, i)
  {}

  /** The scanner's minimum lengths lose nothing: shorter values list no UUID. */
  lemma AnnouncesIff(kind: Byte, v: seq<Byte>)
    ensures Announces(Structure(kind, v)) <==>
      ((kind == 2 || kind == 3) && |v| >= 2 && Lists16(v)) || ((kind == 6 || kind == 7) && |v| >= 16 && Lists128(v))
  {}

  // --- Which structures count ---

  lemma OneStructure(d: seq<Byte>)
    requires AllBytes(d) && |d| > 1 && d[0] == |d| - 1
    ensures CarriesPeat(d) <==> Announces(Structure(d[1], d[2..]))
  {
    CarriesFirst(d);
    assert d[2..d[0] + 1] == d[2..] && d[d[0] + 1..] == [];
    assert !CarriesPeat([]);
    hide Announces;
  }

  /** A list is searched UUID by UUID: nothing straddles two of them, and each of them counts. */
  lemma ListedOneByOne(u: seq<Byte>, v: seq<Byte>)
    ensures |u| == 2 ==> (Lists16(u + v) <==> (u[0] == 0x7A && u[1] == 0xF4) || Lists16(v))
    ensures |u| == 16 ==> (Lists128(u + v) <==> u == UUID_128 || Lists128(v))
  {
    if |u| == 2 { Lists16Cons(u, v); }
    if |u| == 16 { Lists128Cons(u, v); }
  }

  lemma Lists16Cons(u: seq<Byte>, v: seq<Byte>)
    requires |u| == 2
    ensures Lists16(u + v) <==> (u[0] == 0x7A && u[1] == 0xF4) || Lists16(v)
  {
    var all := u + v;
    if u[0] == 0x7A && u[1] == 0xF4 { assert all[2 * 0] == UUID_LOW && all[2 * 0 + 1] == UUID_HIGH; }
    if Lists16(v) {
      var k :| 0 <= k <= |v| && 2 * k + 2 <= |v| && v[2 * k] == UUID_LOW && v[2 * k + 1] == UUID_HIGH;
      assert all[2 * (k + 1)] == UUID_LOW && all[2 * (k + 1) + 1] == UUID_HIGH;
    }
    if Lists16(all) {
      var k :| 0 <= k <= |all| && 2 * k + 2 <= |all| && all[2 * k] == UUID_LOW && all[2 * k + 1] == UUID_HIGH;
      if k > 0 { assert v[2 * (k - 1)] == UUID_LOW && v[2 * (k - 1) + 1] == UUID_HIGH; }
    }
  }

  lemma Lists128Cons(u: seq<Byte>, v: seq<Byte>)
    requires |u| == 16
    ensures Lists128(u + v) <==> u == UUID_128 || Lists128(v)
  {
    var all := u + v;
    assert all[16 * 0..16 * 0 + 16] == u;
    if Lists128(v) {
      var k :| 0 <= k <= |v| && 16 * k + 16 <= |v| && v[16 * k..16 * k + 16] == UUID_128;
      assert all[16 * (k + 1)..16 * (k + 1) + 16] == v[16 * k..16 * k + 16];
    }
    if Lists128(all) {
      var k :| 0 <= k <= |all| && 16 * k + 16 <= |all| && all[16 * k..16 * k + 16] == UUID_128;
      if k > 0 { assert v[16 * (k - 1)..16 * (k - 1) + 16] == all[16 * k..16 * k + 16]; }
    }
  }

  /** A list of one 16-bit UUID announces Peat exactly if it is F47A, low byte first, in a list of type 2 or 3. */
  lemma ListOf16(kind: Byte, low: Byte, high: Byte)
    requires AllBytes([3, kind, low, high])
    ensures CarriesPeat([3, kind, low, high]) <==> (kind == 2 || kind == 3) && low == 0x7A && high == 0xF4
  {
    var d := [3, kind, low, high];
    OneStructure(d);
    hide CarriesPeat;
    var v := d[2..];
    assert v == [low, high];
    assert Lists16(v) <==> low == 0x7A && high == 0xF4 by {
      if low == 0x7A && high == 0xF4 { assert v[2 * 0] == UUID_LOW && v[2 * 0 + 1] == UUID_HIGH; }
    }
    assert !Lists128(v);
  }

  /** A list of one 128-bit UUID announces Peat exactly if it is f47ac10b-58cc-4372-a567-0e02b2c3d479 backwards. */
  lemma ListOf128(kind: Byte, v: seq<Byte>)
    requires AllBytes([17, kind] + v) && |v| == 16 && kind != 2 && kind != 3
    ensures CarriesPeat([17, kind] + v)
       <==> (kind == 6 || kind == 7)
            && v == [0x79, 0xd4, 0xc3, 0xb2, 0x02, 0x0e, 0x67, 0xa5, 0x72, 0x43, 0xcc, 0x58, 0x0b, 0xc1, 0x7a, 0xf4]
  {
    var d := [17, kind] + v;
    OneStructure(d);
    hide CarriesPeat;
    assert d[2..] == v;
    assert Lists128(v) <==> v == UUID_128 by {
      assert v[16 * 0..16 * 0 + 16] == v;
      if Lists128(v) {
        var k :| 0 <= k <= |v| && 16 * k + 16 <= |v| && v[16 * k..16 * k + 16] == UUID_128;
        assert k == 0;
      }
    }
    hide Lists16, Lists128;
  }
}
