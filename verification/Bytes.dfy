/** Bytes, machine words and little-endian encoding. */
module Bytes {

  type byte = x: int | 0 <= x < 0x100
  type u16 = x: int | 0 <= x < 0x1_0000
  type u32 = x: int | 0 <= x < 0x1_0000_0000
  type u64 = x: int | 0 <= x < 0x1_0000_0000_0000_0000
  type i64 = x: int | -0x8000_0000_0000_0000 <= x < 0x8000_0000_0000_0000

  /** Number of a general-purpose or xmm register. */
  type RegNum = n: nat | n < 16

  const TWO32: int := 0x1_0000_0000
  const TWO63: int := 0x8000_0000_0000_0000
  const TWO64: int := 0x1_0000_0000_0000_0000

  /** `x as u64` of an integer: reduction modulo 2^64. */
  function AsU64(x: int): u64 { x % TWO64 }

  /** `x as i64` of an integer: the representative modulo 2^64 that is closest to zero. */
  function AsI64(x: int): i64 {
    var u := x % TWO64;
    if u < TWO63 then u else u - TWO64
  }

  predicate FitsI32(x: int) { -0x8000_0000 <= x <= 0x7FFF_FFFF }

  /** 256^n. */
  function Pow256(n: nat): (p: nat)
    ensures p >= 1
  {
    if n == 0 then 1 else 256 * Pow256(n - 1)
  }

  lemma Pow256Values()
    ensures Pow256(1) == 0x100 && Pow256(2) == 0x1_0000 && Pow256(4) == TWO32 && Pow256(8) == TWO64
  {
    assert Pow256(2) == 256 * Pow256(1);
    assert Pow256(3) == 256 * Pow256(2);
    assert Pow256(4) == 256 * Pow256(3);
    assert Pow256(5) == 256 * Pow256(4);
    assert Pow256(6) == 256 * Pow256(5);
    assert Pow256(7) == 256 * Pow256(6);
  }

  /** The low `width` bytes of the two's complement representation of `v`, least significant first. */
  function LittleEndian(v: int, width: nat): (s: seq<byte>)
    ensures |s| == width
    decreases width
  {
    if width == 0 then [] else [v % 0x100] + LittleEndian(v / 0x100, width - 1)
  }

  /** The unsigned value of a byte string, least significant byte first. */
  function FromLittleEndian(s: seq<byte>): (v: nat)
    ensures v < Pow256(|s|)
  {
    if s == [] then 0 else s[0] + 0x100 * FromLittleEndian(s[1..])
  }

  /** The signed (two's complement) value of a byte string. */
  function SignedLittleEndian(s: seq<byte>): int {
    var u := FromLittleEndian(s);
    if 2 * u < Pow256(|s|) then u else u - Pow256(|s|)
  }

  /** Byte i has weight 256^i: the least significant byte comes first. */
  lemma {:induction false} LittleEndianAt(v: int, width: nat, i: nat)
    requires i < width
    ensures LittleEndian(v, width)[i] == v / Pow256(i) % 0x100
    decreases width
  {
    if i > 0 {
      LittleEndianAt(v / 0x100, width - 1, i - 1);
      DivideTwice(v, Pow256(i - 1));
    }
  }

  lemma DivideTwice(v: int, p: nat)
    requires p >= 1
    ensures v / 0x100 / p == v / (0x100 * p)
  {
    var q, r := v / 0x100 / p, v / 0x100 % p;
    assert v / 0x100 == p * q + r;
    assert v == (0x100 * p) * q + (0x100 * r + v % 0x100);
    DivisionIsUnique(v, 0x100 * p, q, 0x100 * r + v % 0x100);
  }

  lemma ModOfProduct(v: int, p: int)
    requires p >= 1
    ensures v % (0x100 * p) == v % 0x100 + 0x100 * ((v / 0x100) % p)
  {
    var q := (v / 0x100) / p;
    var m := (v / 0x100) % p;
    assert v == (0x100 * p) * q + (v % 0x100 + 0x100 * m) by {
      assert v / 0x100 == p * q + m;
    }
    DivisionIsUnique(v, 0x100 * p, q, v % 0x100 + 0x100 * m);
  }

  lemma DivisionIsUnique(v: int, d: int, q: int, r: int)
    requires d > 0 && v == d * q + r && 0 <= r < d
    ensures v / d == q && v % d == r
  {
    var q', r' := v / d, v % d;
    assert d * (q - q') == r' - r;
    assert q - q' >= 1 ==> d * (q - q') >= d;
    assert q - q' <= -1 ==> d * (q - q') <= -d;
  }

  /** Writing an integer and reading it back reduces it modulo 256^width. */
  lemma {:induction false} LittleEndianRoundTrip(v: int, width: nat)
    ensures FromLittleEndian(LittleEndian(v, width)) == v % Pow256(width)
    decreases width
  {
    if width > 0 {
      var s := LittleEndian(v, width);
      assert s[1..] == LittleEndian(v / 0x100, width - 1);
      LittleEndianRoundTrip(v / 0x100, width - 1);
      ModOfProduct(v, Pow256(width - 1));
    }
  }

  lemma UnsignedRoundTrip(v: int, width: nat)
    requires 0 <= v < Pow256(width)
    ensures FromLittleEndian(LittleEndian(v, width)) == v
  {
    LittleEndianRoundTrip(v, width);
    DivisionIsUnique(v, Pow256(width), 0, v);
  }

  /** A signed value of 8, 32 or 64 bits survives the round trip. */
  lemma SignedRoundTrip(v: int, width: nat)
    requires -(Pow256(width) as int) <= 2 * v < Pow256(width)
    ensures SignedLittleEndian(LittleEndian(v, width)) == v
  {
    LittleEndianRoundTrip(v, width);
    var p: int := Pow256(width);
    if v >= 0 {
      DivisionIsUnique(v, p, 0, v);
    } else {
      DivisionIsUnique(v, p, -1, v + p);
    }
  }
}
