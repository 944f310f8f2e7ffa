/** What the scan comparisons decide, in terms of the integers whose bytes are in memory. */
module ScanMeaning {
  import opened Wrappers
  import opened Bytes
  import opened ProcessMemory
  import opened Values
  import opened Chunks
  import opened Scans
  import opened ValueScans

  // ----- The integer types -----

  predicate IsInteger(vt: ValueType) { vt in {I8, I16, I32, I64, U8, U16, U32, U64} }

  function Width(vt: ValueType): nat {
    match vt
    case I8 => 1
    case U8 => 1
    case I16 => 2
    case U16 => 2
    case I32 => 4
    case U32 => 4
    case _ => 8
  }

  /** The integers of a type. */
  predicate InRange(vt: ValueType, v: int) {
    match vt
    case I8 => -128 <= v <= 127
    case U8 => 0 <= v <= 255
    case I16 => -32768 <= v <= 32767
    case U16 => 0 <= v <= 65535
    case I32 => -2147483648 <= v <= 2147483647
    case U32 => 0 <= v <= 4294967295
    case I64 => -9223372036854775808 <= v <= 9223372036854775807
    case U64 => 0 <= v <= 18446744073709551615
    case _ => false
  }

  /** The bytes of an integer of a type: two's complement, least significant byte first. */
  function Stored(vt: ValueType, v: int): (s: seq<byte>)
    ensures |s| == Width(vt)
  {
    LittleEndian(v, Width(vt))
  }

  /** Reading gives back every integer of every type, and the f64 kept is its rounding. */
  lemma StoredIsRead(vt: ValueType, v: int)
    requires IsInteger(vt) && InRange(vt, v)
    ensures vt.Size() == Width(vt)
    ensures vt.ReadInt(Stored(vt, v)) == Some(v)
    ensures vt.ReadF64(Stored(vt, v)) == Some(Integral(RoundF64(v)))
  {
    RangeFitsWidth(vt, v);
    var s := Stored(vt, v);
    assert s[..vt.Size()] == s;
    if vt.IsSigned() {
      SignedRoundTrip(v, Width(vt));
    } else {
      UnsignedRoundTrip(v, Width(vt));
    }
    hide LittleEndian, FromLittleEndian, SignedLittleEndian, RoundF64, Pow256, InRange;
  }

  /** The integers of a type are the two's complement, or the unsigned, numbers of its width. */
  lemma RangeFitsWidth(vt: ValueType, v: int)
    requires IsInteger(vt)
    ensures InRange(vt, v) <==>
              (if vt.IsSigned() then -(Pow256(Width(vt)) as int) <= 2 * v < Pow256(Width(vt))
               else 0 <= v < Pow256(Width(vt)))
    ensures vt.IsSigned() <==> vt in {I8, I16, I32, I64}
  {
    Pow256Values();
  }

  /** Short input is no value, and neither are floats and texts an integer. */
  lemma NothingElseIsRead(vt: ValueType, bytes: seq<byte>)
    ensures vt.ReadInt(bytes).Some? <==> IsInteger(vt) && |bytes| >= Width(vt)
    ensures vt.ReadF64(bytes).Some? <==> (IsInteger(vt) || vt in {F32, F64}) && |bytes| >= vt.Size()
    ensures F32.Size() == 4 && F64.Size() == 8 && StringUtf8.Size() == 0 && StringUtf16.Size() == 0
  {}

  // ----- Comparing -----

  /** What each kind of scan asks of the value v, the value p before and the bounds. */
  lemma KindsMean(v: int, p: int, a: int, b: int)
    ensures HoldsInt(ScanCmp(Increased, a, b), v, p) <==> v > p
    ensures HoldsInt(ScanCmp(Decreased, a, b), v, p) <==> v < p
    ensures HoldsInt(ScanCmp(Changed, a, b), v, p) <==> v != p
    ensures HoldsInt(ScanCmp(Unchanged, a, b), v, p) <==> v == p
    ensures HoldsInt(ScanCmp(Exact, a, b), v, p) <==> v == a
    ensures HoldsInt(ScanCmp(BiggerThan, a, b), v, p) <==> v > a
    ensures HoldsInt(ScanCmp(SmallerThan, a, b), v, p) <==> v < a
    ensures HoldsInt(ScanCmp(Between, a, b), v, p) <==> a <= v && v <= b
  {}

  /** The comparison with a kept value, on bytes. */
  lemma CompareMeans(floats: Floats, vt: ValueType, cmp: ScanCmp, v: int, p: int)
    requires IsInteger(vt) && InRange(vt, v)
    ensures Compare(floats, vt, cmp, Stored(vt, v), Integral(p)) == Some(HoldsInt(cmp, v, p))
    ensures Compare(floats, vt, cmp, Stored(vt, v), NotANumber) == Some(HoldsInt(cmp, v, 0))
  {
    StoredIsRead(vt, v);
    hide HoldsInt, Stored;
  }

  /** A match whose address now holds the bytes of v, and which kept the integer p, is kept by a next scan exactly
      when v stands to p or to the bounds as the kind says. It then keeps v, as an f64 holds it. */
  lemma NextScanMeans(mem: Memory, floats: Floats, vt: ValueType, v: int, p: int, x: Match, a: int, b: int)
    requires IsInteger(vt) && InRange(vt, v) && InRange(vt, p) && Representable(p)
    requires ReadInto(mem, x.address, Width(vt)) == Some(Stored(vt, v)) && vt.ReadF64(Stored(vt, p)) == Some(x.last)
    ensures Rescan(mem, floats, vt, ScanCmp(Increased, a, b), x).Some? <==> v > p
    ensures Rescan(mem, floats, vt, ScanCmp(Decreased, a, b), x).Some? <==> v < p
    ensures Rescan(mem, floats, vt, ScanCmp(Changed, a, b), x).Some? <==> v != p
    ensures Rescan(mem, floats, vt, ScanCmp(Unchanged, a, b), x).Some? <==> v == p
    ensures Rescan(mem, floats, vt, ScanCmp(Exact, a, b), x).Some? <==> v == a
    ensures Rescan(mem, floats, vt, ScanCmp(BiggerThan, a, b), x).Some? <==> v > a
    ensures Rescan(mem, floats, vt, ScanCmp(SmallerThan, a, b), x).Some? <==> v < a
    ensures Rescan(mem, floats, vt, ScanCmp(Between, a, b), x).Some? <==> a <= v && v <= b
    ensures forall cmp :: Rescan(mem, floats, vt, cmp, x).Some? ==>
              Rescan(mem, floats, vt, cmp, x).value == Match(x.address, Integral(RoundF64(v)))
  {
    forall cmp
      ensures Rescan(mem, floats, vt, cmp, x)
              == if HoldsInt(cmp, v, p) then Some(Match(x.address, Integral(RoundF64(v)))) else None
    {
      RescanDecides(mem, floats, vt, v, p, x, cmp);
    }
    KindsMean(v, p, a, b);
    hide HoldsInt, Rescan, ReadInto, ValueType.ReadF64, Stored, RoundF64, Representable;
  }

  lemma RescanDecides(mem: Memory, floats: Floats, vt: ValueType, v: int, p: int, x: Match, cmp: ScanCmp)
    requires IsInteger(vt) && InRange(vt, v) && InRange(vt, p) && Representable(p)
    requires ReadInto(mem, x.address, Width(vt)) == Some(Stored(vt, v)) && vt.ReadF64(Stored(vt, p)) == Some(x.last)
    ensures Rescan(mem, floats, vt, cmp, x)
            == if HoldsInt(cmp, v, p) then Some(Match(x.address, Integral(RoundF64(v)))) else None
  {
    StoredIsRead(vt, v);
    StoredIsRead(vt, p);
    RoundExactIffRepresentable(p);
    CompareMeans(floats, vt, cmp, v, p);
    hide HoldsInt, Stored, RoundF64, Representable, ReadInto, ValueType.ReadInt, ValueType.ReadF64, Compare;
  }

  /** The comparison of two readings, on bytes: v now, p before. */
  lemma PairMeans(floats: Floats, vt: ValueType, v: int, p: int, a: int, b: int)
    requires IsInteger(vt) && InRange(vt, v) && InRange(vt, p)
    ensures ComparePair(floats, vt, ScanCmp(Increased, a, b), Stored(vt, p), Stored(vt, v)) == Some(v > p)
    ensures ComparePair(floats, vt, ScanCmp(Decreased, a, b), Stored(vt, p), Stored(vt, v)) == Some(v < p)
    ensures ComparePair(floats, vt, ScanCmp(Changed, a, b), Stored(vt, p), Stored(vt, v)) == Some(v != p)
    ensures ComparePair(floats, vt, ScanCmp(Unchanged, a, b), Stored(vt, p), Stored(vt, v)) == Some(v == p)
    ensures ComparePair(floats, vt, ScanCmp(Exact, a, b), Stored(vt, p), Stored(vt, v)) == Some(v == a)
    ensures ComparePair(floats, vt, ScanCmp(BiggerThan, a, b), Stored(vt, p), Stored(vt, v)) == Some(v > a)
    ensures ComparePair(floats, vt, ScanCmp(SmallerThan, a, b), Stored(vt, p), Stored(vt, v)) == Some(v < a)
    ensures ComparePair(floats, vt, ScanCmp(Between, a, b), Stored(vt, p), Stored(vt, v)) == Some(a <= v && v <= b)
  {
    StoredIsRead(vt, v);
    StoredIsRead(vt, p);
    KindsMean(v, p, a, b);
    hide HoldsInt, Stored, ValueType.ReadInt;
  }

  /** A first scan accepts the bytes of v by the bounds; a relative kind compares with 0. It keeps v, as an f64
      holds it. */
  lemma FirstScanMeans(floats: Floats, vt: ValueType, v: int, a: int, b: int)
    requires IsInteger(vt) && InRange(vt, v)
    ensures Value(floats, vt, ScanCmp(Exact, a, b)).Accepts(Stored(vt, v)) <==> v == a
    ensures Value(floats, vt, ScanCmp(BiggerThan, a, b)).Accepts(Stored(vt, v)) <==> v > a
    ensures Value(floats, vt, ScanCmp(SmallerThan, a, b)).Accepts(Stored(vt, v)) <==> v < a
    ensures Value(floats, vt, ScanCmp(Between, a, b)).Accepts(Stored(vt, v)) <==> a <= v && v <= b
    ensures Value(floats, vt, ScanCmp(Increased, a, b)).Accepts(Stored(vt, v)) <==> v > 0
    ensures Value(floats, vt, ScanCmp(Decreased, a, b)).Accepts(Stored(vt, v)) <==> v < 0
    ensures Value(floats, vt, ScanCmp(Changed, a, b)).Accepts(Stored(vt, v)) <==> v != 0
    ensures Value(floats, vt, ScanCmp(Unchanged, a, b)).Accepts(Stored(vt, v)) <==> v == 0
    ensures forall cmp :: Value(floats, vt, cmp).Width() == Width(vt)
                          && LastSeen(Value(floats, vt, cmp), Stored(vt, v)) == Integral(RoundF64(v))
  {
    StoredIsRead(vt, v);
    KindsMean(v, 0, a, b);
    hide HoldsInt, Stored, ValueType.ReadInt, ValueType.ReadF64, RoundF64;
    forall cmp ensures Compare(floats, vt, cmp, Stored(vt, v), NotANumber) == Some(HoldsInt(cmp, v, 0)) {
      CompareMeans(floats, vt, cmp, v, 0);
    }
    hide Compare;
  }

  /** Floats are compared by the given comparison of their bytes: with the bytes before, or the value kept. */
  lemma FloatsAreCompared(floats: Floats, vt: ValueType, cmp: ScanCmp, now: seq<byte>, was: seq<byte>, last: Last)
    requires vt in {F32, F64} && |now| == |was| == vt.Size()
    ensures Compare(floats, vt, cmp, now, last) == Some(floats(vt, cmp.kind, now, last))
    ensures ComparePair(floats, vt, cmp, was, now) == Some(floats(vt, cmp.kind, now, FloatBits(was)))
    ensures vt.ReadF64(now) == Some(FloatBits(now))
  {
    assert now[..vt.Size()] == now && was[..vt.Size()] == was;
  }

  // ----- Patterns and texts -----

  /** A pattern of given bytes. */
  function Fixed(bytes: seq<byte>): (p: seq<Option<byte>>)
    ensures |p| == |bytes| && forall k :: 0 <= k < |p| ==> p[k] == Some(bytes[k])
  {
    seq(|bytes|, k requires 0 <= k < |bytes| => Some(bytes[k]))
  }

  /** Without wildcards a pattern matches exactly where its bytes are. */
  lemma FixedPatternMatches(hay: seq<byte>, bytes: seq<byte>)
    ensures MatchesAt(hay, Fixed(bytes)) <==> |bytes| <= |hay| && hay[..|bytes|] == bytes
    ensures Pattern(Fixed(bytes)).Width() == |bytes| && Text(bytes).Width() == |bytes|
    ensures |hay| == |bytes| ==> (Text(bytes).Accepts(hay) <==> Pattern(Fixed(bytes)).Accepts(hay))
  {
    if |bytes| <= |hay| && hay[..|bytes|] == bytes {
      forall k | 0 <= k < |bytes| ensures Fixed(bytes)[k].value == hay[k] {
        assert hay[..|bytes|][k] == hay[k];
      }
    }
    if MatchesAt(hay, Fixed(bytes)) {
      assert forall k :: 0 <= k < |bytes| ==> Fixed(bytes)[k].value == hay[k];
      assert hay[..|bytes|] == bytes;
    }
    if |hay| == |bytes| {
      assert hay[..|bytes|] == hay;
    }
  }

  /** A wildcard stands for any one byte. */
  lemma WildcardMatchesAnyByte(hay: seq<byte>, pattern: seq<Option<byte>>, k: nat)
    requires k < |pattern|
    ensures MatchesAt(hay, pattern[k := None]) <==> exists b: byte :: MatchesAt(hay, pattern[k := Some(b)])
  {
    if MatchesAt(hay, pattern[k := None]) {
      var filled := pattern[k := Some(hay[k])];
      assert forall j :: 0 <= j < |filled| && j != k ==> filled[j] == pattern[k := None][j];
      assert MatchesAt(hay, filled);
    }
    if b: byte :| MatchesAt(hay, pattern[k := Some(b)]) {
      var filled := pattern[k := Some(b)];
      assert forall j :: 0 <= j < |filled| && j != k ==> filled[j] == pattern[k := None][j];
    }
  }

  // ----- Pointers -----

  /** A pointer is read as 4 bytes in a 32-bit target and as 8 bytes otherwise, least significant byte first. */
  lemma PointerIsRead(mem: Memory, addr: u64, v: u64, ptrSize: nat)
    ensures ReadInto(mem, addr, 4) == Some(LittleEndian(v, 4)) && v < 0x1_0000_0000 ==> ReadPtr(mem, addr, 4) == Some(v)
    ensures ReadInto(mem, addr, 8) == Some(LittleEndian(v, 8)) && ptrSize != 4
            ==> ReadPtr(mem, addr, ptrSize) == Some(v)
    ensures ReadPtr(mem, addr, 4).Some? <==> CanRead(mem, addr, 4)
    ensures ptrSize != 4 ==> (ReadPtr(mem, addr, ptrSize).Some? <==> CanRead(mem, addr, 8))
  {
    Pow256Values();
    if v < 0x1_0000_0000 {
      UnsignedRoundTrip(v, 4);
    }
    UnsignedRoundTrip(v, 8);
    hide LittleEndian, FromLittleEndian, Pow256, ReadInto;
  }
}
