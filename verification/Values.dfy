/** Scan value types, their little-endian integers, and what is left of an integer that passes through an f64. */
module Values {
  import opened Wrappers
  import opened Bytes

  datatype ValueType = I8 | I16 | I32 | I64 | U8 | U16 | U32 | U64 | F32 | F64 | StringUtf8 | StringUtf16 {
    predicate IsFloat() { F32? || F64? }
    predicate IsString() { StringUtf8? || StringUtf16? }
    predicate IsSigned() { I8? || I16? || I32? || I64? }

    /** Fixed size in bytes; 0 for strings. */
    function Size(): nat {
      match this
      case I8 | U8 => 1
      case I16 | U16 => 2
      case I32 | U32 | F32 => 4
      case I64 | U64 | F64 => 8
      case StringUtf8 | StringUtf16 => 0
    }

    /** `read_i128`: the exact integer; None for floats, strings and short input. */
    function ReadInt(bytes: seq<byte>): Option<int> {
      if IsFloat() || IsString() || |bytes| < Size() then None
      else Some(if IsSigned() then SignedLittleEndian(bytes[..Size()]) else FromLittleEndian(bytes[..Size()]))
    }

    /** `read_f64`, the value kept as `last` of a match. */
    function ReadF64(bytes: seq<byte>): Option<Last> {
      if IsString() || |bytes| < Size() then None
      else if IsFloat() then Some(FloatBits(bytes[..Size()]))
      else Some(Integral(RoundF64(ReadInt(bytes).value)))
    }
  }

  /** An f64: not a number, the f64 of an integer (an integer itself), or one decoded from float bytes. */
  datatype Last = NotANumber | Integral(value: int) | FloatBits(bits: seq<byte>)

  // ----- int as f64 -----

  const TWO53: int := 0x20_0000_0000_0000

  function Pow2(e: nat): (p: nat)
    ensures p >= 1
  {
    if e == 0 then 1 else 2 * Pow2(e - 1)
  }

  /** Number of low bits that do not fit a 53-bit significand. */
  function Excess(n: nat): (e: nat)
    ensures n < TWO53 ==> e == 0
  {
    if n < TWO53 then 0 else 1 + Excess(n / 2)
  }

  /** Rounds to the nearest multiple of `unit`, ties to the even one. */
  function RoundTo(n: nat, unit: nat): nat
    requires unit >= 1
  {
    var q, r := n / unit, n % unit;
    if 2 * r < unit || (2 * r == unit && q % 2 == 0) then q * unit else (q + 1) * unit
  }

  function RoundNat(n: nat): nat { RoundTo(n, Pow2(Excess(n))) }

  /** `v as f64`, round to nearest even (IEEE 754). */
  function RoundF64(v: int): int { if v >= 0 then RoundNat(v) else -(RoundNat(-v) as int) }

  /** The integers an f64 holds exactly: nothing is left of the bits below the significand. */
  predicate Representable(v: int) {
    var n := Magnitude(v);
    n % Pow2(Excess(n)) == 0
  }

  /** Rounding leaves a value alone exactly when it is representable. */
  lemma RoundExactIffRepresentable(v: int)
    ensures RoundF64(v) == v <==> Representable(v)
  {
    var n := Magnitude(v);
    RoundToExact(n, Pow2(Excess(n)));
    hide RoundTo, Excess, Pow2;
  }

  lemma RoundToExact(n: nat, unit: nat)
    requires unit >= 1
    ensures RoundTo(n, unit) == n <==> n % unit == 0
  {
    var q, r := n / unit, n % unit;
    assert n == q * unit + r;
    assert (q + 1) * unit == q * unit + unit;
  }

  /** Everything up to 2^53 in magnitude is representable. */
  lemma SmallIsRepresentable(v: int)
    requires -TWO53 <= v <= TWO53
    ensures Representable(v)
  {
    var n := Magnitude(v);
    if n == TWO53 {
      assert Excess(n) == 1 + Excess(n / 2) == 1;
      assert Pow2(1) == 2 * Pow2(0) == 2;
    } else {
      assert Pow2(0) == 1;
    }
  }

  function Magnitude(v: int): nat { if v >= 0 then v else -v }

  function Times(q: nat, unit: nat): nat { q * unit }

  /** A multiple of the unit in the last place, at least as near as every other one, and the even one when
      another is equally near. */
  ghost predicate IsNearestEven(n: nat, unit: nat, r: nat) {
    exists q: nat :: r == Times(q, unit) && BeatsAll(n, unit, q)
  }

  ghost predicate BeatsAll(n: nat, unit: nat, q: nat) { forall k: nat :: Beats(n, unit, q, Times(k, unit)) }

  predicate Beats(n: nat, unit: nat, q: nat, other: nat) {
    var mine, others := Magnitude(n - Times(q, unit)), Magnitude(n - other);
    mine < others || (mine == others && (other == Times(q, unit) || q % 2 == 0))
  }

  /** The rounding is to nearest, ties to even. */
  lemma RoundIsNearestEven(n: nat)
    ensures IsNearestEven(n, Pow2(Excess(n)), RoundNat(n))
  {
    hide Times, Beats, RoundNat, Pow2, Excess;
    RoundIsNear(n);
    var unit := Pow2(Excess(n));
    var q, r := n / unit, n % unit;
    var near := if 2 * r < unit || (2 * r == unit && q % 2 == 0) then q else q + 1;
    assert r < unit;
    NearBeatsAll(n, unit, q, r, near);
  }

  lemma NearBeatsAll(n: nat, unit: nat, q: nat, r: nat, near: nat)
    requires n == Times(q, unit) + r && r < unit
    requires near == if 2 * r < unit || (2 * r == unit && q % 2 == 0) then q else q + 1
    ensures BeatsAll(n, unit, near)
  {
    hide Times, Beats;
    forall k: nat ensures Beats(n, unit, near, Times(k, unit)) {
      NearBeats(n, unit, q, r, near, k);
    }
  }

  lemma RoundIsNear(n: nat)
    ensures var unit := Pow2(Excess(n));
            var q, r := n / unit, n % unit;
            && RoundNat(n) == Times(if 2 * r < unit || (2 * r == unit && q % 2 == 0) then q else q + 1, unit)
            && n == Times(q, unit) + r
  {
    hide Pow2, Excess;
    var unit := Pow2(Excess(n));
    assert n == unit * (n / unit) + n % unit;
  }

  lemma NearBeats(n: nat, unit: nat, q: nat, r: nat, near: nat, k: nat)
    requires n == Times(q, unit) + r && r < unit
    requires near == if 2 * r < unit || (2 * r == unit && q % 2 == 0) then q else q + 1
    ensures Beats(n, unit, near, Times(k, unit))
  {
    hide Times;
    MultiplesAway(unit, q, k);
    MultiplesAway(unit, q, q + 1);
  }

  /** Multiples other than two neighbours lie at least a unit beyond them. */
  lemma MultiplesAway(unit: nat, q: nat, k: nat)
    requires unit >= 1
    ensures k < q ==> Times(k, unit) + unit <= Times(q, unit)
    ensures k == q + 1 ==> Times(k, unit) == Times(q, unit) + unit
    ensures k > q + 1 ==> Times(k, unit) >= Times(q, unit) + 2 * unit
  {
    if k < q {
      TimesAdd(k, q - k, unit);
    } else if k > q {
      TimesAdd(q, k - q, unit);
      if k > q + 1 {
        TimesAdd(1, k - q - 1, unit);
      }
    }
  }

  lemma TimesAdd(a: nat, b: nat, unit: nat)
    ensures Times(a + b, unit) == Times(a, unit) + Times(b, unit) && (b >= 1 ==> Times(b, unit) >= unit)
            && Times(1, unit) == unit
  {
    assert b >= 1 ==> b * unit == unit + (b - 1) * unit;
  }

  /** The representable integers are those of the form significand times a power of two, with a significand
      of at most 53 bits. */
  lemma RepresentableIsScaled(v: int)
    ensures Representable(v) <==> exists m: nat, e: nat :: m < TWO53 && Magnitude(v) == Times(m, Pow2(e))
  {
    var n := Magnitude(v);
    var unit := Pow2(Excess(n));
    if Representable(v) {
      SignificandFits(n);
      assert n == Times(n / unit, Pow2(Excess(n)));
    }
    if m: nat, e: nat :| m < TWO53 && n == Times(m, Pow2(e)) {
      ScaledHasFewBits(m, e);
      PowersDivide(m, Excess(n), e);
      DivisionIsUnique(n, unit, m * Pow2(e - Excess(n)), 0);
    }
  }

  lemma {:induction false} ScaledHasFewBits(m: nat, e: nat)
    requires m < TWO53
    ensures Excess(m * Pow2(e)) <= e
  {
    if e > 0 && m * Pow2(e) >= TWO53 {
      assert m * Pow2(e) == 2 * (m * Pow2(e - 1));
      ScaledHasFewBits(m, e - 1);
    }
  }

  lemma {:induction false} PowersDivide(m: nat, a: nat, e: nat)
    requires a <= e
    ensures m * Pow2(e) == Pow2(a) * (m * Pow2(e - a))
  {
    if a > 0 {
      PowersDivide(m, a - 1, e - 1);
      DoubledProducts(m, Pow2(e - 1), Pow2(a - 1), m * Pow2(e - a));
    }
  }

  lemma DoubledProducts(m: nat, p: nat, q: nat, r: nat)
    requires m * p == q * r
    ensures m * (2 * p) == (2 * q) * r
  {
    assert m * (2 * p) == 2 * (m * p) && (2 * q) * r == 2 * (q * r);
  }

  /** The significand has at most 53 bits. */
  lemma {:induction false} SignificandFits(n: nat)
    ensures n / Pow2(Excess(n)) < TWO53
  {
    if n >= TWO53 {
      SignificandFits(n / 2);
      var p := Pow2(Excess(n / 2));
      HalfThenDivide(n, p);
    }
  }

  lemma HalfThenDivide(n: nat, p: nat)
    requires p >= 1
    ensures n / (2 * p) == (n / 2) / p
  {
    var a, b := (n / 2) / p, (n / 2) % p;
    assert n / 2 == p * a + b;
    assert n == (2 * p) * a + (2 * b + n % 2);
    DivisionIsUnique(n, 2 * p, a, 2 * b + n % 2);
  }

  // ----- Comparisons -----

  datatype ScanKind = Exact | BiggerThan | SmallerThan | Between | Changed | Unchanged | Increased | Decreased

  /** Kind and integer bounds. Float bounds live in `Floats`. */
  datatype ScanCmp = ScanCmp(kind: ScanKind, t1: int, t2: int)

  /** Float comparison, kept abstract: current bytes against the bounds or the previous value. */
  type Floats = (ValueType, ScanKind, seq<byte>, Last) -> bool

  /** The integer comparison shared by both comparison functions; p is the previous value. */
  predicate HoldsInt(c: ScanCmp, v: int, p: int) {
    match c.kind
    case Exact => v == c.t1
    case BiggerThan => v > c.t1
    case SmallerThan => v < c.t1
    case Between => c.t1 <= v <= c.t2
    case Changed => v != p
    case Unchanged => v == p
    case Increased => v > p
    case Decreased => v < p
  }

  /** `prev as i128`: NaN becomes 0. Integer matches only ever keep `Integral` values. */
  function PreviousInt(prev: Last): int { if prev.Integral? then prev.value else 0 }

  /** `compare`: the previous value is whatever f64 was kept. */
  function Compare(floats: Floats, vt: ValueType, c: ScanCmp, cur: seq<byte>, prev: Last): Option<bool> {
    if vt.IsFloat() then
      if |cur| < vt.Size() then None else Some(floats(vt, c.kind, cur[..vt.Size()], prev))
    else
      var v :- vt.ReadInt(cur);
      Some(HoldsInt(c, v, PreviousInt(prev)))
  }

  /** `compare_pair`: the previous value is read from the old bytes. */
  function ComparePair(floats: Floats, vt: ValueType, c: ScanCmp, was: seq<byte>, cur: seq<byte>): Option<bool> {
    if vt.IsFloat() then
      if |cur| < vt.Size() || |was| < vt.Size() then None
      else Some(floats(vt, c.kind, cur[..vt.Size()], FloatBits(was[..vt.Size()])))
    else
      var v :- vt.ReadInt(cur);
      var p :- vt.ReadInt(was);
      Some(HoldsInt(c, v, p))
  }

  /** On integers the two comparisons agree, for every kind and every current value, exactly when the old
      value is representable; what `compare` really compares with is the rounded old value. */
  lemma CompareAgreesWithPair(floats: Floats, vt: ValueType, was: seq<byte>)
    requires !vt.IsFloat() && !vt.IsString() && |was| == vt.Size()
    ensures Representable(vt.ReadInt(was).value) <==>
              forall c: ScanCmp, cur: seq<byte> | |cur| == vt.Size() ::
                Compare(floats, vt, c, cur, vt.ReadF64(was).value) == ComparePair(floats, vt, c, was, cur)
  {
    var p := vt.ReadInt(was).value;
    RoundExactIffRepresentable(p);
    if !Representable(p) {
      var c := ScanCmp(Unchanged, 0, 0);
      assert Compare(floats, vt, c, was, vt.ReadF64(was).value) != ComparePair(floats, vt, c, was, was);
    }
  }

  /** An unchanged value survives an `Unchanged` next scan exactly when it is representable. */
  lemma UnchangedKeepsIffRepresentable(floats: Floats, vt: ValueType, bytes: seq<byte>)
    requires !vt.IsFloat() && !vt.IsString() && |bytes| == vt.Size()
    ensures Compare(floats, vt, ScanCmp(Unchanged, 0, 0), bytes, vt.ReadF64(bytes).value) == Some(true)
            <==> Representable(vt.ReadInt(bytes).value)
  {
    RoundExactIffRepresentable(vt.ReadInt(bytes).value);
  }

  /** 2^53 + 1 does not survive the round trip. */
  lemma TwoTo53Plus1IsRounded()
    ensures RoundF64(TWO53 + 1) == TWO53 && !Representable(TWO53 + 1)
  {
    var n := TWO53 + 1;
    assert n / 2 == TWO53 / 2;
    assert Excess(n) == 1 + Excess(n / 2) == 1;
    assert Pow2(1) == 2 * Pow2(0) == 2;
  }

  /** Types of up to 4 bytes are always exact. */
  lemma NarrowTypesAreExact(vt: ValueType, bytes: seq<byte>)
    requires !vt.IsFloat() && !vt.IsString() && vt.Size() <= 4 && |bytes| == vt.Size()
    ensures Representable(vt.ReadInt(bytes).value)
  {
    Pow256Values();
    assert bytes[..vt.Size()] == bytes;
    SmallIsRepresentable(vt.ReadInt(bytes).value);
  }
}
