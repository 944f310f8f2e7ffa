/** The decoder recovers every field the encoder packed: operand, registers, displacement, immediate. */
module X86RoundTrip {
  import opened Wrappers
  import opened Bytes
  import E = X86Encoder
  import D = X86Decoder

  /** The addressing form a source memory operand denotes; without an index the scale is irrelevant. */
  function PlaceOfMem(m: E.Mem): D.Place {
    D.Based(m.base, m.index, if m.index.Some? then m.scale else 1, m.disp)
  }

  function PlaceOf(rm: E.Rm): D.Place {
    match rm
    case Reg(n) => D.Direct(n)
    case AtMem(m) => PlaceOfMem(m)
  }

  /** The REX prefix the encoder emits, as the decoder sees it. */
  function RexSeen(w: bool, r: nat, x: nat, b: nat): D.Rex {
    D.Rex(w || r != 0 || x != 0 || b != 0, w, r, x, b)
  }

  lemma TakeSignedOfEncoded(v: int, width: nat, suffix: seq<byte>)
    requires -(Pow256(width) as int) <= 2 * v < Pow256(width)
    ensures D.TakeSigned(LittleEndian(v, width) + suffix, width) == Some((v, suffix))
  {
    var b := LittleEndian(v, width);
    assert (b + suffix)[..width] == b && (b + suffix)[width..] == suffix;
    SignedRoundTrip(v, width);
  }

  lemma TakeUnsignedOfEncoded(v: int, width: nat, suffix: seq<byte>)
    ensures D.TakeUnsigned(LittleEndian(v, width) + suffix, width) == Some((v % Pow256(width), suffix))
  {
    var b := LittleEndian(v, width);
    assert (b + suffix)[..width] == b && (b + suffix)[width..] == suffix;
    LittleEndianRoundTrip(v, width);
  }

  lemma DispRoundTrip(disp: i64, baseLow: nat, suffix: seq<byte>)
    requires E.EncodeDisp(disp, baseLow).Ok?
    ensures var (mode, bytes) := E.EncodeDisp(disp, baseLow).value;
            D.TakeSigned(bytes + suffix, D.DispWidth(mode)) == Some((disp, suffix))
  {
    Pow256Values();
    var (mode, bytes) := E.EncodeDisp(disp, baseLow).value;
    if mode == 0 {
      assert Pow256(0) == 1;
      assert LittleEndian(0, 0) == [];
      TakeSignedOfEncoded(0, 0, suffix);
    } else if mode == 1 {
      TakeSignedOfEncoded(disp, 1, suffix);
    } else {
      TakeSignedOfEncoded(disp, 4, suffix);
    }
  }

  /** Unpacking what `PackFields` packed. */
  lemma UnpackFields(hi: nat, mid: nat, lo: nat)
    requires hi < 4 && mid < 8 && lo < 8
    ensures var b := E.PackFields(hi, mid, lo); b / 64 == hi && b / 8 % 8 == mid && b % 8 == lo
  {
    var b := E.PackFields(hi, mid, lo);
    assert b == 8 * (8 * hi + mid) + lo;
    assert b / 8 == 8 * hi + mid;
  }

  /** The no-base and RIP-relative encodings are never produced. */
  lemma EncodeMemAvoidsSpecialForms(m: E.Mem)
    requires E.EncodeMem(m).Ok?
    ensures var e := E.EncodeMem(m).value;
            && e.mode < 3
            && (e.rmField == 4 <==> e.sib.Some?)
            && !(e.mode == 0 && e.rmField == 5)
            && (e.sib.Some? && e.mode == 0 ==> e.sib.value % 8 != 5)
  {
    var (mode, disp) := E.EncodeDisp(m.disp, m.base % 8).value;
    if m.index.Some? || m.base % 8 == 4 {
      var (indexField, rexX) := E.IndexField(m.index).value;
      UnpackFields(E.ScaleBits(m.scale).value, indexField, m.base % 8);
    }
  }

  lemma ScaleRoundTrip(scale: byte)
    requires E.ScaleBits(scale).Ok?
    ensures var k := E.ScaleBits(scale).value;
            k < 4 && scale == if k == 0 then 1 else if k == 1 then 2 else if k == 2 then 4 else 8
  {}

  lemma SibRoundTrip(m: E.Mem, rex: D.Rex, suffix: seq<byte>)
    requires m.index.Some? || m.base % 8 == 4
    requires E.EncodeMem(m).Ok?
    requires rex.x == E.IndexField(m.index).value.1 && rex.b == m.base / 8
    ensures var (mode, disp) := E.EncodeDisp(m.disp, m.base % 8).value;
            var sib := E.PackFields(E.ScaleBits(m.scale).value, E.IndexField(m.index).value.0, m.base % 8);
            D.DecodeSib(mode, rex, [sib] + (disp + suffix)) == Some((PlaceOfMem(m), suffix))
  {
    var (mode, disp) := E.EncodeDisp(m.disp, m.base % 8).value;
    var (indexField, rexX) := E.IndexField(m.index).value;
    var scale := E.ScaleBits(m.scale).value;
    var sib := E.PackFields(scale, indexField, m.base % 8);
    ScaleRoundTrip(m.scale);
    UnpackFields(scale, indexField, m.base % 8);
    DispRoundTrip(m.disp, m.base % 8, suffix);
    assert ([sib] + (disp + suffix))[1..] == disp + suffix;
  }

  /** Memory operand preservation: base, index, scale and displacement come back. */
  lemma MemRoundTrip(m: E.Mem, rex: D.Rex, suffix: seq<byte>)
    requires E.EncodeMem(m).Ok?
    requires rex.x == E.EncodeMem(m).value.rexX && rex.b == E.EncodeMem(m).value.rexB
    ensures var e := E.EncodeMem(m).value;
            D.DecodeMemory(e.mode, e.rmField, rex, E.SibBytes(e.sib) + e.disp + suffix) == Some((PlaceOfMem(m), suffix))
  {
    hide D.DecodeSib, D.TakeSigned, E.EncodeDisp, E.IndexField, E.ScaleBits, LittleEndian;
    var e := E.EncodeMem(m).value;
    EncodeMemAvoidsSpecialForms(m);
    if m.index.Some? || m.base % 8 == 4 {
      SibRoundTrip(m, rex, suffix);
      assert E.SibBytes(e.sib) + e.disp + suffix == [e.sib.value] + (e.disp + suffix);
    } else {
      DispRoundTrip(m.disp, m.base % 8, suffix);
      assert E.SibBytes(e.sib) + e.disp + suffix == e.disp + suffix;
    }
  }

  /** ModRM, SIB and displacement together. */
  lemma RmRoundTrip(reg: RegNum, rm: E.Rm, w: bool, suffix: seq<byte>)
    requires E.EncodeRm(rm).Ok?
    ensures var e := E.EncodeRm(rm).value;
            D.DecodeModRm(RexSeen(w, reg / 8, e.rexX, e.rexB),
                          [E.PackFields(e.mode, reg % 8, e.rmField)] + e.tail + suffix)
            == Some((reg, PlaceOf(rm), suffix))
  {
    var e := E.EncodeRm(rm).value;
    var s := [E.PackFields(e.mode, reg % 8, e.rmField)] + e.tail + suffix;
    var rex := RexSeen(w, reg / 8, e.rexX, e.rexB);
    UnpackFields(e.mode, reg % 8, e.rmField);
    assert s[1..] == e.tail + suffix;
    match rm
    case Reg(n) => assert s[1..] == suffix;
    case AtMem(m) => MemRoundTrip(m, rex, suffix);
  }

  /** One-byte opcodes that start neither a prefix nor the two-byte map. */
  predicate IsOpcode(b: byte) { b !in {0x66, 0xF2, 0xF3, 0x0F} && !(0x40 <= b < 0x50) }

  lemma SplitRexOfEncoded(w: bool, r: nat, x: nat, b: nat, rest: seq<byte>)
    requires r < 2 && x < 2 && b < 2
    requires rest != [] && !(0x40 <= rest[0] < 0x50)
    ensures D.SplitRex(E.RexBytes(w, r, x, b) + rest) == (RexSeen(w, r, x, b), rest)
  {
    var s := E.RexBytes(w, r, x, b) + rest;
    if E.RexBytes(w, r, x, b) == [] {
      assert s == rest;
    } else {
      assert s[1..] == rest;
    }
  }

  /** Prefix, REX and a one-byte opcode are split off exactly. */
  lemma DecodeHead(prefix: Option<byte>, w: bool, r: nat, x: nat, b: nat, rest: seq<byte>)
    requires r < 2 && x < 2 && b < 2
    requires prefix.Some? ==> prefix.value in {0x66, 0xF2, 0xF3}
    requires rest != [] && !(0x40 <= rest[0] < 0x50) && rest[0] !in {0x66, 0xF2, 0xF3}
    ensures var s := E.PrefixBytes(prefix) + (E.RexBytes(w, r, x, b) + rest);
            D.SplitPrefix(s).0 == prefix && D.SplitRex(D.SplitPrefix(s).1) == (RexSeen(w, r, x, b), rest)
  {
    var tail := E.RexBytes(w, r, x, b) + rest;
    var s := E.PrefixBytes(prefix) + tail;
    SplitRexOfEncoded(w, r, x, b, rest);
    if prefix.Some? {
      assert s[1..] == tail;
    } else {
      assert s == tail;
    }
  }

  function OpcodeBytes(two: bool, opcode: byte): seq<byte> { if two then [0x0F, opcode] else [opcode] }

  /** What decoding must give for a form with a ModRM operand, from the opcode map alone. */
  function Interpreted(prefix: Option<byte>, rex: D.Rex, two: bool, opcode: byte, reg: RegNum, place: D.Place,
                       imm: nat, suffix: seq<byte>)
    : Option<(D.Instr, seq<byte>)>
  {
    match (if two then D.TwoByte(prefix, rex, opcode, reg, place) else D.OneByte(rex, opcode, reg, place, imm))
    case Some(i) => Some((i, suffix))
    case None => None
  }

  /** REX as seen for a register / r/m pair. */
  function RexFor(w: bool, reg: RegNum, rm: E.Rm): D.Rex
    requires E.EncodeRm(rm).Ok?
  {
    var e := E.EncodeRm(rm).value;
    RexSeen(w, reg / 8, e.rexX, e.rexB)
  }

  lemma OperandsRoundTrip(prefix: Option<byte>, w: bool, two: bool, opcode: byte, reg: RegNum, rm: E.Rm,
                          imm: i64, suffix: seq<byte>)
    requires E.EncodeRm(rm).Ok?
    ensures var e := E.EncodeRm(rm).value;
            var width := D.ImmWidth(two, opcode, reg % 8);
            D.DecodeOperands(prefix, RexFor(w, reg, rm), two, opcode,
                             [E.PackFields(e.mode, reg % 8, e.rmField)] + e.tail + (LittleEndian(imm, width) + suffix))
            == Interpreted(prefix, RexFor(w, reg, rm), two, opcode, reg, PlaceOf(rm), imm % Pow256(width), suffix)
  {
    var width := D.ImmWidth(two, opcode, reg % 8);
    RmRoundTrip(reg, rm, w, LittleEndian(imm, width) + suffix);
    TakeUnsignedOfEncoded(imm, width, suffix);
  }

  /** Every form with a ModRM operand decodes to what the opcode map says about its fields. */
  lemma FormRoundTrip(prefix: Option<byte>, w: bool, two: bool, opcode: byte, reg: RegNum, rm: E.Rm,
                      imm: i64, suffix: seq<byte>)
    requires E.ModRmBytes(w, OpcodeBytes(two, opcode), reg, rm).Ok?
    requires prefix.Some? ==> two && prefix.value in {0x66, 0xF2, 0xF3}
    requires !two ==> IsOpcode(opcode)
    requires D.HasModRm(two, opcode)
    ensures E.EncodeRm(rm).Ok?
    ensures var width := D.ImmWidth(two, opcode, reg % 8);
            D.Decode(E.PrefixBytes(prefix) + E.ModRmBytes(w, OpcodeBytes(two, opcode), reg, rm).value
                     + LittleEndian(imm, width) + suffix)
            == Interpreted(prefix, RexFor(w, reg, rm), two, opcode, reg, PlaceOf(rm), imm % Pow256(width), suffix)
  {
    hide D.Decode, Interpreted, LittleEndian;
    var e := E.EncodeRm(rm).value;
    var rex := E.RexBytes(w, reg / 8, e.rexX, e.rexB);
    var imms := LittleEndian(imm, D.ImmWidth(two, opcode, reg % 8));
    var modRm := E.PackFields(e.mode, reg % 8, e.rmField);
    var operands := [modRm] + e.tail + (imms + suffix);
    assert E.PrefixBytes(prefix) + E.ModRmBytes(w, OpcodeBytes(two, opcode), reg, rm).value + imms + suffix
           == E.PrefixBytes(prefix) + (rex + (OpcodeBytes(two, opcode) + operands));
    hide E.PrefixBytes, OpcodeBytes, D.DecodeOperands, E.PackFields;
    DecodesOperands(prefix, w, reg / 8, e.rexX, e.rexB, two, opcode, operands);
    OperandsRoundTrip(prefix, w, two, opcode, reg, rm, imm, suffix);
  }

  /** Prefix, REX and opcode decode to themselves; what follows is read as operands. */
  lemma DecodesOperands(prefix: Option<byte>, w: bool, r: nat, x: nat, b: nat, two: bool, opcode: byte,
                        operands: seq<byte>)
    requires r < 2 && x < 2 && b < 2
    requires prefix.Some? ==> two && prefix.value in {0x66, 0xF2, 0xF3}
    requires !two ==> IsOpcode(opcode)
    requires D.HasModRm(two, opcode)
    ensures D.Decode(E.PrefixBytes(prefix) + (E.RexBytes(w, r, x, b) + (OpcodeBytes(two, opcode) + operands)))
            == D.DecodeOperands(prefix, RexSeen(w, r, x, b), two, opcode, operands)
  {
    var rest := OpcodeBytes(two, opcode) + operands;
    DecodeHead(prefix, w, r, x, b, rest);
    assert two ==> rest[2..] == operands;
    assert !two ==> rest[1..] == operands;
    hide E.PrefixBytes, E.RexBytes, D.DecodeOperands, D.SplitPrefix, D.SplitRex;
    assert D.SplitOpcode(rest) == Some((two, opcode, operands));
  }

  // ----- Per form -----

  lemma RmRRoundTrip(opcode: byte, w: bool, reg: RegNum, rm: E.Rm, imm: i64, suffix: seq<byte>)
    requires E.Encoding(E.RmR(opcode, w, reg, rm), imm).Ok?
    requires IsOpcode(opcode) && D.HasModRm(false, opcode) && D.ImmWidth(false, opcode, reg % 8) == 0
    ensures E.EncodeRm(rm).Ok?
    ensures D.Decode(E.Encoding(E.RmR(opcode, w, reg, rm), imm).value + suffix)
            == Interpreted(None, RexFor(w, reg, rm), false, opcode, reg, PlaceOf(rm), 0, suffix)
  {
    hide D.Decode, Interpreted;
    FormRoundTrip(None, w, false, opcode, reg, rm, 0, suffix);
    var bytes := E.ModRmBytes(w, [opcode], reg, rm).value;
    assert [] + bytes + [] + suffix == bytes + suffix;
  }

  lemma RmIRoundTrip(opcode: byte, digit: E.Digit, w: bool, rm: E.Rm, width: nat, imm: i64, suffix: seq<byte>)
    requires E.Encoding(E.RmI(opcode, digit, w, rm, width), imm).Ok?
    requires IsOpcode(opcode) && D.HasModRm(false, opcode) && D.ImmWidth(false, opcode, digit) == width
    ensures E.EncodeRm(rm).Ok?
    ensures D.Decode(E.Encoding(E.RmI(opcode, digit, w, rm, width), imm).value + suffix)
            == Interpreted(None, RexFor(w, digit, rm), false, opcode, digit, PlaceOf(rm), imm % Pow256(width), suffix)
  {
    var bytes := E.ModRmBytes(w, [opcode], digit, rm).value;
    var imms := LittleEndian(imm, width);
    assert E.Encoding(E.RmI(opcode, digit, w, rm, width), imm).value + suffix == [] + bytes + imms + suffix by {
      ImmBytesAreLittleEndian(imm, width);
      assert (bytes + imms) + suffix == [] + bytes + imms + suffix;
    }
    hide D.Decode, Interpreted;
    FormRoundTrip(None, w, false, opcode, digit, rm, imm, suffix);
  }

  lemma ImmBytesAreLittleEndian(imm: i64, width: nat)
    requires E.ImmBytes(imm, width).Ok?
    ensures E.ImmBytes(imm, width) == Ok(LittleEndian(imm, width))
  {}

  lemma SseRoundTrip(prefix: Option<byte>, opcode: byte, w: bool, reg: RegNum, rm: E.Rm, imm: i64, suffix: seq<byte>)
    requires E.Encoding(E.Sse(prefix, opcode, w, reg, rm), imm).Ok?
    requires prefix.Some? ==> prefix.value in {0x66, 0xF2, 0xF3}
    requires !(0x80 <= opcode < 0x90)
    ensures E.EncodeRm(rm).Ok?
    ensures D.Decode(E.Encoding(E.Sse(prefix, opcode, w, reg, rm), imm).value + suffix)
            == Interpreted(prefix, RexFor(w, reg, rm), true, opcode, reg, PlaceOf(rm), 0, suffix)
  {
    hide D.Decode, Interpreted;
    FormRoundTrip(prefix, w, true, opcode, reg, rm, 0, suffix);
    var bytes := E.ModRmBytes(w, [0x0F, opcode], reg, rm).value;
    assert E.PrefixBytes(prefix) + bytes + [] + suffix == (E.PrefixBytes(prefix) + bytes) + suffix;
  }

  /** An opcode without a ModRM byte is read by the opcode map alone. */
  lemma DecodesPlain(w: bool, b: nat, opcode: byte, rest: seq<byte>)
    requires b < 2 && IsOpcode(opcode) && !D.HasModRm(false, opcode)
    ensures D.Decode(E.RexBytes(w, 0, 0, b) + ([opcode] + rest))
            == D.DecodePlain(RexSeen(w, 0, 0, b), false, opcode, rest)
  {
    var s := [opcode] + rest;
    DecodeHead(None, w, 0, 0, b, s);
    assert E.PrefixBytes(None) + (E.RexBytes(w, 0, 0, b) + s) == E.RexBytes(w, 0, 0, b) + s;
    assert s[1..] == rest;
    hide E.PrefixBytes, E.RexBytes, D.DecodePlain, D.SplitPrefix, D.SplitRex;
    assert D.SplitOpcode(s) == Some((false, opcode, rest));
  }

  /** mov r, imm: the whole 4- or 8-byte immediate comes back. */
  lemma MovRIRoundTrip(dst: E.GReg, imm: i64, suffix: seq<byte>)
    requires E.Encoding(E.MovRI(dst), imm).Ok?
    ensures D.Decode(E.Encoding(E.MovRI(dst), imm).value + suffix)
            == Some((D.I2(D.Mov, D.Gpr(dst.num, dst.size), D.Const(imm % Pow256(dst.size))), suffix))
  {
    hide D.Decode, LittleEndian;
    var rex := E.RexBytes(dst.size == 8, 0, 0, dst.num / 8);
    var imms := LittleEndian(imm, dst.size);
    assert E.Encoding(E.MovRI(dst), imm).value + suffix == rex + ([0xB8 + dst.num % 8] + (imms + suffix));
    DecodesPlain(dst.size == 8, dst.num / 8, 0xB8 + dst.num % 8, imms + suffix);
    TakeUnsignedOfEncoded(imm, dst.size, suffix);
    hide E.RexBytes, E.Encoding, D.TakeUnsigned, Pow256;
  }

  lemma PushPopRoundTrip(num: RegNum, imm: i64, suffix: seq<byte>)
    ensures D.Decode(E.Encoding(E.Push(num), imm).value + suffix) == Some((D.I1(D.Push, D.Gpr(num, 8)), suffix))
    ensures D.Decode(E.Encoding(E.Pop(num), imm).value + suffix) == Some((D.I1(D.Pop, D.Gpr(num, 8)), suffix))
  {
    hide D.Decode;
    var rex := E.RexBytes(false, 0, 0, num / 8);
    assert E.Encoding(E.Push(num), imm).value + suffix == rex + ([0x50 + num % 8] + suffix);
    assert E.Encoding(E.Pop(num), imm).value + suffix == rex + ([0x58 + num % 8] + suffix);
    DecodesPlain(false, num / 8, 0x50 + num % 8, suffix);
    DecodesPlain(false, num / 8, 0x58 + num % 8, suffix);
  }
}
