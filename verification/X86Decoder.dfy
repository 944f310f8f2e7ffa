/**
 A reference decoder for the 64-bit instruction subset, written from the Intel 64 and IA-32 Software
 Developer's Manual, volume 2: instruction format and REX (2.1, 2.2.1), ModRM and SIB addressing
 (2.1.3, 2.1.5, 2.2.1.6) and the opcode map. It shares nothing with the encoder but byte arithmetic.
 */
module X86Decoder {
  import opened Wrappers
  import opened Bytes

  datatype Rex = Rex(present: bool, w: bool, r: nat, x: nat, b: nat)
  const NO_REX := Rex(false, false, 0, 0, 0)

  /** A ModRM operand: a register, or one of the addressing forms. */
  datatype Place =
    | Direct(num: RegNum)
    | Based(base: RegNum, index: Option<RegNum>, scale: nat, disp: int)
    | Baseless(index: Option<RegNum>, scale: nat, disp: int)
    | RipRelative(disp: int)

  datatype AluOp = Add | Or | Adc | Sbb | And | Sub | Xor | Cmp
  datatype UnaryOp = Inc | Dec | Not | Neg
  datatype ShiftOp = Rol | Ror | Rcl | Rcr | Shl | Shr | Sar
  datatype SseOp =
    | Movss | Movsd | Movups | Movupd | Movaps | Movapd
    | Addss | Subss | Mulss | Divss | Addsd | Subsd | Mulsd | Divsd
    | Addps | Subps | Mulps | Divps | Addpd | Subpd | Mulpd | Divpd
    | Xorps | Xorpd | Cvtsi2ss | Cvtsi2sd | Cvttss2si | Cvttsd2si
  datatype ZeroOp = RetOp | NopOp | Int3Op | LeaveOp | CdqOp | CqoOp

  datatype Operand =
    | Gpr(num: RegNum, size: nat)
    | HighByte(high: nat)               // ah, ch, dh, bh
    | XmmReg(num: RegNum)
    | Memory(place: Place, size: nat)   // size 0: only the address is used
    | Const(value: nat)                 // an immediate, already extended to the operand size
    | Relative(disp: int)               // branch displacement from the end of the instruction

  datatype Mnemonic =
    | Mov | Lea | Test | Push | Pop | Imul | Xchg | Movzx | Movsx | Movd | Movq
    | Zero(zero: ZeroOp) | Unary(unary: UnaryOp) | Shift(shift: ShiftOp) | Alu(alu: AluOp) | Sse(sse: SseOp)
    | Jmp | Call | Jcc(cc: nat)

  datatype Instr = I0(mnem: Mnemonic) | I1(mnem: Mnemonic, op: Operand) | I2(mnem: Mnemonic, dst: Operand, src: Operand)

  // ----- Prefixes and opcode -----

  function SplitPrefix(s: seq<byte>): (Option<byte>, seq<byte>) {
    if s != [] && s[0] in {0x66, 0xF2, 0xF3} then (Some(s[0]), s[1..]) else (None, s)
  }

  function RexOf(b: byte): Rex
    requires 0x40 <= b < 0x50
  {
    Rex(true, b / 8 % 2 == 1, b / 4 % 2, b / 2 % 2, b % 2)
  }

  function SplitRex(s: seq<byte>): (r: (Rex, seq<byte>))
    ensures r.0.r < 2 && r.0.x < 2 && r.0.b < 2
  {
    if s != [] && 0x40 <= s[0] < 0x50 then (RexOf(s[0]), s[1..]) else (NO_REX, s)
  }

  /** The opcode map (true: two-byte 0F map), the opcode byte and what follows. */
  function SplitOpcode(s: seq<byte>): Option<(bool, byte, seq<byte>)> {
    if s == [] then None
    else if s[0] != 0x0F then Some((false, s[0], s[1..]))
    else if |s| < 2 then None
    else Some((true, s[1], s[2..]))
  }

  // ----- ModRM, SIB, displacement, immediate -----

  function TakeSigned(s: seq<byte>, width: nat): (r: Option<(int, seq<byte>)>)
    ensures r.Some? ==> |r.value.1| + width == |s|
  {
    if |s| < width then None else Some((SignedLittleEndian(s[..width]), s[width..]))
  }

  function TakeUnsigned(s: seq<byte>, width: nat): (r: Option<(nat, seq<byte>)>)
    ensures r.Some? ==> |r.value.1| + width == |s|
  {
    if |s| < width then None else Some((FromLittleEndian(s[..width]), s[width..]))
  }

  function DispWidth(mode: nat): nat {
    if mode == 1 then 1 else if mode == 2 then 4 else 0
  }

  /** Memory operand with a SIB byte (r/m field 100). */
  function DecodeSib(mode: nat, rex: Rex, s: seq<byte>): (r: Option<(Place, seq<byte>)>)
    requires mode < 3 && rex.x < 2 && rex.b < 2
    ensures r.Some? ==> |r.value.1| < |s|
  {
    if s == [] then None else
    var scale := if s[0] / 64 == 0 then 1 else if s[0] / 64 == 1 then 2 else if s[0] / 64 == 2 then 4 else 8;
    var indexNum := s[0] / 8 % 8 + 8 * rex.x;
    var index := if indexNum == 4 then None else Some(indexNum);
    var factor := if indexNum == 4 then 1 else scale;
    if s[0] % 8 == 5 && mode == 0 then
      var (disp, rest) :- TakeSigned(s[1..], 4);
      Some((Baseless(index, factor, disp), rest))
    else
      var (disp, rest) :- TakeSigned(s[1..], DispWidth(mode));
      Some((Based(s[0] % 8 + 8 * rex.b, index, factor, disp), rest))
  }

  function DecodeMemory(mode: nat, rmField: nat, rex: Rex, s: seq<byte>): (r: Option<(Place, seq<byte>)>)
    requires mode < 3 && rmField < 8 && rex.x < 2 && rex.b < 2
    ensures r.Some? ==> |r.value.1| <= |s|
  {
    if rmField == 4 then DecodeSib(mode, rex, s)
    else if rmField == 5 && mode == 0 then
      var (disp, rest) :- TakeSigned(s, 4);
      Some((RipRelative(disp), rest))
    else
      var (disp, rest) :- TakeSigned(s, DispWidth(mode));
      Some((Based(rmField + 8 * rex.b, None, 1, disp), rest))
  }

  /** ModRM.reg (extended by REX.R), the r/m operand and what follows. */
  function DecodeModRm(rex: Rex, s: seq<byte>): (r: Option<(RegNum, Place, seq<byte>)>)
    requires rex.r < 2 && rex.x < 2 && rex.b < 2
    ensures r.Some? ==> |r.value.2| < |s|
  {
    if s == [] then None else
    var reg := s[0] / 8 % 8 + 8 * rex.r;
    if s[0] / 64 == 3 then Some((reg, Direct(s[0] % 8 + 8 * rex.b), s[1..]))
    else
      var (place, rest) :- DecodeMemory(s[0] / 64, s[0] % 8, rex, s[1..]);
      Some((reg, place, rest))
  }

  /** Opcodes of the subset that are followed by a ModRM byte. */
  predicate HasModRm(two: bool, opcode: byte) {
    if two then !(0x80 <= opcode < 0x90)
    else
      (opcode < 0x40 && opcode % 8 in {1, 3}) || opcode in {0x81, 0x85, 0x87, 0x89, 0x8B, 0x8D, 0xC1, 0xC7, 0xD3, 0xF7,
                                                            0xFF}
  }

  /** Bytes of immediate after the ModRM operand; in group 3 it depends on the /digit. */
  function ImmWidth(two: bool, opcode: byte, digit: nat): nat {
    if two then 0
    else if opcode == 0x81 || opcode == 0xC7 then 4
    else if opcode == 0xC1 then 1
    else if opcode == 0xF7 && digit < 2 then 4
    else 0
  }

  // ----- Opcode map -----

  function SizeOf(rex: Rex): nat { if rex.w then 8 else 4 }

  /** A 32-bit immediate as seen by an operand of the given size: sign-extended to 64 bits. */
  function Extend32(imm: nat, size: nat): nat {
    if size == 8 && imm >= 0x8000_0000 then imm + (TWO64 - TWO32) else imm
  }

  function RmGpr(place: Place, size: nat): Operand {
    if place.Direct? then Gpr(place.num, size) else Memory(place, size)
  }

  /** Without any REX prefix, byte registers 4 to 7 are ah, ch, dh and bh. */
  function RmByte(place: Place, rex: Rex): Operand {
    if place.Direct? then
      if !rex.present && 4 <= place.num < 8 then HighByte(place.num - 4) else Gpr(place.num, 1)
    else Memory(place, 1)
  }

  function RmXmm(place: Place, size: nat): Operand {
    if place.Direct? then XmmReg(place.num) else Memory(place, size)
  }

  function AluOfNumber(n: nat): AluOp
    requires n < 8
  {
    if n == 0 then Add else if n == 1 then Or else if n == 2 then Adc else if n == 3 then Sbb
    else if n == 4 then And else if n == 5 then Sub else if n == 6 then Xor else Cmp
  }

  function ShiftOfNumber(n: nat): Option<ShiftOp> {
    if n == 0 then Some(Rol) else if n == 1 then Some(Ror) else if n == 2 then Some(Rcl) else if n == 3 then Some(Rcr)
    else if n == 4 then Some(Shl) else if n == 5 then Some(Shr) else if n == 7 then Some(Sar) else None
  }

  /** One-byte opcodes with a ModRM byte. */
  function OneByte(rex: Rex, opcode: byte, reg: RegNum, place: Place, imm: nat): Option<Instr> {
    var size := SizeOf(rex);
    var digit := reg % 8;
    if opcode < 0x40 then
      if opcode % 8 == 1 then Some(I2(Alu(AluOfNumber(opcode / 8)), RmGpr(place, size), Gpr(reg, size)))
      else if opcode % 8 == 3 then Some(I2(Alu(AluOfNumber(opcode / 8)), Gpr(reg, size), RmGpr(place, size)))
      else None
    else if opcode == 0x81 then Some(I2(Alu(AluOfNumber(digit)), RmGpr(place, size), Const(Extend32(imm, size))))
    else if opcode == 0x85 then Some(I2(Test, RmGpr(place, size), Gpr(reg, size)))
    else if opcode == 0x87 then Some(I2(Xchg, RmGpr(place, size), Gpr(reg, size)))
    else if opcode == 0x89 then Some(I2(Mov, RmGpr(place, size), Gpr(reg, size)))
    else if opcode == 0x8B then Some(I2(Mov, Gpr(reg, size), RmGpr(place, size)))
    else if opcode == 0x8D then (if place.Direct? then None else Some(I2(Lea, Gpr(reg, size), Memory(place, 0))))
    else if opcode == 0xC1 then
      var op :- ShiftOfNumber(digit);
      Some(I2(Shift(op), RmGpr(place, size), Const(imm)))
    else if opcode == 0xC7 then (if digit == 0 then Some(I2(Mov, RmGpr(place, size), Const(Extend32(imm, size))))
                                 else None)
    else if opcode == 0xD3 then
      var op :- ShiftOfNumber(digit);
      Some(I2(Shift(op), RmGpr(place, size), Gpr(1, 1)))
    else if opcode == 0xF7 then
      if digit < 2 then Some(I2(Test, RmGpr(place, size), Const(Extend32(imm, size))))
      else if digit == 2 then Some(I1(Unary(Not), RmGpr(place, size)))
      else if digit == 3 then Some(I1(Unary(Neg), RmGpr(place, size)))
      else None
    else if opcode == 0xFF then
      if digit == 0 then Some(I1(Unary(Inc), RmGpr(place, size)))
      else if digit == 1 then Some(I1(Unary(Dec), RmGpr(place, size)))
      else if digit == 4 then Some(I1(Jmp, RmGpr(place, 8)))
      else None
    else None
  }

  datatype Direction = Load | Store

  /** SSE opcode map: mandatory prefix and opcode to mnemonic, and whether r/m is the destination. */
  function SseOfCode(prefix: Option<byte>, opcode: byte): Option<(SseOp, Direction)> {
    if opcode == 0x10 || opcode == 0x11 then
      var dir := if opcode == 0x10 then Load else Store;
      match prefix
      case None => Some((Movups, dir))
      case Some(p) => if p == 0x66 then Some((Movupd, dir)) else if p == 0xF3 then Some((Movss, dir))
      else Some((Movsd, dir))
    else if opcode == 0x28 || opcode == 0x29 then
      var dir := if opcode == 0x28 then Load else Store;
      match prefix
      case None => Some((Movaps, dir))
      case Some(p) => if p == 0x66 then Some((Movapd, dir)) else None
    else
      var op :- match prefix
                case None =>
                  if opcode == 0x58 then Some(Addps) else if opcode == 0x5C then Some(Subps)
                  else if opcode == 0x59 then Some(Mulps)
                  else if opcode == 0x5E then Some(Divps) else if opcode == 0x57 then Some(Xorps) else None
                case Some(p) =>
                  if p == 0x66 then
                    if opcode == 0x58 then Some(Addpd) else if opcode == 0x5C then Some(Subpd)
                    else if opcode == 0x59 then Some(Mulpd)
                    else if opcode == 0x5E then Some(Divpd) else if opcode == 0x57 then Some(Xorpd) else None
                  else if p == 0xF3 then
                    if opcode == 0x58 then Some(Addss) else if opcode == 0x5C then Some(Subss)
                    else if opcode == 0x59 then Some(Mulss)
                    else if opcode == 0x5E then Some(Divss) else if opcode == 0x2A then Some(Cvtsi2ss)
                    else if opcode == 0x2C then Some(Cvttss2si) else None
                  else
                    if opcode == 0x58 then Some(Addsd) else if opcode == 0x5C then Some(Subsd)
                    else if opcode == 0x59 then Some(Mulsd)
                    else if opcode == 0x5E then Some(Divsd) else if opcode == 0x2A then Some(Cvtsi2sd)
                    else if opcode == 0x2C then Some(Cvttsd2si) else None;
      Some((op, Load))
  }

  /** Bytes a memory operand of an SSE instruction denotes. */
  function SseMemSize(op: SseOp): nat {
    match op
    case Movss | Addss | Subss | Mulss | Divss | Cvttss2si => 4
    case Movsd | Addsd | Subsd | Mulsd | Divsd | Cvttsd2si => 8
    case _ => 16
  }

  function SseInstr(op: SseOp, dir: Direction, rex: Rex, reg: RegNum, place: Place): Instr {
    if op.Cvtsi2ss? || op.Cvtsi2sd? then I2(Sse(op), XmmReg(reg), RmGpr(place, SizeOf(rex)))
    else if op.Cvttss2si? || op.Cvttsd2si? then I2(Sse(op), Gpr(reg, SizeOf(rex)), RmXmm(place, SseMemSize(op)))
    else if dir == Load then I2(Sse(op), XmmReg(reg), RmXmm(place, SseMemSize(op)))
    else I2(Sse(op), RmXmm(place, SseMemSize(op)), XmmReg(reg))
  }

  /** Two-byte (0F) opcodes with a ModRM byte. */
  function TwoByte(prefix: Option<byte>, rex: Rex, opcode: byte, reg: RegNum, place: Place): Option<Instr> {
    var size := SizeOf(rex);
    if opcode == 0xAF && prefix == None then Some(I2(Imul, Gpr(reg, size), RmGpr(place, size)))
    else if opcode == 0xB6 && prefix == None then Some(I2(Movzx, Gpr(reg, size), RmByte(place, rex)))
    else if opcode == 0xB7 && prefix == None then Some(I2(Movzx, Gpr(reg, size), RmGpr(place, 2)))
    else if opcode == 0xBE && prefix == None then Some(I2(Movsx, Gpr(reg, size), RmByte(place, rex)))
    else if opcode == 0xBF && prefix == None then Some(I2(Movsx, Gpr(reg, size), RmGpr(place, 2)))
    else if opcode == 0x6E && prefix == Some(0x66) then
      Some(I2(if rex.w then Movq else Movd, XmmReg(reg), RmGpr(place, size)))
    else if opcode == 0x7E && prefix == Some(0x66) then
      Some(I2(if rex.w then Movq else Movd, RmGpr(place, size), XmmReg(reg)))
    else if opcode == 0x7E && prefix == Some(0xF3) then Some(I2(Movq, XmmReg(reg), RmXmm(place, 8)))
    else
      var (op, dir) :- SseOfCode(prefix, opcode);
      Some(SseInstr(op, dir, rex, reg, place))
  }

  /** Instructions without a ModRM byte. */
  function DecodePlain(rex: Rex, two: bool, opcode: byte, s: seq<byte>): (r: Option<(Instr, seq<byte>)>)
    requires rex.b < 2
    ensures r.Some? ==> |r.value.1| <= |s|
  {
    if two then
      if 0x80 <= opcode < 0x90 then
        var (disp, rest) :- TakeSigned(s, 4);
        Some((I1(Jcc(opcode - 0x80), Relative(disp)), rest))
      else None
    else if 0x50 <= opcode < 0x58 then Some((I1(Push, Gpr(opcode - 0x50 + 8 * rex.b, 8)), s))
    else if 0x58 <= opcode < 0x60 then Some((I1(Pop, Gpr(opcode - 0x58 + 8 * rex.b, 8)), s))
    else if opcode == 0x90 && rex.b == 0 then Some((I0(Zero(NopOp)), s))
    else if 0x90 <= opcode < 0x98 then
      Some((I2(Xchg, Gpr(opcode - 0x90 + 8 * rex.b, SizeOf(rex)), Gpr(0, SizeOf(rex))), s))
    else if opcode == 0x99 then Some((I0(Zero(if rex.w then CqoOp else CdqOp)), s))
    else if 0xB8 <= opcode < 0xC0 then
      var (imm, rest) :- TakeUnsigned(s, SizeOf(rex));
      Some((I2(Mov, Gpr(opcode - 0xB8 + 8 * rex.b, SizeOf(rex)), Const(imm)), rest))
    else if opcode == 0xC3 then Some((I0(Zero(RetOp)), s))
    else if opcode == 0xC9 then Some((I0(Zero(LeaveOp)), s))
    else if opcode == 0xCC then Some((I0(Zero(Int3Op)), s))
    else if opcode == 0xE8 then
      var (disp, rest) :- TakeSigned(s, 4);
      Some((I1(Call, Relative(disp)), rest))
    else if opcode == 0xE9 then
      var (disp, rest) :- TakeSigned(s, 4);
      Some((I1(Jmp, Relative(disp)), rest))
    else None
  }

  /** ModRM operand, immediate and opcode map, once prefixes and opcode are known. */
  function DecodeOperands(prefix: Option<byte>, rex: Rex, two: bool, opcode: byte,
                          s: seq<byte>): (r: Option<(Instr, seq<byte>)>)
    requires rex.r < 2 && rex.x < 2 && rex.b < 2
    ensures r.Some? ==> |r.value.1| <= |s|
  {
    var (reg, place, afterRm) :- DecodeModRm(rex, s);
    var (imm, rest) :- TakeUnsigned(afterRm, ImmWidth(two, opcode, reg % 8));
    var instr :- if two then TwoByte(prefix, rex, opcode, reg, place) else OneByte(rex, opcode, reg, place, imm);
    Some((instr, rest))
  }

  /** Decodes one instruction; returns it with the bytes that follow it, so that a linear sweep makes progress. */
  function Decode(s: seq<byte>): (r: Option<(Instr, seq<byte>)>)
    ensures r.Some? ==> |r.value.1| < |s|
  {
    var (prefix, afterPrefix) := SplitPrefix(s);
    var (rex, afterRex) := SplitRex(afterPrefix);
    var (two, opcode, rest) :- SplitOpcode(afterRex);
    if prefix.Some? && !two then None
    else if HasModRm(two, opcode) then DecodeOperands(prefix, rex, two, opcode, rest)
    else if prefix.Some? then None
    else DecodePlain(rex, two, opcode, rest)
  }

  /** Linear-sweep disassembly of a whole byte string; None when some byte does not start an instruction. */
  function Disassemble(s: seq<byte>): Option<seq<Instr>>
    decreases |s|
  {
    if s == [] then Some([]) else
    var (instr, rest) :- Decode(s);
    var tail :- Disassemble(rest);
    Some([instr] + tail)
  }
}
