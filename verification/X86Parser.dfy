/** Operand-level parsing: a mnemonic and classified operands to a normalised form. */
module X86Parser {
  import opened Wrappers
  import opened Bytes
  import opened Texts
  import opened X86Encoder
  import D = X86Decoder

  /** An operand after classification; a memory operand may carry a size keyword. */
  datatype Operand = OReg(reg: GReg) | OXmm(num: RegNum) | OMem(mem: Mem, size: Option<nat>) | OImm(text: string)

  datatype ShiftName = Rol | Ror | Rcl | Rcr | Shl | Sal | Shr | Sar

  datatype Mnemonic =
    | Zero(zero: D.ZeroOp) | Mov | Lea | Test | Push | Pop | Unary(unary: D.UnaryOp) | Movd | Movq
    | Shift(shift: ShiftName) | Imul | Xchg | Movzx | Movsx | Sse(sse: D.SseOp) | Alu(alu: D.AluOp)

  type Parsed = Result<Insn, AsmError>

  // ----- Register names inside immediate text -----

  const BYTE_REGISTERS: seq<string> := [
    "al", "cl", "dl", "bl", "spl", "bpl", "sil", "dil", "r8b", "r9b", "r10b", "r11b", "r12b", "r13b", "r14b", "r15b"]
  const WORD_REGISTERS: seq<string> := [
    "ax", "cx", "dx", "bx", "sp", "bp", "si", "di", "r8w", "r9w", "r10w", "r11w", "r12w", "r13w", "r14w", "r15w"]

  /** Position of a name in a table. */
  function Position(names: seq<string>, name: string): (r: Option<nat>)
    ensures r.Some? ==> r.value < |names| && names[r.value] == name
    ensures r.None? ==> name !in names
  {
    if names == [] then None
    else if names[0] == name then Some(0)
    else
      var i :- Position(names[1..], name);
      Some(i + 1)
  }

  function ByteRegister(text: string): (r: Option<RegNum>) {
    assert |BYTE_REGISTERS| == 16;
    var i :- Position(BYTE_REGISTERS, ToLower(text));
    Some(i)
  }

  function WordRegister(text: string): (r: Option<RegNum>) {
    assert |WORD_REGISTERS| == 16;
    var i :- Position(WORD_REGISTERS, ToLower(text));
    Some(i)
  }

  predicate IsCl(text: string) { ToLower(text) == "cl" }

  // ----- Opcode tables -----

  /** (opcode of "r/m, r", digit of group 0x81); "r, r/m" is the opcode plus 2. */
  function AluCodes(op: D.AluOp): (byte, Digit) {
    match op
    case Add => (0x01, 0)
    case Or => (0x09, 1)
    case Adc => (0x11, 2)
    case Sbb => (0x19, 3)
    case And => (0x21, 4)
    case Sub => (0x29, 5)
    case Xor => (0x31, 6)
    case Cmp => (0x39, 7)
  }

  /** (legacy prefix, load opcode, store opcode if there is one). */
  function SseCodes(op: D.SseOp): (Option<byte>, byte, Option<byte>) {
    match op
    case Movss => (Some(0xF3), 0x10, Some(0x11))
    case Movsd => (Some(0xF2), 0x10, Some(0x11))
    case Movups => (None, 0x10, Some(0x11))
    case Movupd => (Some(0x66), 0x10, Some(0x11))
    case Movaps => (None, 0x28, Some(0x29))
    case Movapd => (Some(0x66), 0x28, Some(0x29))
    case Addss => (Some(0xF3), 0x58, None)
    case Subss => (Some(0xF3), 0x5C, None)
    case Mulss => (Some(0xF3), 0x59, None)
    case Divss => (Some(0xF3), 0x5E, None)
    case Addsd => (Some(0xF2), 0x58, None)
    case Subsd => (Some(0xF2), 0x5C, None)
    case Mulsd => (Some(0xF2), 0x59, None)
    case Divsd => (Some(0xF2), 0x5E, None)
    case Addps => (None, 0x58, None)
    case Subps => (None, 0x5C, None)
    case Mulps => (None, 0x59, None)
    case Divps => (None, 0x5E, None)
    case Addpd => (Some(0x66), 0x58, None)
    case Subpd => (Some(0x66), 0x5C, None)
    case Mulpd => (Some(0x66), 0x59, None)
    case Divpd => (Some(0x66), 0x5E, None)
    case Xorps => (None, 0x57, None)
    case Xorpd => (Some(0x66), 0x57, None)
    case Cvtsi2ss => (Some(0xF3), 0x2A, None)
    case Cvtsi2sd => (Some(0xF2), 0x2A, None)
    case Cvttss2si => (Some(0xF3), 0x2C, None)
    case Cvttsd2si => (Some(0xF2), 0x2C, None)
  }

  predicate ConvertsFromInt(op: D.SseOp) { op.Cvtsi2ss? || op.Cvtsi2sd? }
  predicate ConvertsToInt(op: D.SseOp) { op.Cvttss2si? || op.Cvttsd2si? }

  function ShiftDigit(op: ShiftName): Digit {
    match op
    case Rol => 0
    case Ror => 1
    case Rcl => 2
    case Rcr => 3
    case Shl => 4
    case Sal => 4
    case Shr => 5
    case Sar => 7
  }

  // ----- Shared checks -----

  function Wide(r: GReg): bool { r.size == 8 }

  /** Operand size of a memory operand without a register: only dword and qword are supported. */
  function RmSize(size: Option<nat>, default: nat): Result<bool, AsmError> {
    var n := if size.Some? then size.value else default;
    if n == 4 then Ok(false) else if n == 8 then Ok(true) else Err(UnsupportedSize)
  }

  function RmOf(op: Operand): Result<(Rm, bool), AsmError> {
    match op
    case OReg(r) => Ok((Reg(r.num), Wide(r)))
    case OMem(m, size) =>
      var w :- RmSize(size, 4);
      Ok((AtMem(m), w))
    case _ => Err(BadOperands)
  }

  // ----- One function per instruction family -----

  function ParseMov(a: Operand, b: Operand): Parsed {
    match (a, b)
    case (OReg(dst), OImm(t)) => Ok(Insn(MovRI(dst), Some(t)))
    case (OReg(dst), OReg(src)) =>
      if dst.size != src.size then Err(SizeMismatch) else Ok(Insn(RmR(0x89, Wide(dst), src.num, Reg(dst.num)), None))
    case (OReg(dst), OMem(m, _)) => Ok(Insn(RmR(0x8B, Wide(dst), dst.num, AtMem(m)), None))
    case (OMem(m, _), OReg(src)) => Ok(Insn(RmR(0x89, Wide(src), src.num, AtMem(m)), None))
    case (OMem(m, size), OImm(t)) =>
      var w :- RmSize(size, 4);
      Ok(Insn(RmI(0xC7, 0, w, AtMem(m), 4), Some(t)))
    case _ => Err(BadOperands)
  }

  function ParseAlu(op: D.AluOp, a: Operand, b: Operand): Parsed {
    var (opcode, digit) := AluCodes(op);
    match (a, b)
    case (OReg(dst), OImm(t)) => Ok(Insn(RmI(0x81, digit, Wide(dst), Reg(dst.num), 4), Some(t)))
    case (OMem(m, size), OImm(t)) =>
      var w :- RmSize(size, 4);
      Ok(Insn(RmI(0x81, digit, w, AtMem(m), 4), Some(t)))
    case (OReg(dst), OReg(src)) =>
      if dst.size != src.size then Err(SizeMismatch) else Ok(Insn(RmR(opcode, Wide(dst), src.num, Reg(dst.num)), None))
    case (OReg(dst), OMem(m, _)) => Ok(Insn(RmR(opcode + 2, Wide(dst), dst.num, AtMem(m)), None))
    case (OMem(m, _), OReg(src)) => Ok(Insn(RmR(opcode, Wide(src), src.num, AtMem(m)), None))
    case _ => Err(BadOperands)
  }

  function ParseTest(a: Operand, b: Operand): Parsed {
    match (a, b)
    case (OReg(dst), OImm(t)) => Ok(Insn(RmI(0xF7, 0, Wide(dst), Reg(dst.num), 4), Some(t)))
    case (OMem(m, size), OImm(t)) =>
      var w :- RmSize(size, 4);
      Ok(Insn(RmI(0xF7, 0, w, AtMem(m), 4), Some(t)))
    case (OReg(dst), OReg(src)) =>
      if dst.size != src.size then Err(SizeMismatch) else Ok(Insn(RmR(0x85, Wide(dst), src.num, Reg(dst.num)), None))
    case (OReg(r), OMem(m, _)) => Ok(Insn(RmR(0x85, Wide(r), r.num, AtMem(m)), None))
    case (OMem(m, _), OReg(r)) => Ok(Insn(RmR(0x85, Wide(r), r.num, AtMem(m)), None))
    case _ => Err(BadOperands)
  }

  function ParseXchg(a: Operand, b: Operand): Parsed {
    match (a, b)
    case (OReg(x), OReg(y)) =>
      if x.size != y.size then Err(SizeMismatch) else Ok(Insn(RmR(0x87, Wide(x), y.num, Reg(x.num)), None))
    case (OReg(r), OMem(m, _)) => Ok(Insn(RmR(0x87, Wide(r), r.num, AtMem(m)), None))
    case (OMem(m, _), OReg(r)) => Ok(Insn(RmR(0x87, Wide(r), r.num, AtMem(m)), None))
    case _ => Err(BadOperands)
  }

  function ParseLea(a: Operand, b: Operand): Parsed {
    match (a, b)
    case (OReg(dst), OMem(m, _)) => Ok(Insn(RmR(0x8D, Wide(dst), dst.num, AtMem(m)), None))
    case _ => Err(BadOperands)
  }

  function ParseUnary(op: D.UnaryOp, a: Operand): Parsed {
    var (opcode, digit) := match op case Inc => (0xFF, 0) case Dec => (0xFF, 1) case Not => (0xF7,
          2) case Neg => (0xF7, 3);
    var (rm, w) :- RmOf(a);
    Ok(Insn(RmI(opcode, digit, w, rm, 0), None))
  }

  function ParseStack(push: bool, a: Operand): Parsed {
    match a
    case OReg(r) => if r.size != 8 then Err(SizeMismatch)
    else Ok(Insn(if push then Repr.Push(r.num) else Repr.Pop(r.num), None))
    case _ => Err(BadOperands)
  }

  function ParseShift(op: ShiftName, a: Operand, b: Operand): Parsed {
    var (rm, w) :- RmOf(a);
    match b
    case OImm(t) =>
      if IsCl(t) then Ok(Insn(RmI(0xD3, ShiftDigit(op), w, rm, 0), None))
      else Ok(Insn(RmI(0xC1, ShiftDigit(op), w, rm, 1), Some(t)))
    case _ => Err(BadOperands)
  }

  function ParseImul(a: Operand, b: Operand): Parsed {
    match (a, b)
    case (OReg(dst), OReg(src)) => Ok(Insn(Repr.Sse(None, 0xAF, Wide(dst), dst.num, Reg(src.num)), None))
    case (OReg(dst), OMem(m, _)) => Ok(Insn(Repr.Sse(None, 0xAF, Wide(dst), dst.num, AtMem(m)), None))
    case _ => Err(BadOperands)
  }

  function MovxSource(b: Operand): Result<(nat, Rm), AsmError> {
    match b
    case OMem(m, size) => if size == Some(1) then Ok((1, AtMem(m))) else if size == Some(2) then Ok((2, AtMem(m)))
    else Err(UnsupportedSize)
    case OImm(t) =>
      if ByteRegister(t).Some? then Ok((1, Reg(ByteRegister(t).value)))
      else if WordRegister(t).Some? then Ok((2, Reg(WordRegister(t).value)))
      else Err(BadOperands)
    case _ => Err(BadOperands)
  }

  function ParseMovx(signed: bool, a: Operand, b: Operand): Parsed {
    match a
    case OReg(dst) =>
      var (width, rm) :- MovxSource(b);
      var opcode: byte := if signed then (if width == 1 then 0xBE else 0xBF) else (if width == 1 then 0xB6 else 0xB7);
      Ok(Insn(Repr.Sse(None, opcode, Wide(dst), dst.num, rm), None))
    case _ => Err(BadOperands)
  }

  function ParseSse(op: D.SseOp, a: Operand, b: Operand): Parsed {
    var (prefix, load, store) := SseCodes(op);
    match (a, b)
    case (OXmm(d), OXmm(s)) => Ok(Insn(Repr.Sse(prefix, load, false, d, Reg(s)), None))
    case (OXmm(d), OMem(m, _)) => Ok(Insn(Repr.Sse(prefix, load, false, d, AtMem(m)), None))
    case (OXmm(d), OReg(s)) =>
      if ConvertsFromInt(op) then Ok(Insn(Repr.Sse(prefix, load, Wide(s), d, Reg(s.num)), None)) else Err(BadOperands)
    case (OReg(d), OXmm(s)) =>
      if ConvertsToInt(op) then Ok(Insn(Repr.Sse(prefix, load, Wide(d), d.num, Reg(s)), None)) else Err(BadOperands)
    case (OReg(d), OMem(m, _)) =>
      if ConvertsToInt(op) then Ok(Insn(Repr.Sse(prefix, load, Wide(d), d.num, AtMem(m)), None)) else Err(BadOperands)
    case (OMem(m, _), OXmm(s)) =>
      if store.Some? then Ok(Insn(Repr.Sse(prefix, store.value, false, s, AtMem(m)), None)) else Err(BadOperands)
    case _ => Err(BadOperands)
  }

  function ParseMovdq(q: bool, a: Operand, b: Operand): Parsed {
    match (a, b)
    case (OXmm(d), OReg(s)) => Ok(Insn(Repr.Sse(Some(0x66), 0x6E, Wide(s), d, Reg(s.num)), None))
    case (OXmm(d), OMem(m, _)) => Ok(Insn(Repr.Sse(Some(0x66), 0x6E, q, d, AtMem(m)), None))
    case (OReg(d), OXmm(s)) => Ok(Insn(Repr.Sse(Some(0x66), 0x7E, Wide(d), s, Reg(d.num)), None))
    case (OMem(m, _), OXmm(s)) => Ok(Insn(Repr.Sse(Some(0x66), 0x7E, q, s, AtMem(m)), None))
    case (OXmm(d), OXmm(s)) => if q then Ok(Insn(Repr.Sse(Some(0xF3), 0x7E, false, d, Reg(s)), None))
    else Err(BadOperands)
    case _ => Err(BadOperands)
  }

  function ZeroForm(op: D.ZeroOp): Repr {
    match op
    case RetOp => Ret
    case NopOp => Raw([0x90])
    case Int3Op => Raw([0xCC])
    case LeaveOp => Raw([0xC9])
    case CdqOp => Raw([0x99])
    case CqoOp => Raw([0x48, 0x99])
  }

  predicate IsUnary(m: Mnemonic) { m.Push? || m.Pop? || m.Unary? }

  function ParseTwo(m: Mnemonic, a: Operand, b: Operand): Parsed
    requires !m.Zero? && !IsUnary(m)
  {
    match m
    case Mov => ParseMov(a, b)
    case Lea => ParseLea(a, b)
    case Test => ParseTest(a, b)
    case Xchg => ParseXchg(a, b)
    case Imul => ParseImul(a, b)
    case Movzx => ParseMovx(false, a, b)
    case Movsx => ParseMovx(true, a, b)
    case Movd => ParseMovdq(false, a, b)
    case Movq => ParseMovdq(true, a, b)
    case Shift(op) => ParseShift(op, a, b)
    case Sse(op) => ParseSse(op, a, b)
    case Alu(op) => ParseAlu(op, a, b)
  }

  /** Operands of zero-operand instructions are ignored, as the source ignores them. */
  function Parse(m: Mnemonic, ops: seq<Operand>): Parsed {
    if m.Zero? then Ok(Insn(ZeroForm(m.zero), None))
    else if IsUnary(m) then
      if |ops| != 1 then Err(OperandCount)
      else if m.Unary? then ParseUnary(m.unary, ops[0])
      else ParseStack(m.Push?, ops[0])
    else if |ops| != 2 then Err(OperandCount)
    else ParseTwo(m, ops[0], ops[1])
  }
}
