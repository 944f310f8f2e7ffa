/** The instruction encoder: normalised instruction forms to machine code. */
module X86Encoder {
  import opened Wrappers
  import opened Bytes

  type RegSize = n: nat | n == 4 || n == 8 witness 4

  /** A general-purpose register of 4 or 8 bytes. */
  datatype GReg = GReg(num: RegNum, size: RegSize)

  /** base + index * scale + disp. The scale is whatever byte the text gave. */
  datatype Mem = Mem(base: RegNum, index: Option<RegNum>, scale: byte, disp: i64)

  datatype Rm = Reg(num: RegNum) | AtMem(mem: Mem)

  type Digit = n: nat | n < 8

  /** Normalised instruction form. */
  datatype Repr =
    | RmR(opcode: byte, w: bool, reg: RegNum, rm: Rm)
    | RmI(opcode: byte, digit: Digit, w: bool, rm: Rm, immWidth: nat)
    | MovRI(dst: GReg)
    | Sse(prefix: Option<byte>, opcode: byte, w: bool, reg: RegNum, rm: Rm)
    | Push(num: RegNum)
    | Pop(num: RegNum)
    | Ret
    | Raw(bytes: seq<byte>)

  /** A form together with the text of its immediate, resolved only when the bytes are written. */
  datatype Insn = Insn(repr: Repr, imm: Option<string>)

  datatype AsmError =
    | DispOutOfRange | StackPointerIndex | BadScale
    | ImmOutOfRange(width: nat) | BadImmWidth(width: nat)
    | OperandCount | BadOperands | SizeMismatch | UnsupportedSize
    | UnknownSymbol(name: string) | BranchOutOfRange
    | MissingArgument | AllocFailed | PatternNotFound | UnknownCommand
    | LabelBeforeOrigin(name: string) | CodeBeforeOrigin | WriteFailed(address: u64)

  type Encoded = Result<seq<byte>, AsmError>

  // ----- Field packing -----

  /** mod, reg and r/m (or scale, index and base) packed into one byte. */
  function PackFields(hi: nat, mid: nat, lo: nat): (b: byte)
    requires hi < 4 && mid < 8 && lo < 8
  {
    hi * 64 + mid * 8 + lo
  }

  /** The source packs with shifts and `|`; on disjoint fields that is the sum above. */
  lemma PackFieldsIsBitwise(hi: bv8, mid: bv8, lo: bv8)
    requires hi < 4 && mid < 8 && lo < 8
    ensures PackFields(hi as nat, mid as nat, lo as nat) == ((hi << 6) | (mid << 3) | lo) as nat
  {}

  /** The REX prefix, present only when one of its bits is needed. */
  function RexBytes(w: bool, r: nat, x: nat, b: nat): seq<byte>
    requires r < 2 && x < 2 && b < 2
  {
    if w || r != 0 || x != 0 || b != 0 then [0x40 + (if w then 8 else 0) + r * 4 + x * 2 + b] else []
  }

  /** The same for the bits of the REX prefix. */
  lemma RexIsBitwise(w: bv8, r: bv8, x: bv8, b: bv8)
    requires w < 2 && r < 2 && x < 2 && b < 2
    ensures RexBytes(w == 1, r as nat, x as nat, b as nat)
            == if w == 1 || r != 0 || x != 0 || b != 0 then
              [(0x40 | (w << 3) | ((r & 1) << 2) | ((x & 1) << 1) | (b & 1)) as nat] else []
  {}

  // ----- Memory operands -----

  datatype MemEncoding = MemEncoding(sib: Option<byte>, disp: seq<byte>, rexX: nat, rexB: nat, mode: nat, rmField: nat)

  /** mod bits and displacement bytes: none, 8 or 32 bits; rbp/r13 never go without one. */
  function EncodeDisp(disp: i64, baseLow: nat): Result<(nat, seq<byte>), AsmError> {
    if disp == 0 && baseLow != 5 then Ok((0, []))
    else if -128 <= disp <= 127 then Ok((1, LittleEndian(disp, 1)))
    else if !FitsI32(disp) then Err(DispOutOfRange)
    else Ok((2, LittleEndian(disp, 4)))
  }

  function ScaleBits(scale: byte): Result<nat, AsmError> {
    if scale == 1 then Ok(0) else if scale == 2 then Ok(1)
    else if scale == 4 then Ok(2) else if scale == 8 then Ok(3) else Err(BadScale)
  }

  function IndexField(index: Option<RegNum>): Result<(nat, nat), AsmError> {
    match index
    case Some(i) => if i % 8 == 4 then Err(StackPointerIndex) else Ok((i % 8, i / 8))
    case None => Ok((4, 0))
  }

  function EncodeMem(m: Mem): (r: Result<MemEncoding, AsmError>)
    ensures r.Ok? ==> r.value.rexX < 2 && r.value.rexB < 2 && r.value.mode < 3 && r.value.rmField < 8
  {
    var baseLow := m.base % 8;
    var (mode, disp) :- EncodeDisp(m.disp, baseLow);
    if m.index.Some? || baseLow == 4 then
      var (indexField, rexX) :- IndexField(m.index);
      var scale :- ScaleBits(m.scale);
      Ok(MemEncoding(Some(PackFields(scale, indexField, baseLow)), disp, rexX, m.base / 8, mode, 4))
    else
      Ok(MemEncoding(None, disp, 0, m.base / 8, mode, baseLow))
  }

  // ----- What each emitter appends -----

  function SibBytes(sib: Option<byte>): seq<byte> { if sib.Some? then [sib.value] else [] }

  /** What an r/m operand contributes: REX.X, REX.B, mod, r/m and the bytes after ModRM. */
  datatype RmEncoding = RmEncoding(rexX: nat, rexB: nat, mode: nat, rmField: nat, tail: seq<byte>)

  function EncodeRm(rm: Rm): (r: Result<RmEncoding, AsmError>)
    ensures r.Ok? ==> r.value.rexX < 2 && r.value.rexB < 2 && r.value.mode < 4 && r.value.rmField < 8
  {
    match rm
    case Reg(n) => Ok(RmEncoding(0, n / 8, 3, n % 8, []))
    case AtMem(m) =>
      var e :- EncodeMem(m);
      Ok(RmEncoding(e.rexX, e.rexB, e.mode, e.rmField, SibBytes(e.sib) + e.disp))
  }

  /** REX, opcode, ModRM, SIB and displacement. */
  function ModRmBytes(w: bool, opcode: seq<byte>, reg: RegNum, rm: Rm): Encoded {
    var e :- EncodeRm(rm);
    Ok(RexBytes(w, reg / 8, e.rexX, e.rexB) + (opcode + ([PackFields(e.mode, reg % 8, e.rmField)] + e.tail)))
  }

  /** An immediate of 0, 1, 4 or 8 bytes; the narrow ones accept both the signed and the unsigned range. */
  function ImmBytes(imm: i64, width: nat): Encoded {
    if width == 0 then Ok([])
    else if width == 1 then (if -128 <= imm <= 0xFF then Ok(LittleEndian(imm, 1)) else Err(ImmOutOfRange(1)))
    else if width == 4 then (if -0x8000_0000 <= imm <= 0xFFFF_FFFF then Ok(LittleEndian(imm, 4))
                             else Err(ImmOutOfRange(4)))
    else if width == 8 then Ok(LittleEndian(imm, 8))
    else Err(BadImmWidth(width))
  }

  function PrefixBytes(prefix: Option<byte>): seq<byte> { if prefix.Some? then [prefix.value] else [] }

  /** The machine code of a form with its resolved immediate. */
  function Encoding(repr: Repr, imm: i64): Encoded {
    match repr
    case RmR(opcode, w, reg, rm) => ModRmBytes(w, [opcode], reg, rm)
    case RmI(opcode, digit, w, rm, immWidth) =>
      var head :- ModRmBytes(w, [opcode], digit, rm);
      var tail :- ImmBytes(imm, immWidth);
      Ok(head + tail)
    case MovRI(dst) =>
      var tail :- ImmBytes(imm, dst.size);
      Ok(RexBytes(dst.size == 8, 0, 0, dst.num / 8) + [0xB8 + dst.num % 8] + tail)
    case Sse(prefix, opcode, w, reg, rm) =>
      var tail :- ModRmBytes(w, [0x0F, opcode], reg, rm);
      Ok(PrefixBytes(prefix) + tail)
    case Push(num) => Ok(RexBytes(false, 0, 0, num / 8) + [0x50 + num % 8])
    case Pop(num) => Ok(RexBytes(false, 0, 0, num / 8) + [0x58 + num % 8])
    case Ret => Ok([0xC3])
    case Raw(bytes) => Ok(bytes)
  }

  /** Size used by the layout pass: the length at immediate 0, or 0 when the form cannot be encoded. */
  function Size(repr: Repr): nat {
    match Encoding(repr, 0)
    case Ok(bytes) => |bytes|
    case Err(_) => 0
  }

  // ----- The emitters -----

  /** The outcome of an emitter: it pushes exactly the bytes of `r`, or reports its error and pushes nothing. */
  ghost predicate Appended(r: Encoded, before: seq<byte>, after: seq<byte>, error: Option<AsmError>) {
    match r
    case Ok(bytes) => error == None && after == before + bytes
    case Err(e) => error == Some(e) && after == before
  }

  /** The output vector the emitters push onto. */
  class CodeBuffer {
    var out: seq<byte>

    constructor ()
      ensures out == []
    {
      out := [];
    }

    method PushRex(w: bool, r: nat, x: nat, b: nat)
      requires r < 2 && x < 2 && b < 2
      modifies this
      ensures out == old(out) + RexBytes(w, r, x, b)
    {
      if w || r != 0 || x != 0 || b != 0 {
        out := out + [0x40 + (if w then 8 else 0) + r * 4 + x * 2 + b];
      }
    }

    /** REX, opcode and operand, in order; the operand is encoded before anything is pushed. */
    method PushModRm(w: bool, opcode: seq<byte>, reg: RegNum, rm: Rm) returns (error: Option<AsmError>)
      modifies this
      ensures Appended(ModRmBytes(w, opcode, reg, rm), old(out), out, error)
    {
      var encoded := EncodeRm(rm);
      if encoded.Err? {
        return Some(encoded.error);
      }
      var e := encoded.value;
      var modRm := PackFields(e.mode, reg % 8, e.rmField);
      ghost var before := out;
      PushRex(w, reg / 8, e.rexX, e.rexB);
      out := out + opcode;
      out := out + [modRm];
      out := out + e.tail;
      AppendsAssociate(before, RexBytes(w, reg / 8, e.rexX, e.rexB), opcode, [modRm], e.tail);
      error := None;
    }

    method EmitRm(w: bool, reg: RegNum, rm: Rm, opcode: byte) returns (error: Option<AsmError>)
      modifies this
      ensures Appended(ModRmBytes(w, [opcode], reg, rm), old(out), out, error)
    {
      error := PushModRm(w, [opcode], reg, rm);
    }

    /** The legacy prefix goes before REX, and 0F belongs to the opcode. */
    method EmitSse(prefix: Option<byte>, w: bool, opcode: byte, reg: RegNum, rm: Rm) returns (error: Option<AsmError>)
      modifies this
      ensures Appended(ModRmBytes(w, [0x0F, opcode], reg, rm), old(out) + PrefixBytes(prefix), out, error)
    {
      if prefix.Some? {
        out := out + [prefix.value];
      }
      assert out == old(out) + PrefixBytes(prefix);
      error := PushModRm(w, [0x0F, opcode], reg, rm);
    }

    method AppendImm(imm: i64, width: nat) returns (error: Option<AsmError>)
      modifies this
      ensures Appended(ImmBytes(imm, width), old(out), out, error)
    {
      if width == 0 {
      } else if width == 1 {
        if imm < -128 || imm > 0xFF {
          return Some(ImmOutOfRange(1));
        }
        out := out + LittleEndian(imm, 1);
      } else if width == 4 {
        if imm < -0x8000_0000 || imm > 0xFFFF_FFFF {
          return Some(ImmOutOfRange(4));
        }
        out := out + LittleEndian(imm, 4);
      } else if width == 8 {
        out := out + LittleEndian(imm, 8);
      } else {
        return Some(BadImmWidth(width));
      }
      error := None;
    }
  }

  lemma AppendsAssociate(a: seq<byte>, b: seq<byte>, c: seq<byte>, d: seq<byte>, e: seq<byte>)
    ensures a + b + c + d + e == a + (b + (c + (d + e)))
  {}

  /** Assembles a form, pushing byte after byte onto a fresh vector. */
  method Build(repr: Repr, imm: i64) returns (r: Encoded)
    ensures r == Encoding(repr, imm)
  {
    var buffer := new CodeBuffer();
    var error: Option<AsmError> := None;
    assert forall s: seq<byte> :: [] + s == s;
    match repr {
      case RmR(opcode, w, reg, rm) =>
        error := buffer.EmitRm(w, reg, rm, opcode);
      case RmI(opcode, digit, w, rm, immWidth) =>
        error := buffer.EmitRm(w, digit, rm, opcode);
        if error == None {
          error := buffer.AppendImm(imm, immWidth);
        }
      case MovRI(dst) =>
        buffer.PushRex(dst.size == 8, 0, 0, dst.num / 8);
        buffer.out := buffer.out + [0xB8 + dst.num % 8];
        assert buffer.out == RexBytes(dst.size == 8, 0, 0, dst.num / 8) + [0xB8 + dst.num % 8];
        if dst.size == 8 {
          buffer.out := buffer.out + LittleEndian(imm, 8);
        } else {
          error := buffer.AppendImm(imm, 4);
        }
      case Sse(prefix, opcode, w, reg, rm) =>
        error := buffer.EmitSse(prefix, w, opcode, reg, rm);
      case Push(num) =>
        if num >= 8 {
          buffer.out := buffer.out + [0x41];
        }
        buffer.out := buffer.out + [0x50 + num % 8];
        assert buffer.out == RexBytes(false, 0, 0, num / 8) + [0x50 + num % 8];
      case Pop(num) =>
        if num >= 8 {
          buffer.out := buffer.out + [0x41];
        }
        buffer.out := buffer.out + [0x58 + num % 8];
        assert buffer.out == RexBytes(false, 0, 0, num / 8) + [0x58 + num % 8];
      case Ret =>
        buffer.out := buffer.out + [0xC3];
      case Raw(bytes) =>
        buffer.out := buffer.out + bytes;
    }
    if error.Some? {
      return Err(error.value);
    }
    return Ok(buffer.out);
  }

  // ----- Properties -----

  /** `EncodeMem` fails exactly on an out-of-range displacement, or, when a SIB byte is needed, on an
      index whose low bits are 100 or a scale other than 1, 2, 4, 8. */
  lemma EncodeMemFailsExactly(m: Mem)
    ensures EncodeMem(m).Err? <==>
            !FitsI32(m.disp)
            || ((m.index.Some? || m.base % 8 == 4)
                && ((m.index.Some? && m.index.value % 8 == 4) || m.scale !in {1, 2, 4, 8}))
  {
    assert FitsI32(0);
  }

  /** An operand that can be encoded: a register, or memory with a displacement of 32 signed bits which, when a SIB
      byte is needed, has no index with low bits 100 and a scale of 1, 2, 4 or 8. */
  predicate IsEncodable(rm: Rm) {
    rm.AtMem? ==>
      && -0x8000_0000 <= rm.mem.disp <= 0x7FFF_FFFF
      && (rm.mem.index.Some? ==> rm.mem.index.value % 8 != 4)
      && (rm.mem.index.Some? || rm.mem.base % 8 == 4 ==> rm.mem.scale in {1, 2, 4, 8})
  }

  /** An immediate of a byte or of 32 bits may be written signed or unsigned; one of 64 bits is never too large. */
  predicate ImmediateFits(imm: i64, width: nat) {
    || width == 0
    || (width == 1 && -128 <= imm <= 255)
    || (width == 4 && -2147483648 <= imm <= 4294967295)
    || width == 8
  }

  /** A form is encoded if and only if its operand can be and its immediate fits. */
  lemma EncodesIff(repr: Repr, imm: i64)
    ensures Encoding(repr, imm).Ok? <==>
            match repr
            case RmR(_, _, _, rm) => IsEncodable(rm)
            case RmI(_, _, _, rm, width) => IsEncodable(rm) && ImmediateFits(imm, width)
            case MovRI(dst) => ImmediateFits(imm, if dst.size == 8 then 8 else 4)
            case Sse(_, _, _, _, rm) => IsEncodable(rm)
            case _ => true
  {
    match repr
    case RmR(_, _, _, rm) => OperandEncodes(rm);
    case RmI(_, _, _, rm, _) => OperandEncodes(rm);
    case Sse(_, _, _, _, rm) => OperandEncodes(rm);
    case _ =>
    hide EncodeRm, LittleEndian;
  }

  lemma OperandEncodes(rm: Rm)
    ensures EncodeRm(rm).Ok? <==> IsEncodable(rm)
  {
    if rm.AtMem? {
      EncodeMemFailsExactly(rm.mem);
    }
    hide EncodeMem;
  }

  /** Length and success do not depend on the immediate, except that a too large one makes the build fail. */
  lemma EncodingLengthIndependent(repr: Repr, imm: i64)
    requires Encoding(repr, imm).Ok?
    ensures Encoding(repr, 0).Ok?
    ensures |Encoding(repr, imm).value| == Size(repr)
  {
    match repr
    case RmI(opcode, digit, w, rm, immWidth) =>
      assert ImmBytes(0, immWidth).Ok? && |ImmBytes(0, immWidth).value| == |ImmBytes(imm, immWidth).value|;
    case MovRI(dst) =>
    case _ =>
  }
}
