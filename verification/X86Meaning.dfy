/**
 Assembling means what was written: for every mnemonic and operand list the parser accepts, the bytes
 decode, whatever follows them, to one instruction, and that instruction is the written one exactly
 when a condition on the operands holds. The condition is where the assembler silently changes the
 instruction: ignored size keywords, unchecked sizes, wrapped immediates, ah..bh for spl..dil.
 */
module X86Meaning {
  import opened Wrappers
  import opened Bytes
  import opened X86Encoder
  import opened X86Parser
  import opened X86RoundTrip
  import D = X86Decoder

  // ----- The instruction as written -----

  /** Size of an operation: that of its first register, else the keyword, else dword. */
  function WrittenSize(a: Operand, b: Operand): nat {
    if a.OReg? then a.reg.size
    else if b.OReg? then b.reg.size
    else if a.OMem? && a.size.Some? then a.size.value
    else 4
  }

  /** An operand as written; memory without a keyword takes the natural size of the instruction. */
  function Written(o: Operand, size: nat, imm: int): D.Operand {
    match o
    case OReg(r) => D.Gpr(r.num, r.size)
    case OXmm(n) => D.XmmReg(n)
    case OMem(m, keyword) => D.Memory(PlaceOfMem(m), if keyword.Some? then keyword.value else size)
    case OImm(_) => D.Const(if size == 8 then imm % TWO64 else imm % TWO32)
  }

  /** The source of movzx/movsx: memory with its keyword, or an 8- or 16-bit register. */
  function WrittenNarrow(o: Operand): D.Operand {
    match o
    case OMem(m, keyword) => D.Memory(PlaceOfMem(m), if keyword.Some? then keyword.value else 0)
    case OImm(t) =>
      if ByteRegister(t).Some? then D.Gpr(ByteRegister(t).value, 1)
      else if WordRegister(t).Some? then D.Gpr(WordRegister(t).value, 2)
      else D.Const(0)
    case _ => D.Const(0)
  }

  function WrittenShift(op: ShiftName): D.ShiftOp {
    match op
    case Rol => D.ShiftOp.Rol
    case Ror => D.ShiftOp.Ror
    case Rcl => D.ShiftOp.Rcl
    case Rcr => D.ShiftOp.Rcr
    case Shl => D.ShiftOp.Shl
    case Sal => D.ShiftOp.Shl
    case Shr => D.ShiftOp.Shr
    case Sar => D.ShiftOp.Sar
  }

  function SseMemSize(op: D.SseOp): nat { if ConvertsFromInt(op) then 4 else D.SseMemSize(op) }

  /** test and xchg are symmetric and have one form, with the memory operand first. */
  function Symmetric(m: D.Mnemonic, a: Operand, b: Operand, imm: int): D.Instr {
    var size := WrittenSize(a, b);
    if b.OMem? then D.I2(m, Written(b, size, imm), Written(a, size, imm))
    else D.I2(m, Written(a, size, imm), Written(b, size, imm))
  }

  function IntendedTwo(m: Mnemonic, a: Operand, b: Operand, imm: int): D.Instr
    requires !m.Zero? && !IsUnary(m)
  {
    var size := WrittenSize(a, b);
    match m
    case Mov => D.I2(D.Mov, Written(a, size, imm), Written(b, size, imm))
    case Alu(op) => D.I2(D.Alu(op), Written(a, size, imm), Written(b, size, imm))
    case Imul => D.I2(D.Imul, Written(a, size, imm), Written(b, size, imm))
    case Test => Symmetric(D.Test, a, b, imm)
    case Xchg => Symmetric(D.Xchg, a, b, imm)
    case Lea => D.I2(D.Lea, Written(a, size, imm), if b.OMem? then D.Memory(PlaceOfMem(b.mem), 0) else D.Const(0))
    case Movzx => D.I2(D.Movzx, Written(a, size, imm), WrittenNarrow(b))
    case Movsx => D.I2(D.Movsx, Written(a, size, imm), WrittenNarrow(b))
    case Movd => D.I2(D.Movd, Written(a, 4, imm), Written(b, 4, imm))
    case Movq => D.I2(D.Movq, Written(a, 8, imm), Written(b, 8, imm))
    case Shift(op) =>
      D.I2(D.Shift(WrittenShift(op)), Written(a, 4, imm),
           if b.OImm? && IsCl(b.text) then D.Gpr(1, 1) else D.Const(imm % 0x100))
    case Sse(op) => D.I2(D.Sse(op), Written(a, SseMemSize(op), imm), Written(b, SseMemSize(op), imm))
  }

  function Intended(m: Mnemonic, ops: seq<Operand>, imm: int): D.Instr
    requires Parse(m, ops).Ok?
  {
    match m
    case Zero(op) => D.I0(D.Zero(op))
    case Push => D.I1(D.Push, Written(ops[0], 8, imm))
    case Pop => D.I1(D.Pop, Written(ops[0], 8, imm))
    case Unary(op) => D.I1(D.Unary(op), Written(ops[0], 4, imm))
    case _ => IntendedTwo(m, ops[0], ops[1], imm)
  }

  /** The word names a register that the instruction reads: cl as a shift count, or the source of movzx/movsx. */
  predicate NamesRegister(m: Mnemonic, text: string) {
    (m.Shift? && IsCl(text))
    || ((m.Movzx? || m.Movsx?) && (ByteRegister(text).Some? || WordRegister(text).Some?))
  }

  /** The text of the immediate, from the operands alone: the second operand, unless it names a register. */
  function ImmText(m: Mnemonic, ops: seq<Operand>): Option<string> {
    if !m.Zero? && |ops| == 2 && ops[1].OImm? && !NamesRegister(m, ops[1].text) then Some(ops[1].text) else None
  }

  /** Every accepted statement keeps exactly the immediate that was written. */
  lemma ImmediateIsKept(m: Mnemonic, ops: seq<Operand>)
    requires Parse(m, ops).Ok?
    ensures Parse(m, ops).value.imm == ImmText(m, ops)
  {
    hide AluCodes, SseCodes, ByteRegister, WordRegister, IsCl, ShiftDigit;
    if !m.Zero? && !IsUnary(m) {
      TwoImmediateIsKept(m, ops[0], ops[1]);
      assert ops == [ops[0], ops[1]];
    }
  }

  lemma TwoImmediateIsKept(m: Mnemonic, a: Operand, b: Operand)
    requires !m.Zero? && !IsUnary(m) && ParseTwo(m, a, b).Ok?
    ensures ParseTwo(m, a, b).value.imm == ImmText(m, [a, b])
  {
    hide AluCodes, SseCodes, ByteRegister, WordRegister, IsCl, ShiftDigit;
  }

  // ----- When the encoding is faithful -----

  /** A size keyword on `o`, if any, agrees with the size the encoding uses. */
  predicate KeywordIs(o: Operand, size: nat) { o.OMem? && o.size.Some? ==> o.size.value == size }

  /** A 32-bit immediate of a 64-bit operation is sign-extended by the processor. */
  predicate ImmSurvives(a: Operand, b: Operand, imm: int) { b.OImm? && WrittenSize(a, b) == 8 ==> FitsI32(imm) }

  predicate FaithfulTwo(m: Mnemonic, a: Operand, b: Operand, imm: int)
    requires !m.Zero? && !IsUnary(m)
  {
    var size := WrittenSize(a, b);
    match m
    case Mov => KeywordIs(a, size) && KeywordIs(b, size) && (a.OMem? ==> ImmSurvives(a, b, imm))
    case Alu(_) => KeywordIs(a, size) && KeywordIs(b, size) && ImmSurvives(a, b, imm)
    case Test => KeywordIs(a, size) && KeywordIs(b, size) && ImmSurvives(a, b, imm)
    case Xchg => KeywordIs(a, size) && KeywordIs(b, size)
    case Imul => KeywordIs(b, size) && (b.OReg? ==> b.reg.size == size)
    case Lea => true
    case Movzx => HasUniformByte(a, b)
    case Movsx => HasUniformByte(a, b)
    case Movd => KeywordIs(a, 4) && KeywordIs(b, 4) && (a.OReg? ==> a.reg.size == 4) && (b.OReg? ==> b.reg.size == 4)
    case Movq => KeywordIs(a, 8) && KeywordIs(b, 8) && (a.OReg? ==> a.reg.size == 8) && (b.OReg? ==> b.reg.size == 8)
    case Shift(_) => true
    case Sse(op) =>
      && KeywordIs(a, SseMemSize(op)) && KeywordIs(b, SseMemSize(op))
      && (ConvertsFromInt(op) ==> !b.OXmm?) && (ConvertsToInt(op) ==> !a.OXmm?)
  }

  /** spl, bpl, sil and dil exist only under a REX prefix; the encoder adds one only for other reasons. */
  predicate HasUniformByte(a: Operand, b: Operand) {
    b.OImm? && ByteRegister(b.text).Some? && 4 <= ByteRegister(b.text).value < 8
    ==> a.OReg? && (a.reg.size == 8 || a.reg.num >= 8)
  }

  predicate Faithful(m: Mnemonic, ops: seq<Operand>, imm: int)
    requires Parse(m, ops).Ok?
  {
    m.Zero? || IsUnary(m) || FaithfulTwo(m, ops[0], ops[1], imm)
  }

  // ----- Main results -----

  /** The decoder reads `bytes` as one instruction `i` and leaves exactly `suffix`. */
  ghost predicate ReadsAs(bytes: seq<byte>, i: D.Instr, suffix: seq<byte>) {
    D.Decode(bytes + suffix) == Some((i, suffix))
  }

  lemma Extend32Exact(imm: int, wide: bool)
    requires -0x8000_0000 <= imm <= 0xFFFF_FFFF
    ensures D.Extend32(imm % TWO32, if wide then 8 else 4) == (if wide then imm % TWO64 else imm % TWO32)
            <==> (wide ==> FitsI32(imm))
  {}

  /** The outcome of reading a two-operand form: some instruction, the written one exactly when faithful. */
  ghost predicate ReadsFaithfully(bytes: seq<byte>, suffix: seq<byte>, intended: D.Instr, faithful: bool) {
    && D.Decode(bytes + suffix).Some?
    && D.Decode(bytes + suffix).value.1 == suffix
    && (D.Decode(bytes + suffix).value.0 == intended <==> faithful)
  }

  lemma MovReads(a: Operand, b: Operand, imm: i64, suffix: seq<byte>)
    requires ParseMov(a, b).Ok?
    requires Encoding(ParseMov(a, b).value.repr, imm).Ok?
    ensures ReadsFaithfully(Encoding(ParseMov(a, b).value.repr, imm).value, suffix, IntendedTwo(Mov, a, b, imm),
                            FaithfulTwo(Mov, a, b, imm))
  {
    hide D.Decode, Encoding, LittleEndian;
    Pow256Values();
    match ParseMov(a, b).value.repr
    case MovRI(dst) => MovRIRoundTrip(dst, imm, suffix);
    case RmR(opcode, w, reg, rm) => RmRRoundTrip(opcode, w, reg, rm, imm, suffix);
    case RmI(opcode, digit, w, rm, width) =>
      RmIRoundTrip(opcode, digit, w, rm, width, imm, suffix);
      ImmInRange(opcode, digit, w, rm, imm);
      Extend32Exact(imm, w);
  }

  lemma ImmInRange(opcode: byte, digit: Digit, w: bool, rm: Rm, imm: i64)
    requires Encoding(RmI(opcode, digit, w, rm, 4), imm).Ok?
    ensures -0x8000_0000 <= imm <= 0xFFFF_FFFF
  {}

  /** The ALU table agrees with the opcode map: row, digit and the two directions. */
  lemma AluTable(op: D.AluOp)
    ensures var (opcode, digit) := AluCodes(op);
            && D.AluOfNumber(digit) == op && D.AluOfNumber(opcode / 8) == op && D.AluOfNumber((opcode + 2) / 8) == op
            && opcode % 8 == 1 && opcode + 2 < 0x40 && IsOpcode(opcode) && IsOpcode(opcode + 2)
            && D.HasModRm(false, opcode) && D.HasModRm(false, opcode + 2)
  {}

  lemma AluReads(op: D.AluOp, a: Operand, b: Operand, imm: i64, suffix: seq<byte>)
    requires ParseAlu(op, a, b).Ok?
    requires Encoding(ParseAlu(op, a, b).value.repr, imm).Ok?
    ensures ReadsFaithfully(Encoding(ParseAlu(op, a, b).value.repr, imm).value, suffix,
                            IntendedTwo(Alu(op), a, b, imm), FaithfulTwo(Alu(op), a, b, imm))
  {
    hide ReadsFaithfully, Encoding, IntendedTwo, FaithfulTwo;
    if b.OImm? {
      AluImmReads(op, a, b, imm, suffix);
    } else {
      AluRegReads(op, a, b, imm, suffix);
    }
  }

  lemma AluRegReads(op: D.AluOp, a: Operand, b: Operand, imm: i64, suffix: seq<byte>)
    requires ParseAlu(op, a, b).Ok? && !b.OImm?
    requires Encoding(ParseAlu(op, a, b).value.repr, imm).Ok?
    ensures ReadsFaithfully(Encoding(ParseAlu(op, a, b).value.repr, imm).value, suffix,
                            IntendedTwo(Alu(op), a, b, imm), FaithfulTwo(Alu(op), a, b, imm))
  {
    hide D.Decode, Encoding, LittleEndian, AluCodes, D.AluOfNumber;
    AluTable(op);
    var RmR(opcode, w, reg, rm) := ParseAlu(op, a, b).value.repr;
    RmRRoundTrip(opcode, w, reg, rm, imm, suffix);
  }

  lemma AluImmReads(op: D.AluOp, a: Operand, b: Operand, imm: i64, suffix: seq<byte>)
    requires ParseAlu(op, a, b).Ok? && b.OImm?
    requires Encoding(ParseAlu(op, a, b).value.repr, imm).Ok?
    ensures ReadsFaithfully(Encoding(ParseAlu(op, a, b).value.repr, imm).value, suffix,
                            IntendedTwo(Alu(op), a, b, imm), FaithfulTwo(Alu(op), a, b, imm))
  {
    hide D.Decode, Encoding, LittleEndian, AluCodes, D.AluOfNumber;
    Pow256Values();
    AluTable(op);
    var RmI(opcode, digit, w, rm, width) := ParseAlu(op, a, b).value.repr;
    RmIRoundTrip(opcode, digit, w, rm, width, imm, suffix);
    ImmInRange(opcode, digit, w, rm, imm);
    Extend32Exact(imm, w);
  }

  lemma TestReads(a: Operand, b: Operand, imm: i64, suffix: seq<byte>)
    requires ParseTest(a, b).Ok?
    requires Encoding(ParseTest(a, b).value.repr, imm).Ok?
    ensures ReadsFaithfully(Encoding(ParseTest(a, b).value.repr, imm).value, suffix, IntendedTwo(Test, a, b, imm),
                            FaithfulTwo(Test, a, b, imm))
  {
    hide D.Decode, Encoding, LittleEndian;
    Pow256Values();
    match ParseTest(a, b).value.repr
    case RmR(opcode, w, reg, rm) => RmRRoundTrip(opcode, w, reg, rm, imm, suffix);
    case RmI(opcode, digit, w, rm, width) =>
      RmIRoundTrip(opcode, digit, w, rm, width, imm, suffix);
      ImmInRange(opcode, digit, w, rm, imm);
      Extend32Exact(imm, w);
  }

  lemma XchgReads(a: Operand, b: Operand, imm: i64, suffix: seq<byte>)
    requires ParseXchg(a, b).Ok?
    requires Encoding(ParseXchg(a, b).value.repr, imm).Ok?
    ensures ReadsFaithfully(Encoding(ParseXchg(a, b).value.repr, imm).value, suffix, IntendedTwo(Xchg, a, b, imm),
                            FaithfulTwo(Xchg, a, b, imm))
  {
    hide D.Decode, Encoding, LittleEndian;
    var RmR(opcode, w, reg, rm) := ParseXchg(a, b).value.repr;
    RmRRoundTrip(opcode, w, reg, rm, imm, suffix);
  }

  lemma LeaReads(a: Operand, b: Operand, imm: i64, suffix: seq<byte>)
    requires ParseLea(a, b).Ok?
    requires Encoding(ParseLea(a, b).value.repr, imm).Ok?
    ensures ReadsFaithfully(Encoding(ParseLea(a, b).value.repr, imm).value, suffix, IntendedTwo(Lea, a, b, imm), true)
  {
    hide D.Decode, Encoding, LittleEndian;
    var RmR(opcode, w, reg, rm) := ParseLea(a, b).value.repr;
    RmRRoundTrip(opcode, w, reg, rm, imm, suffix);
  }

  lemma ImulReads(a: Operand, b: Operand, imm: i64, suffix: seq<byte>)
    requires ParseImul(a, b).Ok?
    requires Encoding(ParseImul(a, b).value.repr, imm).Ok?
    ensures ReadsFaithfully(Encoding(ParseImul(a, b).value.repr, imm).value, suffix, IntendedTwo(Imul, a, b, imm),
                            FaithfulTwo(Imul, a, b, imm))
  {
    hide D.Decode, Encoding, LittleEndian;
    var Sse(prefix, opcode, w, reg, rm) := ParseImul(a, b).value.repr;
    SseRoundTrip(prefix, opcode, w, reg, rm, imm, suffix);
  }

  lemma MovxReads(m: Mnemonic, a: Operand, b: Operand, imm: i64, suffix: seq<byte>)
    requires m == Movzx || m == Movsx
    requires ParseTwo(m, a, b).Ok?
    requires Encoding(ParseTwo(m, a, b).value.repr, imm).Ok?
    ensures ReadsFaithfully(Encoding(ParseTwo(m, a, b).value.repr, imm).value, suffix, IntendedTwo(m, a, b, imm),
                            FaithfulTwo(m, a, b, imm))
  {
    hide D.Decode, Encoding, LittleEndian, ByteRegister, WordRegister;
    var Sse(prefix, opcode, w, reg, rm) := ParseTwo(m, a, b).value.repr;
    SseRoundTrip(prefix, opcode, w, reg, rm, imm, suffix);
  }

  lemma MovdqReads(m: Mnemonic, a: Operand, b: Operand, imm: i64, suffix: seq<byte>)
    requires m == Movd || m == Movq
    requires ParseTwo(m, a, b).Ok?
    requires Encoding(ParseTwo(m, a, b).value.repr, imm).Ok?
    ensures ReadsFaithfully(Encoding(ParseTwo(m, a, b).value.repr, imm).value, suffix, IntendedTwo(m, a, b, imm),
                            FaithfulTwo(m, a, b, imm))
  {
    hide D.Decode, Encoding, LittleEndian;
    var Sse(prefix, opcode, w, reg, rm) := ParseTwo(m, a, b).value.repr;
    SseRoundTrip(prefix, opcode, w, reg, rm, imm, suffix);
  }

  /** The SSE table agrees with the opcode map in both directions. */
  lemma SseTable(op: D.SseOp)
    ensures var (prefix, load, store) := SseCodes(op);
            && (prefix.Some? ==> prefix.value in {0x66, 0xF2, 0xF3})
            && load < 0x60
            && D.SseOfCode(prefix, load) == Some((op, D.Load))
            && (store.Some? ==> store.value < 0x60 && D.SseOfCode(prefix, store.value) == Some((op, D.Store)))
            && (ConvertsFromInt(op) || ConvertsToInt(op) ==> store == None)
  {}

  lemma SseInterpreted(prefix: Option<byte>, rex: D.Rex, opcode: byte, reg: RegNum, place: D.Place, suffix: seq<byte>,
                       op: D.SseOp, dir: D.Direction)
    requires opcode < 0x60 && D.SseOfCode(prefix, opcode) == Some((op, dir))
    ensures Interpreted(prefix, rex, true, opcode, reg, place, 0, suffix)
            == Some((D.SseInstr(op, dir, rex, reg, place), suffix))
  {}

  lemma SseFromIntReads(op: D.SseOp, a: Operand, b: Operand, imm: i64, suffix: seq<byte>)
    requires ConvertsFromInt(op)
    requires ParseSse(op, a, b).Ok?
    requires Encoding(ParseSse(op, a, b).value.repr, imm).Ok?
    ensures ReadsFaithfully(Encoding(ParseSse(op, a, b).value.repr, imm).value, suffix,
                            IntendedTwo(Mnemonic.Sse(op), a, b, imm), FaithfulTwo(Mnemonic.Sse(op), a, b, imm))
  {
    hide D.Decode, Encoding, LittleEndian, SseCodes, D.SseOfCode, D.SseMemSize, Interpreted;
    SseTable(op);
    var Sse(prefix, opcode, w, reg, rm) := ParseSse(op, a, b).value.repr;
    SseRoundTrip(prefix, opcode, w, reg, rm, imm, suffix);
    SseInterpreted(prefix, RexFor(w, reg, rm), opcode, reg, PlaceOf(rm), suffix, op,
                   D.SseOfCode(prefix, opcode).value.1);
  }

  lemma SseToIntReads(op: D.SseOp, a: Operand, b: Operand, imm: i64, suffix: seq<byte>)
    requires ConvertsToInt(op)
    requires ParseSse(op, a, b).Ok?
    requires Encoding(ParseSse(op, a, b).value.repr, imm).Ok?
    ensures ReadsFaithfully(Encoding(ParseSse(op, a, b).value.repr, imm).value, suffix,
                            IntendedTwo(Mnemonic.Sse(op), a, b, imm), FaithfulTwo(Mnemonic.Sse(op), a, b, imm))
  {
    hide D.Decode, Encoding, LittleEndian, SseCodes, D.SseOfCode, D.SseMemSize, Interpreted;
    SseTable(op);
    var Sse(prefix, opcode, w, reg, rm) := ParseSse(op, a, b).value.repr;
    SseRoundTrip(prefix, opcode, w, reg, rm, imm, suffix);
    SseInterpreted(prefix, RexFor(w, reg, rm), opcode, reg, PlaceOf(rm), suffix, op,
                   D.SseOfCode(prefix, opcode).value.1);
  }

  lemma SseRegLoadReads(op: D.SseOp, a: Operand, b: Operand, imm: i64, suffix: seq<byte>)
    requires !ConvertsFromInt(op) && !ConvertsToInt(op) && a.OXmm? && b.OXmm?
    requires ParseSse(op, a, b).Ok?
    requires Encoding(ParseSse(op, a, b).value.repr, imm).Ok?
    ensures ReadsFaithfully(Encoding(ParseSse(op, a, b).value.repr, imm).value, suffix,
                            IntendedTwo(Mnemonic.Sse(op), a, b, imm), FaithfulTwo(Mnemonic.Sse(op), a, b, imm))
  {
    hide D.Decode, Encoding, LittleEndian, SseCodes, D.SseOfCode, D.SseMemSize, Interpreted, RexFor, EncodeRm,
            EncodeMem;
    SseTable(op);
    var Sse(prefix, opcode, w, reg, rm) := ParseSse(op, a, b).value.repr;
    SseRoundTrip(prefix, opcode, w, reg, rm, imm, suffix);
    SseInterpreted(prefix, RexFor(w, reg, rm), opcode, reg, PlaceOf(rm), suffix, op, D.Load);
  }

  lemma SseMemLoadReads(op: D.SseOp, a: Operand, b: Operand, imm: i64, suffix: seq<byte>)
    requires !ConvertsFromInt(op) && !ConvertsToInt(op) && a.OXmm? && !b.OXmm?
    requires ParseSse(op, a, b).Ok?
    requires Encoding(ParseSse(op, a, b).value.repr, imm).Ok?
    ensures ReadsFaithfully(Encoding(ParseSse(op, a, b).value.repr, imm).value, suffix,
                            IntendedTwo(Mnemonic.Sse(op), a, b, imm), FaithfulTwo(Mnemonic.Sse(op), a, b, imm))
  {
    hide D.Decode, Encoding, LittleEndian, SseCodes, D.SseOfCode, D.SseMemSize, Interpreted, RexFor, EncodeRm,
            EncodeMem;
    SseTable(op);
    var Sse(prefix, opcode, w, reg, rm) := ParseSse(op, a, b).value.repr;
    SseRoundTrip(prefix, opcode, w, reg, rm, imm, suffix);
    SseInterpreted(prefix, RexFor(w, reg, rm), opcode, reg, PlaceOf(rm), suffix, op, D.Load);
  }

  lemma SseStoreReads(op: D.SseOp, a: Operand, b: Operand, imm: i64, suffix: seq<byte>)
    requires !ConvertsFromInt(op) && !ConvertsToInt(op) && !a.OXmm?
    requires ParseSse(op, a, b).Ok?
    requires Encoding(ParseSse(op, a, b).value.repr, imm).Ok?
    ensures ReadsFaithfully(Encoding(ParseSse(op, a, b).value.repr, imm).value, suffix,
                            IntendedTwo(Mnemonic.Sse(op), a, b, imm), FaithfulTwo(Mnemonic.Sse(op), a, b, imm))
  {
    hide D.Decode, Encoding, LittleEndian, SseCodes, D.SseOfCode, D.SseMemSize, Interpreted, RexFor, EncodeRm,
            EncodeMem;
    SseTable(op);
    var Sse(prefix, opcode, w, reg, rm) := ParseSse(op, a, b).value.repr;
    SseRoundTrip(prefix, opcode, w, reg, rm, imm, suffix);
    SseInterpreted(prefix, RexFor(w, reg, rm), opcode, reg, PlaceOf(rm), suffix, op, D.Store);
  }

  lemma SseReads(op: D.SseOp, a: Operand, b: Operand, imm: i64, suffix: seq<byte>)
    requires ParseSse(op, a, b).Ok?
    requires Encoding(ParseSse(op, a, b).value.repr, imm).Ok?
    ensures ReadsFaithfully(Encoding(ParseSse(op, a, b).value.repr, imm).value, suffix,
                            IntendedTwo(Mnemonic.Sse(op), a, b, imm), FaithfulTwo(Mnemonic.Sse(op), a, b, imm))
  {
    hide ReadsFaithfully, Encoding, IntendedTwo, FaithfulTwo, ParseSse;
    if ConvertsFromInt(op) {
      SseFromIntReads(op, a, b, imm, suffix);
    } else if ConvertsToInt(op) {
      SseToIntReads(op, a, b, imm, suffix);
    } else if a.OXmm? && b.OXmm? {
      SseRegLoadReads(op, a, b, imm, suffix);
    } else if a.OXmm? {
      SseMemLoadReads(op, a, b, imm, suffix);
    } else {
      SseStoreReads(op, a, b, imm, suffix);
    }
  }

  lemma ShiftTable(op: ShiftName)
    ensures D.ShiftOfNumber(ShiftDigit(op)) == Some(WrittenShift(op))
  {}

  lemma ShiftReads(op: ShiftName, a: Operand, b: Operand, imm: i64, suffix: seq<byte>)
    requires ParseShift(op, a, b).Ok?
    requires Encoding(ParseShift(op, a, b).value.repr, imm).Ok?
    ensures ReadsFaithfully(Encoding(ParseShift(op, a, b).value.repr, imm).value, suffix,
                            IntendedTwo(Shift(op), a, b, imm), true)
  {
    hide D.Decode, Encoding, LittleEndian, ShiftDigit, D.ShiftOfNumber, WrittenShift, IsCl;
    Pow256Values();
    ShiftTable(op);
    var RmI(opcode, digit, w, rm, width) := ParseShift(op, a, b).value.repr;
    RmIRoundTrip(opcode, digit, w, rm, width, imm, suffix);
  }

  lemma UnaryReads(op: D.UnaryOp, a: Operand, imm: i64, suffix: seq<byte>)
    requires ParseUnary(op, a).Ok?
    requires Encoding(ParseUnary(op, a).value.repr, imm).Ok?
    ensures ReadsAs(Encoding(ParseUnary(op, a).value.repr, imm).value, D.I1(D.Unary(op), Written(a, 4, imm)), suffix)
  {
    hide D.Decode, Encoding, LittleEndian;
    var RmI(opcode, digit, w, rm, width) := ParseUnary(op, a).value.repr;
    RmIRoundTrip(opcode, digit, w, rm, width, imm, suffix);
  }

  lemma ZeroReads(op: D.ZeroOp, imm: i64, suffix: seq<byte>)
    ensures Encoding(ZeroForm(op), imm).Ok?
    ensures ReadsAs(Encoding(ZeroForm(op), imm).value, D.I0(D.Zero(op)), suffix)
  {
    hide LittleEndian, D.AluOfNumber, D.SseOfCode, D.ShiftOfNumber;
    var s := Encoding(ZeroForm(op), imm).value + suffix;
    if op == D.CqoOp {
      assert s[1..] == [0x99] + suffix && s[1..][1..] == suffix;
    } else {
      assert s[1..] == suffix;
    }
  }

  lemma TwoReads(m: Mnemonic, a: Operand, b: Operand, imm: i64, suffix: seq<byte>)
    requires !m.Zero? && !IsUnary(m)
    requires ParseTwo(m, a, b).Ok?
    requires Encoding(ParseTwo(m, a, b).value.repr, imm).Ok?
    ensures ReadsFaithfully(Encoding(ParseTwo(m, a, b).value.repr, imm).value, suffix, IntendedTwo(m, a, b, imm),
                            FaithfulTwo(m, a, b, imm))
  {
    hide ReadsFaithfully, Encoding, IntendedTwo;
    match m
    case Mov => MovReads(a, b, imm, suffix);
    case Lea => LeaReads(a, b, imm, suffix);
    case Test => TestReads(a, b, imm, suffix);
    case Xchg => XchgReads(a, b, imm, suffix);
    case Imul => ImulReads(a, b, imm, suffix);
    case Movzx => MovxReads(m, a, b, imm, suffix);
    case Movsx => MovxReads(m, a, b, imm, suffix);
    case Movd => MovdqReads(m, a, b, imm, suffix);
    case Movq => MovdqReads(m, a, b, imm, suffix);
    case Shift(op) => ShiftReads(op, a, b, imm, suffix);
    case Sse(op) => SseReads(op, a, b, imm, suffix);
    case Alu(op) => AluReads(op, a, b, imm, suffix);
  }

  /** The whole assembler, instruction by instruction: whatever the parser accepts and the encoder can
      encode decodes to one instruction with nothing of the suffix consumed, and it is the written
      instruction if and only if `Faithful` holds. */
  lemma AssembledMeansWritten(m: Mnemonic, ops: seq<Operand>, imm: i64, suffix: seq<byte>)
    requires Parse(m, ops).Ok?
    requires Encoding(Parse(m, ops).value.repr, imm).Ok?
    ensures ReadsFaithfully(Encoding(Parse(m, ops).value.repr, imm).value, suffix, Intended(m, ops, imm),
                            Faithful(m, ops, imm))
  {
    hide D.Decode, Encoding, ParseTwo, ParseUnary, ParseStack, IntendedTwo, FaithfulTwo;
    if m.Zero? {
      ZeroReads(m.zero, imm, suffix);
    } else if m.Unary? {
      UnaryReads(m.unary, ops[0], imm, suffix);
    } else if IsUnary(m) {
      StackReads(m, ops[0], imm, suffix);
    } else {
      TwoReads(m, ops[0], ops[1], imm, suffix);
    }
  }

  lemma StackReads(m: Mnemonic, a: Operand, imm: i64, suffix: seq<byte>)
    requires m.Push? || m.Pop?
    requires Parse(m, [a]).Ok?
    ensures Encoding(Parse(m, [a]).value.repr, imm).Ok?
    ensures ReadsAs(Encoding(Parse(m, [a]).value.repr, imm).value, Intended(m, [a], imm), suffix)
  {
    hide D.Decode;
    assert Parse(m, [a]) == ParseStack(m.Push?, a);
    PushPopRoundTrip(a.reg.num, imm, suffix);
  }
}
