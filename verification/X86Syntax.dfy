/** Which statements the assembler accepts, instruction by instruction. */
module X86Syntax {
  import opened Wrappers
  import opened Bytes
  import opened X86Encoder
  import opened X86Parser
  import opened Texts
  import D = X86Decoder
  import M = X86Meaning

  // ----- Byte and word registers by their names -----

  /** The part of a register's name that all its sizes share, without the prefix of the wider ones. */
  function Stem(n: RegNum): string {
    if n < 4 then ["acdb"[n]]
    else if n < 8 then ["spbpsidi"[2 * n - 8], "spbpsidi"[2 * n - 7]]
    else if n < 10 then ['r', '0' + n as char]
    else ['r', '1', '0' + (n - 10) as char]
  }

  function ByteName(n: RegNum): string { Stem(n) + if n < 8 then "l" else "b" }

  function WordName(n: RegNum): string { Stem(n) + if n < 4 then "x" else if n < 8 then "" else "w" }

  lemma NamesByNumber()
    ensures forall n: RegNum :: BYTE_REGISTERS[n] == ByteName(n) && WORD_REGISTERS[n] == WordName(n)
  {
    forall n: RegNum ensures BYTE_REGISTERS[n] == ByteName(n) && WORD_REGISTERS[n] == WordName(n) {
      NameByNumber(n);
    }
  }

  lemma NameByNumber(n: RegNum)
    ensures BYTE_REGISTERS[n] == ByteName(n) && WORD_REGISTERS[n] == WordName(n)
  {}

  lemma StemsDiffer(n: RegNum, k: RegNum)
    requires n != k
    ensures ByteName(n) != ByteName(k) && WordName(n) != WordName(k)
  {
    ByteNamesDiffer(n, k);
    WordNamesDiffer(n, k);
  }

  lemma ByteNamesDiffer(n: RegNum, k: RegNum)
    requires n != k
    ensures ByteName(n) != ByteName(k)
  {
    var s, t := ByteName(n), ByteName(k);
    if n < 8 && k < 8 {
      assert |s| != |t| || s[0] != t[0] || s[1] != t[1];
    } else if n < 8 || k < 8 {
      assert s[|s| - 1] != t[|t| - 1];
    } else {
      assert |s| != |t| || s[1] != t[1] || s[2] != t[2];
    }
  }

  lemma WordNamesDiffer(n: RegNum, k: RegNum)
    requires n != k
    ensures WordName(n) != WordName(k)
  {
    var s, t := WordName(n), WordName(k);
    if n < 8 && k < 8 {
      assert s[0] != t[0] || s[1] != t[1];
    } else if n < 8 || k < 8 {
      assert |s| != |t|;
    } else {
      assert |s| != |t| || s[1] != t[1] || s[2] != t[2];
    }
  }

  /** A name stands for a byte or word register exactly when it is that register's name, in any case of letters. */
  lemma RegistersAreNamed(text: string, n: RegNum)
    ensures ByteRegister(text) == Some(n) <==> ToLower(text) == ByteName(n)
    ensures WordRegister(text) == Some(n) <==> ToLower(text) == WordName(n)
  {
    NamesByNumber();
    hide ToLower, ByteName, WordName;
    var b, w := ByteRegister(text), WordRegister(text);
    assert ToLower(text) == ByteName(n) ==> BYTE_REGISTERS[n] in BYTE_REGISTERS;
    assert ToLower(text) == WordName(n) ==> WORD_REGISTERS[n] in WORD_REGISTERS;
    if b.Some? && b.value != n {
      StemsDiffer(b.value, n);
    }
    if w.Some? && w.value != n {
      StemsDiffer(w.value, n);
    }
  }

  // ----- Operands -----

  /** Memory of which the size is not given, or is dword or qword. */
  predicate PlainMemory(o: Operand) { o.OMem? && (o.size.None? || o.size.value == 4 || o.size.value == 8) }

  predicate SameSize(a: Operand, b: Operand) { a.OReg? && b.OReg? && a.reg.size == b.reg.size }

  /** A register and memory, either way round. */
  predicate RegisterAndMemory(a: Operand, b: Operand) { (a.OReg? && b.OMem?) || (a.OMem? && b.OReg?) }

  predicate IsMove(op: D.SseOp) { op in {D.Movss, D.Movsd, D.Movups, D.Movupd, D.Movaps, D.Movapd} }

  /** Memory with a byte or word keyword, or the name of a byte or word register. */
  predicate NarrowSource(m: Mnemonic, o: Operand) {
    (o.OMem? && (o.size == Some(1) || o.size == Some(2))) || (o.OImm? && M.NamesRegister(m, o.text))
  }

  predicate AcceptsTwo(m: Mnemonic, a: Operand, b: Operand)
    requires !m.Zero? && !IsUnary(m)
  {
    match m
    case Mov => SameSize(a, b) || RegisterAndMemory(a, b) || ((a.OReg? || PlainMemory(a)) && b.OImm?)
    case Alu(_) => SameSize(a, b) || RegisterAndMemory(a, b) || ((a.OReg? || PlainMemory(a)) && b.OImm?)
    case Test => SameSize(a, b) || RegisterAndMemory(a, b) || ((a.OReg? || PlainMemory(a)) && b.OImm?)
    case Xchg => SameSize(a, b) || RegisterAndMemory(a, b)
    case Lea => a.OReg? && b.OMem?
    case Imul => a.OReg? && (b.OReg? || b.OMem?)
    case Shift(_) => (a.OReg? || PlainMemory(a)) && b.OImm?
    case Movd => (a.OXmm? && (b.OReg? || b.OMem?)) || ((a.OReg? || a.OMem?) && b.OXmm?)
    case Movq => (a.OXmm? && !b.OImm?) || ((a.OReg? || a.OMem?) && b.OXmm?)
    case Sse(op) =>
      || (a.OXmm? && (b.OXmm? || b.OMem? || (b.OReg? && op in {D.Cvtsi2ss, D.Cvtsi2sd})))
      || (a.OReg? && (b.OXmm? || b.OMem?) && op in {D.Cvttss2si, D.Cvttsd2si})
      || (a.OMem? && b.OXmm? && IsMove(op))
    case Movzx => a.OReg? && NarrowSource(m, b)
    case Movsx => a.OReg? && NarrowSource(m, b)
  }

  predicate Accepts(m: Mnemonic, ops: seq<Operand>) {
    if m.Zero? then true
    else if m.Unary? then |ops| == 1 && (ops[0].OReg? || PlainMemory(ops[0]))
    else if m.Push? || m.Pop? then |ops| == 1 && ops[0].OReg? && ops[0].reg.size == 8
    else |ops| == 2 && AcceptsTwo(m, ops[0], ops[1])
  }

  /** The parser accepts exactly these. */
  lemma ParserAccepts(m: Mnemonic, ops: seq<Operand>)
    ensures Parse(m, ops).Ok? <==> Accepts(m, ops)
  {
    hide ParseTwo, AcceptsTwo;
    if !m.Zero? && !IsUnary(m) && |ops| == 2 {
      ParserAcceptsTwo(m, ops[0], ops[1]);
    }
  }

  lemma ParserAcceptsTwo(m: Mnemonic, a: Operand, b: Operand)
    requires !m.Zero? && !IsUnary(m)
    ensures ParseTwo(m, a, b).Ok? <==> AcceptsTwo(m, a, b)
  {
    hide AluCodes, ByteRegister, WordRegister, IsCl, ShiftDigit;
    if m.Sse? {
      StoresAreMoves(m.sse);
    }
  }

  lemma StoresAreMoves(op: D.SseOp)
    ensures SseCodes(op).2.Some? <==> IsMove(op)
  {}
}
