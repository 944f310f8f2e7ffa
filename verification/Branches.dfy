/** Sizes fixed before symbols are known, rel32 arithmetic, and what resolved emissions decode to. */
module Branches {
  import opened Wrappers
  import opened Bytes
  import opened X86Encoder
  import opened Expressions
  import opened Assembler
  import P = X86Parser
  import M = X86Meaning
  import R = X86RoundTrip
  import D = X86Decoder

  /** Layout independence: whenever an emission resolves, whatever the symbols, the address or the
      immediate, it has exactly the length the layout pass reserved for it. */
  lemma ResolveHasLayoutSize(e: Emit, symbols: Symbols, addr: u64)
    requires Resolve(e, symbols, addr).Ok?
    ensures |Resolve(e, symbols, addr).value| == EmitSize(e)
  {
    hide Encoding, ParseExpr, P.Parse, LittleEndian;
    match e
    case Instr(m, ops) =>
      var insn := P.Parse(m, ops).value;
      var imm := if insn.imm.Some? then ParseExpr(symbols, insn.imm.value) else Ok(0);
      EncodingLengthIndependent(insn.repr, AsI64(imm.value));
    case _ =>
  }

  // ----- rel32 -----

  /** The signed distance from the end of a branch of `length` bytes to its target, modulo 2^64. */
  function Distance(target: u64, addr: u64, length: nat): i64 { AsI64(target - addr - length) }

  /** A branch can be written exactly when the distance from its end fits in 32 signed bits, and then
      the processor, adding the displacement to the address of the next instruction, reaches the target. */
  lemma RelBranchExact(opcode: seq<byte>, target: u64, addr: u64)
    ensures RelBranch(opcode, target, addr).Ok? <==> FitsI32(Distance(target, addr, |opcode| + 4))
    ensures var rel := Distance(target, addr, |opcode| + 4);
            FitsI32(rel) ==>
              && RelBranch(opcode, target, addr) == Ok(opcode + LittleEndian(rel, 4))
              && (addr + |opcode| + 4 + rel) % TWO64 == target
  {
    WrappedDifference(target, addr, |opcode| + 4);
  }

  lemma WrappedDifference(target: u64, addr: u64, length: nat)
    ensures AsI64(AsI64(target) - AsI64(AsI64(addr) + length)) == Distance(target, addr, length)
    ensures (addr + length + Distance(target, addr, length)) % TWO64 == target
  {
    hide AsI64;
    var i := AsI64Shift(target);
    var j := AsI64Shift(addr);
    var k := AsI64Shift(AsI64(addr) + length);
    var l := AsI64Shift(target - addr - length);
    AsI64Periodic(target - addr - length, j + k - i);
    assert AsI64(target) - AsI64(AsI64(addr) + length) == (target - addr - length) + TWO64 * (j + k - i);
    DivisionIsUnique(addr + length + Distance(target, addr, length), TWO64, -l, target);
  }

  /** Wrapping into i64 subtracts a multiple of 2^64. */
  lemma AsI64Shift(x: int) returns (k: int)
    ensures AsI64(x) == x - TWO64 * k
  {
    k := if x % TWO64 < TWO63 then x / TWO64 else x / TWO64 + 1;
  }

  lemma AsI64Periodic(x: int, k: int)
    ensures AsI64(x + TWO64 * k) == AsI64(x)
  {
    DivisionIsUnique(x + TWO64 * k, TWO64, x / TWO64 + k, x % TWO64);
  }

  /** Without wrap-around of the i64 sums the distance is the plain difference. */
  lemma DistanceWithoutOverflow(target: u64, addr: u64, length: nat)
    requires -TWO63 <= target - addr - length < TWO63
    ensures Distance(target, addr, length) == target - addr - length
  {}

  /** 0F 8x is taken when: the condition codes of volume 1, appendix B of the Intel manual. */
  datatype Flags = Flags(cf: bool, zf: bool, sf: bool, of: bool, pf: bool)

  function CodeHolds(cc: CondCode, f: Flags): bool {
    var base :=
      if cc / 2 == 0 then f.of else if cc / 2 == 1 then f.cf else if cc / 2 == 2 then f.zf
      else if cc / 2 == 3 then f.cf || f.zf else if cc / 2 == 4 then f.sf else if cc / 2 == 5 then f.pf
      else if cc / 2 == 6 then f.sf != f.of else f.zf || f.sf != f.of;
    if cc % 2 == 1 then !base else base
  }

  /** Conditional jump mnemonics, synonyms included. */
  datatype JccName =
    | Jo | Jno | Jb | Jc | Jnae | Jae | Jnb | Jnc | Je | Jz | Jne | Jnz | Jbe | Jna | Ja | Jnbe
    | Js | Jns | Jp | Jpe | Jnp | Jpo | Jl | Jnge | Jge | Jnl | Jle | Jng | Jg | Jnle

  function CcCode(name: JccName): CondCode {
    match name
    case Jo => 0x0
    case Jno => 0x1
    case Jb | Jc | Jnae => 0x2
    case Jae | Jnb | Jnc => 0x3
    case Je | Jz => 0x4
    case Jne | Jnz => 0x5
    case Jbe | Jna => 0x6
    case Ja | Jnbe => 0x7
    case Js => 0x8
    case Jns => 0x9
    case Jp | Jpe => 0xA
    case Jnp | Jpo => 0xB
    case Jl | Jnge => 0xC
    case Jge | Jnl => 0xD
    case Jle | Jng => 0xE
    case Jg | Jnle => 0xF
  }

  function Signed(x: int, half: int): int { if x < half then x else x - 2 * half }

  /** Flags after `cmp x, y` on operands of any width, 2 * half being 2 to that width. */
  function AfterCompare(x: int, y: int, half: int, pf: bool): Flags {
    var diff := if x >= y then x - y else x - y + 2 * half;
    Flags(x < y, x == y, diff >= half, Signed(x, half) - Signed(y, half) != Signed(diff, half), pf)
  }

  /** What the mnemonic says after `cmp x, y`: above/below are unsigned, greater/less signed. */
  function Means(name: JccName, x: int, y: int, half: int, pf: bool): bool {
    var sx, sy := Signed(x, half), Signed(y, half);
    match name
    case Je | Jz => x == y
    case Jne | Jnz => x != y
    case Jb | Jc | Jnae => x < y
    case Jae | Jnb | Jnc => x >= y
    case Jbe | Jna => x <= y
    case Ja | Jnbe => x > y
    case Jl | Jnge => sx < sy
    case Jge | Jnl => sx >= sy
    case Jle | Jng => sx <= sy
    case Jg | Jnle => sx > sy
    case Jo => !(-half <= sx - sy < half)
    case Jno => -half <= sx - sy < half
    case Js => (x >= y && x - y >= half) || (x < y && x - y >= -half)
    case Jns => !((x >= y && x - y >= half) || (x < y && x - y >= -half))
    case Jp | Jpe => pf
    case Jnp | Jpo => !pf
  }

  /** The condition code table gives every mnemonic, synonyms included, the meaning of its name. */
  lemma JccNamesMeanComparisons(name: JccName, x: int, y: int, half: int, pf: bool)
    requires 0 <= x < 2 * half && 0 <= y < 2 * half
    ensures CodeHolds(CcCode(name), AfterCompare(x, y, half, pf)) == Means(name, x, y, half, pf)
  {}

  // ----- Listings: decoded instructions with absolute branch targets -----

  datatype Listed = Plain(instr: D.Instr) | Branch(mnem: D.Mnemonic, target: u64)

  /** Relative displacements count from the next instruction. */
  function Locate(i: D.Instr, next: int): Listed {
    if i.I1? && i.op.Relative? then Branch(i.mnem, (next + i.op.disp) % TWO64) else Plain(i)
  }

  /** Linear-sweep disassembly of bytes found at an address. */
  function DisassembleAt(s: seq<byte>, addr: int): Option<seq<Listed>>
    decreases |s|
  {
    if s == [] then Some([]) else
    var (instr, rest) :- D.Decode(s);
    var next := addr + |s| - |rest|;
    var tail :- DisassembleAt(rest, next);
    Some([Locate(instr, next)] + tail)
  }

  /** Emissions that are instructions, as opposed to data. */
  predicate IsCode(e: Emit) { e.NopRun? || e.JmpRel? || e.CallRel? || e.Jcc? || e.Instr? }

  /** The value of the immediate that was written, 0 when there is none. */
  function ImmOf(e: Emit, symbols: Symbols): i64
    requires e.Instr?
  {
    match M.ImmText(e.mnem, e.ops)
    case None => 0
    case Some(text) => match ParseExpr(symbols, text) case Ok(v) => AsI64(v) case Err(_) => 0
  }

  predicate IsFaithfulEmit(e: Emit, symbols: Symbols) {
    e.Instr? && P.Parse(e.mnem, e.ops).Ok? ==> M.Faithful(e.mnem, e.ops, ImmOf(e, symbols))
  }

  /** The listing an emission was written to mean: branches by their target, instructions as written. */
  function ExpectedListing(e: Emit, symbols: Symbols): seq<Listed> {
    match e
    case NopRun(n) => seq(n, i => Plain(D.I0(D.Zero(D.NopOp))))
    case JmpRel(t) => if ParseExpr(symbols, t).Ok? then [Branch(D.Jmp, ParseExpr(symbols, t).value)] else []
    case CallRel(t) => if ParseExpr(symbols, t).Ok? then [Branch(D.Call, ParseExpr(symbols, t).value)] else []
    case Jcc(cc, t) => if ParseExpr(symbols, t).Ok? then [Branch(D.Jcc(cc), ParseExpr(symbols, t).value)] else []
    case Instr(m, ops) => if P.Parse(m, ops).Ok? then [Plain(M.Intended(m, ops, ImmOf(e, symbols)))] else []
    case _ => []
  }

  lemma DecodeRelBranch(opcode: seq<byte>, mnem: D.Mnemonic, rel: int, suffix: seq<byte>)
    requires FitsI32(rel)
    requires (opcode == [0xE9] && mnem == D.Jmp) || (opcode == [0xE8] && mnem == D.Call)
             || (|opcode| == 2 && opcode[0] == 0x0F && 0x80 <= opcode[1] < 0x90 && mnem == D.Jcc(opcode[1] - 0x80))
    ensures D.Decode(opcode + LittleEndian(rel, 4) + suffix) == Some((D.I1(mnem, D.Relative(rel)), suffix))
  {
    hide LittleEndian, SignedLittleEndian;
    Pow256Values();
    R.TakeSignedOfEncoded(rel, 4, suffix);
    var s := opcode + LittleEndian(rel, 4) + suffix;
    assert s[|opcode|..] == LittleEndian(rel, 4) + suffix;
    if |opcode| == 2 {
      assert s[0] == 0x0F && s[1] == opcode[1];
    } else {
      assert s[0] == opcode[0];
    }
  }

  /** One step of a listing. */
  lemma ListOne(bytes: seq<byte>, instr: D.Instr, suffix: seq<byte>, addr: int)
    requires D.Decode(bytes + suffix) == Some((instr, suffix))
    ensures DisassembleAt(bytes + suffix, addr)
            == (match DisassembleAt(suffix, addr + |bytes|)
                case Some(tail) => Some([Locate(instr, addr + |bytes|)] + tail)
                case None => None)
  {
    hide D.Decode;
    if bytes + suffix == [] {
      NothingDecodesFromNothing();
    }
  }

  lemma NothingDecodesFromNothing()
    ensures D.Decode([]).None?
  {}

  function Prepend(head: seq<Listed>, tail: Option<seq<Listed>>): Option<seq<Listed>> {
    match tail
    case Some(t) => Some(head + t)
    case None => None
  }

  lemma PrependNothing(tail: Option<seq<Listed>>)
    ensures Prepend([], tail) == tail
  {
    assert tail.Some? ==> [] + tail.value == tail.value;
  }

  lemma PrependTwice(a: seq<Listed>, b: seq<Listed>, tail: Option<seq<Listed>>)
    ensures Prepend(a, Prepend(b, tail)) == Prepend(a + b, tail)
  {
    assert tail.Some? ==> a + (b + tail.value) == (a + b) + tail.value;
  }

  lemma ListBranch(opcode: seq<byte>, mnem: D.Mnemonic, target: u64, addr: u64, suffix: seq<byte>)
    requires RelBranch(opcode, target, addr).Ok?
    requires (opcode == [0xE9] && mnem == D.Jmp) || (opcode == [0xE8] && mnem == D.Call)
             || (|opcode| == 2 && opcode[0] == 0x0F && 0x80 <= opcode[1] < 0x90 && mnem == D.Jcc(opcode[1] - 0x80))
    ensures var bytes := RelBranch(opcode, target, addr).value;
            DisassembleAt(bytes + suffix, addr)
              == Prepend([Branch(mnem, target)], DisassembleAt(suffix, addr + |bytes|))
  {
    hide D.Decode, LittleEndian;
    RelBranchExact(opcode, target, addr);
    var rel := Distance(target, addr, |opcode| + 4);
    DecodeRelBranch(opcode, mnem, rel, suffix);
    ListOne(opcode + LittleEndian(rel, 4), D.I1(mnem, D.Relative(rel)), suffix, addr);
  }

  lemma {:induction false} ListNops(n: nat, suffix: seq<byte>, addr: int)
    ensures DisassembleAt(Nops(n) + suffix, addr)
            == Prepend(seq(n, i => Plain(D.I0(D.Zero(D.NopOp)))), DisassembleAt(suffix, addr + n))
  {
    hide D.Decode, DisassembleAt;
    var nop := Plain(D.I0(D.Zero(D.NopOp)));
    if n == 0 {
      assert Nops(0) + suffix == suffix;
      assert seq(0, i => nop) == [];
      PrependNothing(DisassembleAt(suffix, addr));
    } else {
      assert Nops(n) == [0x90] + Nops(n - 1);
      assert Nops(n) + suffix == [0x90] + (Nops(n - 1) + suffix);
      DecodeNop(Nops(n - 1) + suffix);
      ListOne([0x90], D.I0(D.Zero(D.NopOp)), Nops(n - 1) + suffix, addr);
      ListNops(n - 1, suffix, addr + 1);
      assert seq(n, i => nop) == [nop] + seq(n - 1, i => nop);
      PrependTwice([nop], seq(n - 1, i => nop), DisassembleAt(suffix, addr + n));
    }
  }

  lemma DecodeNop(suffix: seq<byte>)
    ensures D.Decode([0x90] + suffix) == Some((D.I0(D.Zero(D.NopOp)), suffix))
  {
    assert ([0x90] + suffix)[1..] == suffix;
  }

  /** Intended instructions are never relative branches. */
  lemma IntendedIsPlain(m: P.Mnemonic, ops: seq<P.Operand>, imm: int, next: int)
    requires P.Parse(m, ops).Ok?
    ensures Locate(M.Intended(m, ops, imm), next) == Plain(M.Intended(m, ops, imm))
  {}

  lemma ListInstr(e: Emit, symbols: Symbols, addr: u64, suffix: seq<byte>)
    requires e.Instr? && Resolve(e, symbols, addr).Ok? && IsFaithfulEmit(e, symbols)
    ensures var bytes := Resolve(e, symbols, addr).value;
            DisassembleAt(bytes + suffix, addr)
              == Prepend(ExpectedListing(e, symbols), DisassembleAt(suffix, addr + |bytes|))
  {
    hide D.Decode, Encoding, P.Parse, ParseExpr, M.Intended, M.Faithful;
    M.ImmediateIsKept(e.mnem, e.ops);
    var imm := ImmOf(e, symbols);
    var bytes := Resolve(e, symbols, addr).value;
    assert bytes == Encoding(P.Parse(e.mnem, e.ops).value.repr, imm).value;
    M.AssembledMeansWritten(e.mnem, e.ops, imm, suffix);
    var i := M.Intended(e.mnem, e.ops, imm);
    ListOne(bytes, i, suffix, addr);
    IntendedIsPlain(e.mnem, e.ops, imm, addr + |bytes|);
  }

  /** Every code emission lists as what was written, with its branch target absolute. */
  lemma ListEmit(e: Emit, symbols: Symbols, addr: u64, suffix: seq<byte>)
    requires IsCode(e) && Resolve(e, symbols, addr).Ok? && IsFaithfulEmit(e, symbols)
    ensures var bytes := Resolve(e, symbols, addr).value;
            DisassembleAt(bytes + suffix, addr)
              == Prepend(ExpectedListing(e, symbols), DisassembleAt(suffix, addr + |bytes|))
  {
    hide DisassembleAt, ParseExpr, P.Parse, M.Intended, M.Faithful, RelBranch, InstrBytes;
    match e
    case NopRun(n) => ListNops(n, suffix, addr);
    case JmpRel(t) => ListBranch([0xE9], D.Jmp, ParseExpr(symbols, t).value, addr, suffix);
    case CallRel(t) => ListBranch([0xE8], D.Call, ParseExpr(symbols, t).value, addr, suffix);
    case Jcc(cc, t) => ListBranch([0x0F, 0x80 + cc], D.Jcc(cc), ParseExpr(symbols, t).value, addr, suffix);
    case Instr(m, ops) => ListInstr(e, symbols, addr, suffix);
  }

  // ----- When emissions resolve, and data -----

  /** Data resolves whenever its expression does: db to its bytes, a run of nops to that many bytes 90, dq and dd to
      the low 8 and 4 bytes of the value, least significant first. */
  lemma DataResolves(text: string, bytes: seq<byte>, n: nat, symbols: Symbols, addr: u64)
    ensures Resolve(Db(bytes), symbols, addr) == Ok(bytes)
    ensures Resolve(NopRun(n), symbols, addr) == Ok(seq(n, i => 0x90))
    ensures Resolve(Dq(text), symbols, addr).Ok? <==> ParseExpr(symbols, text).Ok?
    ensures Resolve(Dd(text), symbols, addr).Ok? <==> ParseExpr(symbols, text).Ok?
    ensures ParseExpr(symbols, text).Ok? ==>
              var dq, dd := Resolve(Dq(text), symbols, addr).value, Resolve(Dd(text), symbols, addr).value;
              && |dq| == 8 && FromLittleEndian(dq) == ParseExpr(symbols, text).value
              && |dd| == 4 && FromLittleEndian(dd) == ParseExpr(symbols, text).value % 0x1_0000_0000
  {
    Pow256Values();
    hide ParseExpr, LittleEndian, FromLittleEndian, Pow256;
    if ParseExpr(symbols, text).Ok? {
      LittleEndianRoundTrip(ParseExpr(symbols, text).value, 8);
      LittleEndianRoundTrip(ParseExpr(symbols, text).value, 4);
    }
  }

  /** A branch resolves if and only if its target evaluates and the distance from its end fits 32 signed bits. */
  lemma BranchResolvesIff(e: Emit, symbols: Symbols, addr: u64)
    requires e.JmpRel? || e.CallRel? || e.Jcc?
    ensures var target := ParseExpr(symbols, e.target);
            Resolve(e, symbols, addr).Ok?
            <==> target.Ok? && FitsI32(Distance(target.value, addr, if e.Jcc? then 6 else 5))
  {
    var target := ParseExpr(symbols, e.target);
    var opcode := if e.JmpRel? then [0xE9] else if e.CallRel? then [0xE8] else [0x0F, 0x80 + e.cc];
    if target.Ok? {
      RelBranchExact(opcode, target.value, addr);
    }
    hide ParseExpr, RelBranch, Distance, FitsI32, LittleEndian, InstrBytes, Nops, P.Parse;
  }

  /** An instruction resolves if and only if the parser accepts it, the text of its immediate evaluates, and it
      can be encoded with that value. */
  lemma InstrResolvesIff(m: P.Mnemonic, ops: seq<P.Operand>, symbols: Symbols, addr: u64)
    ensures Resolve(Instr(m, ops), symbols, addr).Ok? <==>
              && P.Parse(m, ops).Ok?
              && (M.ImmText(m, ops).Some? ==> ParseExpr(symbols, M.ImmText(m, ops).value).Ok?)
              && Encoding(P.Parse(m, ops).value.repr, ImmOf(Instr(m, ops), symbols)).Ok?
  {
    if P.Parse(m, ops).Ok? {
      M.ImmediateIsKept(m, ops);
    }
    hide ParseExpr, Encoding, P.Parse, M.ImmText;
  }

  /** jmp64 resolves whenever its target evaluates, and then reads as an indirect jump through the 8 bytes right
      after it, which hold the target. */
  lemma JmpAbsReadsTarget(text: string, symbols: Symbols, addr: u64, suffix: seq<byte>)
    ensures Resolve(JmpAbs(text), symbols, addr).Ok? <==> ParseExpr(symbols, text).Ok?
    ensures ParseExpr(symbols, text).Ok? ==>
              var bytes := Resolve(JmpAbs(text), symbols, addr).value;
              && |bytes| == 14 && FromLittleEndian(bytes[6..]) == ParseExpr(symbols, text).value
              && D.Decode(bytes + suffix) == Some((D.I1(D.Jmp, D.Memory(D.RipRelative(0), 8)), bytes[6..] + suffix))
  {
    Pow256Values();
    hide ParseExpr, D.Decode, LittleEndian, FromLittleEndian, Pow256;
    if ParseExpr(symbols, text).Ok? {
      var target := ParseExpr(symbols, text).value;
      LittleEndianRoundTrip(target, 8);
      var pointer := LittleEndian(target, 8);
      JmpAbsHeader(pointer + suffix);
      var bytes := Resolve(JmpAbs(text), symbols, addr).value;
      assert bytes[6..] == pointer;
      assert bytes + suffix == [0xFF, 0x25, 0, 0, 0, 0] + (pointer + suffix);
    }
  }

  lemma JmpAbsHeader(rest: seq<byte>)
    ensures D.Decode([0xFF, 0x25, 0, 0, 0, 0] + rest) == Some((D.I1(D.Jmp, D.Memory(D.RipRelative(0), 8)), rest))
  {
    var s := [0xFF, 0x25, 0, 0, 0, 0] + rest;
    assert LittleEndian(0, 4) == [0, 0, 0, 0] by {
      assert LittleEndian(0, 1) == [0] && LittleEndian(0, 2) == [0, 0] && LittleEndian(0, 3) == [0, 0, 0];
    }
    hide LittleEndian;
    Pow256Values();
    R.TakeSignedOfEncoded(0, 4, rest);
    assert s[1..][1..] == LittleEndian(0, 4) + rest;
    assert s[1..][0] == 0x25;
  }
}
