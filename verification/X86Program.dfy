/** Instruction lists: linear-sweep disassembly inverts assembly, and no two programs share their bytes. */
module X86Program {
  import opened Wrappers
  import opened Bytes
  import opened X86Encoder
  import opened X86Parser
  import opened Texts
  import opened X86Meaning
  import X86RoundTrip
  import D = X86Decoder

  /** One source line with its resolved immediate. */
  datatype Statement = Statement(mnem: Mnemonic, ops: seq<Operand>, imm: i64)

  predicate Assembles(st: Statement) {
    Parse(st.mnem, st.ops).Ok? && Encoding(Parse(st.mnem, st.ops).value.repr, st.imm).Ok?
  }

  function Code(st: Statement): seq<byte>
    requires Assembles(st)
  {
    Encoding(Parse(st.mnem, st.ops).value.repr, st.imm).value
  }

  function Meaning(st: Statement): D.Instr
    requires Assembles(st)
  {
    Intended(st.mnem, st.ops, st.imm)
  }

  predicate IsFaithful(st: Statement)
    requires Assembles(st)
  {
    Faithful(st.mnem, st.ops, st.imm)
  }

  ghost predicate AllAssemble(p: seq<Statement>) { forall i :: 0 <= i < |p| ==> Assembles(p[i]) }

  function ProgramCode(p: seq<Statement>): seq<byte>
    requires AllAssemble(p)
  {
    if p == [] then [] else Code(p[0]) + ProgramCode(p[1..])
  }

  /** Sweeping over the code of a program finds exactly its instructions, one for one, each the
      written one exactly when the statement is faithful; then the sweep goes on with the suffix. */
  lemma {:induction false} SweepRecoversProgram(p: seq<Statement>, suffix: seq<byte>)
    requires AllAssemble(p)
    requires D.Disassemble(suffix).Some?
    ensures var d := D.Disassemble(ProgramCode(p) + suffix);
            && d.Some? && |d.value| == |p| + |D.Disassemble(suffix).value|
            && d.value[|p|..] == D.Disassemble(suffix).value
            && (forall i :: 0 <= i < |p| ==> (d.value[i] == Meaning(p[i]) <==> IsFaithful(p[i])))
  {
    hide D.Decode, Code, Meaning, IsFaithful;
    if p == [] {
      assert ProgramCode(p) + suffix == suffix;
    } else {
      var rest := ProgramCode(p[1..]) + suffix;
      SweepRecoversProgram(p[1..], suffix);
      StatementReads(p[0], rest);
      assert ProgramCode(p) + suffix == Code(p[0]) + rest;
      var i := D.Decode(Code(p[0]) + rest).value.0;
      assert Code(p[0]) + rest != [] by {
        if Code(p[0]) + rest == [] {
          EmptyDoesNotDecode();
        }
      }
      var tail := D.Disassemble(rest).value;
      var d := D.Disassemble(ProgramCode(p) + suffix).value;
      assert d == [i] + tail;
      assert d[|p|..] == tail[|p[1..]|..];
      forall k | 0 <= k < |p| ensures d[k] == Meaning(p[k]) <==> IsFaithful(p[k]) {
        if k > 0 {
          assert d[k] == tail[k - 1] && p[k] == p[1..][k - 1];
        }
      }
    }
  }

  lemma EmptyDoesNotDecode()
    ensures D.Decode([]).None?
  {}

  lemma StatementReads(st: Statement, suffix: seq<byte>)
    requires Assembles(st)
    ensures ReadsFaithfully(Code(st), suffix, Meaning(st), IsFaithful(st))
  {
    hide D.Decode, Encoding, Parse, ReadsFaithfully;
    AssembledMeansWritten(st.mnem, st.ops, st.imm, suffix);
  }

  /** The written instructions of a program. */
  function Meanings(p: seq<Statement>): (r: seq<D.Instr>)
    requires AllAssemble(p)
    ensures |r| == |p| && forall i :: 0 <= i < |p| ==> r[i] == Meaning(p[i])
  {
    if p == [] then [] else [Meaning(p[0])] + Meanings(p[1..])
  }

  /** Disassembling the code of a program gives back the written instructions exactly when every
      statement is faithful. */
  lemma DisassembleInvertsAssemble(p: seq<Statement>)
    requires AllAssemble(p)
    ensures D.Disassemble(ProgramCode(p)).Some?
    ensures D.Disassemble(ProgramCode(p)) == Some(Meanings(p)) <==> (forall i :: 0 <= i < |p| ==> IsFaithful(p[i]))
  {
    hide D.Decode, Code, Meaning, IsFaithful;
    SweepRecoversProgram(p, []);
    assert ProgramCode(p) + [] == ProgramCode(p);
    var d := D.Disassemble(ProgramCode(p)).value;
    assert |d| == |p|;
    if forall i :: 0 <= i < |p| ==> IsFaithful(p[i]) {
      assert d == Meanings(p);
    }
    if d == Meanings(p) {
      forall i | 0 <= i < |p| ensures IsFaithful(p[i]) {
        assert d[i] == Meaning(p[i]);
      }
    }
  }

  /** Programs with different instructions never share a byte stream. */
  lemma ProgramsAreUnambiguous(p: seq<Statement>, q: seq<Statement>)
    requires AllAssemble(p) && AllAssemble(q)
    requires forall i :: 0 <= i < |p| ==> IsFaithful(p[i])
    requires forall i :: 0 <= i < |q| ==> IsFaithful(q[i])
    requires ProgramCode(p) == ProgramCode(q)
    ensures Meanings(p) == Meanings(q)
  {
    hide D.Decode, Code, Meaning, IsFaithful;
    DisassembleInvertsAssemble(p);
    DisassembleInvertsAssemble(q);
  }

  /** The code is prefix-free: an instruction whose bytes start another one's has the same bytes. */
  lemma CodeIsPrefixFree(s: Statement, t: Statement)
    requires Assembles(s) && Assembles(t)
    requires Code(s) <= Code(t)
    ensures Code(s) == Code(t)
  {
    hide D.Decode, Code, Meaning, IsFaithful;
    var rest := Code(t)[|Code(s)|..];
    assert Code(t) == Code(s) + rest && Code(t) == Code(t) + [];
    StatementReads(s, rest);
    StatementReads(t, []);
  }

  // ----- Memory operands at run time -----

  /** The address an instruction accesses, computed by the processor modulo 2^64. */
  function AddressOf(place: D.Place, registers: seq<u64>, next: u64): u64
    requires |registers| == 16 && !place.Direct?
  {
    match place
    case Based(base, index, scale, disp) =>
      (registers[base] + (if index.Some? then registers[index.value] * scale else 0) + disp) % TWO64
    case Baseless(index, scale, disp) => ((if index.Some? then registers[index.value] * scale else 0) + disp) % TWO64
    case RipRelative(disp) => (next + disp) % TWO64
  }

  /** The address the source operand stands for. */
  function EffectiveAddress(m: Mem, registers: seq<u64>): u64
    requires |registers| == 16
  {
    (registers[m.base] + (if m.index.Some? then registers[m.index.value] * m.scale else 0) + m.disp) % TWO64
  }

  /** Every memory operand the encoder accepts is accessed at the address it denotes. */
  lemma EffectiveAddressPreserved(m: Mem, rex: D.Rex, registers: seq<u64>, next: u64, suffix: seq<byte>)
    requires |registers| == 16
    requires EncodeMem(m).Ok?
    requires rex.x == EncodeMem(m).value.rexX && rex.b == EncodeMem(m).value.rexB
    ensures var e := EncodeMem(m).value;
            var d := D.DecodeMemory(e.mode, e.rmField, rex, SibBytes(e.sib) + e.disp + suffix);
            && d.Some? && d.value.1 == suffix && d.value.0.Based?
            && AddressOf(d.value.0, registers, next) == EffectiveAddress(m, registers)
  {
    hide D.DecodeMemory, EncodeMem;
    X86RoundTrip.MemRoundTrip(m, rex, suffix);
  }

  // ----- Where faithfulness fails -----

  lemma SilIsByteRegister6()
    ensures ByteRegister("sil") == Some(6)
  {
    var names := BYTE_REGISTERS;
    assert ToLower("sil") == "sil";
    assert names[6] == "sil";
    PositionFrom(names, "sil", 0, 6);
    assert names[0..] == names;
  }

  /** movzx eax, sil is assembled without REX and reads dh instead. */
  lemma MovzxSilReadsDh()
    ensures var st := Statement(Movzx, [OReg(GReg(0, 4)), OImm("sil")], 0);
            && Assembles(st) && !IsFaithful(st) && Code(st) == [0x0F, 0xB6, 0xC6]
            && D.Decode(Code(st)) == Some((D.I2(D.Movzx, D.Gpr(0, 4), D.HighByte(2)), []))
  {
    hide ByteRegister, WordRegister;
    SilIsByteRegister6();
    var code: seq<byte> := [0x0F, 0xB6, 0xC6];
    var repr := Repr.Sse(None, 0xB6, false, 0, Reg(6));
    assert Parse(Movzx, [OReg(GReg(0, 4)), OImm("sil")]).value.repr == repr;
    assert Encoding(repr, 0) == Ok(code) by {
      assert EncodeRm(Reg(6)) == Ok(RmEncoding(0, 0, 3, 6, []));
      assert ModRmBytes(false, [0x0F, 0xB6], 0, Reg(6)).value == code;
      assert PrefixBytes(None) + code == code;
    }
    DecodeMovzxDh(code);
  }

  lemma DecodeMovzxDh(code: seq<byte>)
    requires code == [0x0F, 0xB6, 0xC6]
    ensures D.Decode(code) == Some((D.I2(D.Movzx, D.Gpr(0, 4), D.HighByte(2)), []))
  {
    var rest := code[2..];
    assert rest == [0xC6];
    assert D.DecodeModRm(D.NO_REX, rest) == Some((0, D.Direct(6), rest[1..]));
    assert D.TakeUnsigned(rest[1..], 0).value.1 == [];
  }

  lemma {:induction false} PositionFrom(names: seq<string>, name: string, k: nat, hit: nat)
    requires k <= hit < |names| && names[hit] == name
    requires forall i :: 0 <= i < hit ==> names[i] != name
    ensures Position(names[k..], name) == Some(hit - k)
    decreases hit - k
  {
    if k < hit {
      PositionFrom(names, name, k + 1, hit);
      assert names[k..][1..] == names[k + 1..];
    }
  }
}
