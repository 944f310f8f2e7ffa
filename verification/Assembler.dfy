/**
 The auto assembler: a section is run in four passes over the script state and the target process.
 Each pass is a method over `AsmState` and `Process`, proved equal to a function on their values.
 Sums of addresses wrap at 2^64, as in a release build.
 */
module Assembler {
  import opened Wrappers
  import opened Bytes
  import opened ProcessMemory
  import opened X86Encoder
  import opened Expressions
  import P = X86Parser

  // ----- Emissions -----

  type CondCode = n: nat | n < 16

  datatype Emit =
    | Db(bytes: seq<byte>)
    | NopRun(count: nat)
    | JmpRel(target: string)
    | CallRel(target: string)
    | JmpAbs(target: string)
    | Jcc(cc: CondCode, target: string)
    | Dq(value: string)
    | Dd(value: string)
    | Instr(mnem: P.Mnemonic, ops: seq<P.Operand>)   // the operands its form was parsed from

  function EmitSize(e: Emit): nat {
    match e
    case Db(bytes) => |bytes|
    case NopRun(n) => n
    case JmpRel(_) => 5
    case CallRel(_) => 5
    case Jcc(_, _) => 6
    case JmpAbs(_) => 14
    case Dq(_) => 8
    case Dd(_) => 4
    case Instr(m, ops) => if P.Parse(m, ops).Ok? then Size(P.Parse(m, ops).value.repr) else 0
  }

  /** Opcode and rel32, measured from the end of the instruction. */
  function RelBranch(opcode: seq<byte>, target: u64, addr: u64): Encoded {
    var rel := AsI64(AsI64(target) - AsI64(AsI64(addr) + |opcode| + 4));
    if FitsI32(rel) then Ok(opcode + LittleEndian(rel, 4)) else Err(BranchOutOfRange)
  }

  function Nops(n: nat): (r: seq<byte>)
    ensures |r| == n
  {
    seq(n, i => 0x90)
  }

  function InstrBytes(insn: Insn, symbols: Symbols): Encoded {
    var imm :- if insn.imm.Some? then ParseExpr(symbols, insn.imm.value) else Ok(0);
    Encoding(insn.repr, AsI64(imm))
  }

  /** The bytes of an emission at its address, once every symbol is known. */
  function Resolve(e: Emit, symbols: Symbols, addr: u64): Encoded {
    match e
    case Db(bytes) => Ok(bytes)
    case NopRun(n) => Ok(Nops(n))
    case JmpRel(t) =>
      var target :- ParseExpr(symbols, t);
      RelBranch([0xE9], target, addr)
    case CallRel(t) =>
      var target :- ParseExpr(symbols, t);
      RelBranch([0xE8], target, addr)
    case Jcc(cc, t) =>
      var target :- ParseExpr(symbols, t);
      RelBranch([0x0F, 0x80 + cc], target, addr)
    case JmpAbs(t) =>
      var target :- ParseExpr(symbols, t);
      Ok([0xFF, 0x25, 0, 0, 0, 0] + LittleEndian(target, 8))
    case Dq(t) =>
      var value :- ParseExpr(symbols, t);
      Ok(LittleEndian(value, 8))
    case Dd(t) =>
      var value :- ParseExpr(symbols, t);
      Ok(LittleEndian(value, 4))
    case Instr(m, ops) =>
      var insn :- P.Parse(m, ops);
      InstrBytes(insn, symbols)
  }

  // ----- Script lines, after tokenizing -----

  /** `answer` fields hold what the operating system or the scan of the target returned. */
  datatype Line =
    | AnchorLine(name: string)
    | AllocLine(name: string, size: Option<u64>, near: Option<string>, answer: Option<u64>)
    | ScanLine(name: string, wellFormed: bool, answer: Option<u64>)
    | DeclarationLine
    | UnregisterLine(name: string)
    | DeallocLine(name: string)
    | UnknownLine
    | EmitLine(emit: Result<Emit, AsmError>)

  datatype Item = Anchor(name: string) | Emission(emit: Emit)
  datatype Defer = Dealloc(name: string) | Unregister(name: string)
  datatype Allocation = Allocation(name: string, addr: u64, size: u64)
  datatype Placed = Placed(addr: u64, emit: Emit)

  // ----- The target process -----

  /** Memory of the target and the blocks VirtualAllocEx gave out; the three logs record every call. */
  datatype Target = Target(mem: Memory, blocks: map<u64, u64>, granted: seq<u64>, freed: seq<u64>, badFrees: nat)

  predicate Within(k: int, addr: int, size: int) { addr <= k < addr + size }

  /** VirtualAllocEx: a non-null answer is a fresh block of zeroed, previously unmapped memory. */
  predicate CanGrant(t: Target, addr: u64, size: u64) {
    addr != 0 && addr !in t.blocks && addr + size <= TWO64 && !exists k :: k in t.mem && addr <= k < addr + size
  }

  function AfterAlloc(t: Target, addr: u64, size: u64): Target {
    t.(mem := t.mem + (map k: int | addr <= k < addr + size && Within(k, addr, size) :: 0),
       blocks := t.blocks[addr := size], granted := t.granted + [addr])
  }

  /** VirtualFreeEx with MEM_RELEASE: fails on anything but the base of a live block. */
  function AfterFree(t: Target, addr: u64): Target {
    if addr in t.blocks then
      t.(mem := map k | k in t.mem && !(addr <= k < addr + t.blocks[addr]) :: t.mem[k],
         blocks := map b | b in t.blocks && b != addr :: t.blocks[b],
         freed := t.freed + [addr])
    else t.(badFrees := t.badFrees + 1)
  }

  function AfterWrite(mem: Memory, addr: u64, bytes: seq<byte>): Memory {
    map k | k in mem :: if addr <= k < addr + |bytes| then bytes[k - addr] else mem[k]
  }

  lemma WriteReadsBack(mem: Memory, addr: u64, bytes: seq<byte>)
    requires CanRead(mem, addr, |bytes|)
    ensures ReadInto(AfterWrite(mem, addr, bytes), addr, |bytes|) == Some(bytes)
  {
    var mem' := AfterWrite(mem, addr, bytes);
    assert CanRead(mem', addr, |bytes|);
    var r := ReadInto(mem', addr, |bytes|).value;
    forall i | 0 <= i < |bytes| ensures r[i] == bytes[i] {
      assert mem'[addr + i] == bytes[i];
    }
    assert r == bytes;
  }

  class Process {
    var state: Target

    constructor (state: Target)
      ensures this.state == state
    {
      this.state := state;
    }

    /** A granted block starts unused, lies apart from every mapped byte, and is zeroed; all else stays. */
    method Alloc(size: u64, answer: Option<u64>) returns (r: Option<u64>)
      modifies this
      ensures r.Some? ==> r == answer && r.value != 0 && r.value !in old(state).blocks
      ensures r.Some? ==> state.blocks == old(state).blocks[r.value := size]
      ensures r.Some? ==> forall k :: r.value <= k < r.value + size ==>
                k !in old(state).mem && k in state.mem && state.mem[k] == 0
      ensures forall k :: k in old(state).mem ==> k in state.mem && state.mem[k] == old(state).mem[k]
      ensures forall k :: k in state.mem ==> k in old(state).mem || (r.Some? && r.value <= k < r.value + size)
      ensures r == (if answer.Some? && CanGrant(old(state), answer.value, size) then answer else None)
      ensures state == if r.Some? then AfterAlloc(old(state), r.value, size) else old(state)
    {
      if answer.Some? && CanGrant(state, answer.value, size) {
        state := AfterAlloc(state, answer.value, size);
        return answer;
      }
      return None;
    }

    /** The bytes of a live block leave memory, and the block the list; every other byte and block stays. An
        address that is no block changes nothing but the count of bad frees. */
    method Free(addr: u64)
      modifies this
      ensures addr in old(state).blocks ==>
                && (forall k :: k in state.mem <==>
                  k in old(state).mem && !(addr <= k < addr + old(state).blocks[addr]))
                && (forall b :: b in state.blocks <==> b in old(state).blocks && b != addr)
                && (forall b :: b in state.blocks ==> state.blocks[b] == old(state).blocks[b])
                && state.freed == old(state).freed + [addr] && state.badFrees == old(state).badFrees
      ensures addr !in old(state).blocks ==> state == old(state).(badFrees := old(state).badFrees + 1)
      ensures forall k :: k in state.mem ==> k in old(state).mem && state.mem[k] == old(state).mem[k]
      ensures state == AfterFree(old(state), addr)
    {
      state := AfterFree(state, addr);
    }

    /** Writes all the bytes, or nothing when some address is not mapped: what was written reads back, and
        every other byte, the mapping and the blocks stay. */
    method WriteCode(addr: u64, bytes: seq<byte>) returns (ok: bool)
      modifies this
      ensures ok <==> CanRead(old(state).mem, addr, |bytes|)
      ensures ok ==> ReadInto(state.mem, addr, |bytes|) == Some(bytes)
      ensures state.mem.Keys == old(state).mem.Keys && state == old(state).(mem := state.mem)
      ensures forall k :: k in state.mem && !(ok && addr <= k < addr + |bytes|) ==> state.mem[k] == old(state).mem[k]
      ensures state == if ok then old(state).(mem := AfterWrite(old(state).mem, addr, bytes)) else old(state)
    {
      ok := CanRead(state.mem, addr, |bytes|);
      if ok {
        WriteReadsBack(state.mem, addr, bytes);
        state := state.(mem := AfterWrite(state.mem, addr, bytes));
      }
    }
  }

  // ----- The passes as functions -----

  /** Script state and target together. */
  datatype World = World(symbols: Symbols, allocs: seq<Allocation>, target: Target)

  datatype Gathered = Gathered(items: seq<Item>, deferred: seq<Defer>)

  /** Effect of one line in pass 1. */
  function ExecuteLine(line: Line, w: World, g: Gathered): (World, Result<Gathered, AsmError>) {
    match line
    case AnchorLine(name) => (w, Ok(g.(items := g.items + [Anchor(name)])))
    case AllocLine(name, size, near, answer) =>
      if size.None? then (w, Err(MissingArgument))
      else if near.Some? && ParseExpr(w.symbols, near.value).Err? then (w, Err(ParseExpr(w.symbols, near.value).error))
      else if answer.None? || !CanGrant(w.target, answer.value, size.value) then (w, Err(AllocFailed))
      else
        (World(w.symbols[name := answer.value], w.allocs + [Allocation(name, answer.value, size.value)],
               AfterAlloc(w.target, answer.value, size.value)), Ok(g))
    case ScanLine(name, wellFormed, answer) =>
      if !wellFormed then (w, Err(MissingArgument))
      else if answer.None? then (w, Err(PatternNotFound))
      else (w.(symbols := w.symbols[name := answer.value]), Ok(g))
    case DeclarationLine => (w, Ok(g))
    case UnregisterLine(name) => (w, Ok(g.(deferred := g.deferred + [Unregister(name)])))
    case DeallocLine(name) => (w, Ok(g.(deferred := g.deferred + [Dealloc(name)])))
    case UnknownLine => (w, Err(UnknownCommand))
    case EmitLine(emit) =>
      if emit.Err? then (w, Err(emit.error)) else (w, Ok(g.(items := g.items + [Emission(emit.value)])))
  }

  /** Pass 1: commands take effect at once; anchors, emissions and deferred commands are gathered. */
  function Execute(lines: seq<Line>, w: World, g: Gathered): (World, Result<Gathered, AsmError>) {
    if lines == [] then (w, Ok(g)) else
    var (w', r) := ExecuteLine(lines[0], w, g);
    if r.Err? then (w', r) else Execute(lines[1..], w', r.value)
  }

  /** Where the layout pass stands: symbols bound so far, emissions placed so far, next address. */
  datatype Cursor = Cursor(symbols: Symbols, placed: seq<Placed>, at: Option<u64>)

  /** A bound anchor moves the cursor; an unbound one becomes a label at the cursor. */
  function LayoutItem(item: Item, c: Cursor): Result<Cursor, AsmError> {
    match item
    case Anchor(name) =>
      if name in c.symbols then Ok(c.(at := Some(c.symbols[name])))
      else if c.at.None? then Err(LabelBeforeOrigin(name))
      else Ok(c.(symbols := c.symbols[name := c.at.value]))
    case Emission(e) =>
      if c.at.None? then Err(CodeBeforeOrigin)
      else Ok(Cursor(c.symbols, c.placed + [Placed(c.at.value, e)], Some(AsU64(c.at.value + EmitSize(e)))))
  }

  /** Pass 2; on an error the labels bound so far stay bound. */
  function Layout(items: seq<Item>, c: Cursor): (Cursor, Option<AsmError>) {
    if items == [] then (c, None) else
    match LayoutItem(items[0], c)
    case Ok(c') => Layout(items[1..], c')
    case Err(e) => (c, Some(e))
  }

  /** Pass 3; on an error what was already written stays written. */
  function WriteAll(placed: seq<Placed>, symbols: Symbols, mem: Memory): (Memory, Option<AsmError>) {
    if placed == [] then (mem, None) else
    match Resolve(placed[0].emit, symbols, placed[0].addr)
    case Err(e) => (mem, Some(e))
    case Ok(bytes) =>
      if CanRead(mem, placed[0].addr, |bytes|) then
        WriteAll(placed[1..], symbols, AfterWrite(mem, placed[0].addr, bytes))
      else (mem, Some(WriteFailed(placed[0].addr)))
  }

  function FindAllocation(allocs: seq<Allocation>, name: string): (r: Option<nat>)
    ensures r.Some? ==> r.value < |allocs| && allocs[r.value].name == name
  {
    if allocs == [] then None
    else if allocs[0].name == name then Some(0)
    else
      var i :- FindAllocation(allocs[1..], name);
      Some(i + 1)
  }

  function RunDeferred(d: Defer, w: World): World {
    match d
    case Dealloc(name) =>
      (match FindAllocation(w.allocs, name)
       case None => w
       case Some(i) => World(w.symbols - {name}, w.allocs[..i] + w.allocs[i + 1..],
                             AfterFree(w.target, w.allocs[i].addr)))
    case Unregister(name) => w.(symbols := w.symbols - {name})
  }

  /** Pass 4. */
  function RunAllDeferred(ds: seq<Defer>, w: World): World {
    if ds == [] then w else RunAllDeferred(ds[1..], RunDeferred(ds[0], w))
  }

  /** One run of a section: the world it leaves behind and its outcome. */
  function RunSection(lines: seq<Line>, w: World): (World, Option<AsmError>) {
    var (w1, gathered) := Execute(lines, w, Gathered([], []));
    if gathered.Err? then (w1, Some(gathered.error)) else
    var (c, layoutError) := Layout(gathered.value.items, Cursor(w1.symbols, [], None));
    var w2 := w1.(symbols := c.symbols);
    if layoutError.Some? then (w2, layoutError) else
    var (mem, writeError) := WriteAll(c.placed, c.symbols, w2.target.mem);
    var w3 := w2.(target := w2.target.(mem := mem));
    if writeError.Some? then (w3, writeError) else (RunAllDeferred(gathered.value.deferred, w3), None)
  }

  // ----- The passes as methods -----

  /** Symbols and allocations that persist between the enable and the disable section. */
  class AsmState {
    var symbols: Symbols
    var allocs: seq<Allocation>

    constructor ()
      ensures symbols == map[] && allocs == []
    {
      symbols, allocs := map[], [];
    }

    function Value(process: Process): World
      reads this, process
    {
      World(symbols, allocs, process.state)
    }

    method ExecuteCommands(process: Process, lines: seq<Line>) returns (r: Result<Gathered, AsmError>)
      modifies this, process
      ensures (Value(process), r) == Execute(lines, old(Value(process)), Gathered([], []))
    {
      var items: seq<Item> := [];
      var deferred: seq<Defer> := [];
      for i := 0 to |lines|
        invariant Execute(lines, old(Value(process)), Gathered([], []))
                  == Execute(lines[i..], Value(process), Gathered(items, deferred))
      {
        ghost var w, g := Value(process), Gathered(items, deferred);
        assert lines[i..][0] == lines[i] && lines[i..][1..] == lines[i + 1..];
        match lines[i] {
          case AnchorLine(name) => items := items + [Anchor(name)];
          case AllocLine(name, size, near, answer) =>
            if size.None? {
              return Err(MissingArgument);
            }
            if near.Some? {
              var hint := ParseExpr(symbols, near.value);
              if hint.Err? {
                return Err(hint.error);
              }
            }
            var addr := process.Alloc(size.value, answer);
            if addr.None? {
              return Err(AllocFailed);
            }
            symbols := symbols[name := addr.value];
            allocs := allocs + [Allocation(name, addr.value, size.value)];
          case ScanLine(name, wellFormed, answer) =>
            if !wellFormed {
              return Err(MissingArgument);
            }
            if answer.None? {
              return Err(PatternNotFound);
            }
            symbols := symbols[name := answer.value];
          case DeclarationLine =>
          case UnregisterLine(name) => deferred := deferred + [Unregister(name)];
          case DeallocLine(name) => deferred := deferred + [Dealloc(name)];
          case UnknownLine => return Err(UnknownCommand);
          case EmitLine(emit) =>
            if emit.Err? {
              return Err(emit.error);
            }
            items := items + [Emission(emit.value)];
        }
        assert ExecuteLine(lines[i], w, g) == (Value(process), Ok(Gathered(items, deferred)));
      }
      assert lines[|lines|..] == [];
      return Ok(Gathered(items, deferred));
    }

    method PlaceItems(items: seq<Item>) returns (r: Result<seq<Placed>, AsmError>)
      modifies this`symbols
      ensures var (c, error) := Layout(items, Cursor(old(symbols), [], None));
              symbols == c.symbols && r == if error.Some? then Err(error.value) else Ok(c.placed)
    {
      var placed: seq<Placed> := [];
      var cursor: Option<u64> := None;
      for i := 0 to |items|
        invariant Layout(items, Cursor(old(symbols), [], None)) == Layout(items[i..], Cursor(symbols, placed, cursor))
      {
        assert items[i..][0] == items[i] && items[i..][1..] == items[i + 1..];
        match items[i] {
          case Anchor(name) =>
            if name in symbols {
              cursor := Some(symbols[name]);
            } else {
              if cursor.None? {
                return Err(LabelBeforeOrigin(name));
              }
              symbols := symbols[name := cursor.value];
            }
          case Emission(e) =>
            if cursor.None? {
              return Err(CodeBeforeOrigin);
            }
            var size := EmitSize(e);
            placed := placed + [Placed(cursor.value, e)];
            cursor := Some(AsU64(cursor.value + size));
        }
      }
      return Ok(placed);
    }

    method WritePlaced(process: Process, placed: seq<Placed>) returns (error: Option<AsmError>)
      modifies process
      ensures var (mem, e) := WriteAll(placed, symbols, old(process.state).mem);
              process.state == old(process.state).(mem := mem) && error == e
    {
      for i := 0 to |placed|
        invariant process.state == old(process.state).(mem := process.state.mem)
        invariant WriteAll(placed, symbols, old(process.state).mem) == WriteAll(placed[i..], symbols, process.state.mem)
      {
        assert placed[i..][0] == placed[i] && placed[i..][1..] == placed[i + 1..];
        var bytes := Resolve(placed[i].emit, symbols, placed[i].addr);
        if bytes.Err? {
          return Some(bytes.error);
        }
        var ok := process.WriteCode(placed[i].addr, bytes.value);
        if !ok {
          return Some(WriteFailed(placed[i].addr));
        }
      }
      return None;
    }

    method RunDeferredCommands(process: Process, deferred: seq<Defer>)
      modifies this, process
      ensures Value(process) == RunAllDeferred(deferred, old(Value(process)))
    {
      for i := 0 to |deferred|
        invariant RunAllDeferred(deferred, old(Value(process))) == RunAllDeferred(deferred[i..], Value(process))
      {
        assert deferred[i..][0] == deferred[i] && deferred[i..][1..] == deferred[i + 1..];
        match deferred[i] {
          case Dealloc(name) =>
            var pos := FindAllocation(allocs, name);
            if pos.Some? {
              var addr := allocs[pos.value].addr;
              allocs := allocs[..pos.value] + allocs[pos.value + 1..];
              process.Free(addr);
              symbols := symbols - {name};
            }
          case Unregister(name) =>
            symbols := symbols - {name};
        }
      }
    }

    /** Runs a section: commands, layout, writing, deferred commands, stopping at the first error. */
    method Run(process: Process, lines: seq<Line>) returns (error: Option<AsmError>)
      modifies this, process
      ensures (Value(process), error) == RunSection(lines, old(Value(process)))
    {
      var gathered := ExecuteCommands(process, lines);
      if gathered.Err? {
        return Some(gathered.error);
      }
      var placed := PlaceItems(gathered.value.items);
      if placed.Err? {
        return Some(placed.error);
      }
      error := WritePlaced(process, placed.value);
      if error.Some? {
        return;
      }
      RunDeferredCommands(process, gathered.value.deferred);
    }
  }
}
