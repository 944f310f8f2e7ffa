/** What the lines of a section say, read off the lines alone, and that the passes do it. */
module SectionLines {
  import opened Wrappers
  import opened Bytes
  import opened ProcessMemory
  import opened X86Encoder
  import opened Expressions
  import opened Assembler

  // ----- Reading the lines -----

  function ItemOf(line: Line): seq<Item> {
    match line
    case AnchorLine(name) => [Anchor(name)]
    case EmitLine(emit) => if emit.Ok? then [Emission(emit.value)] else []
    case _ => []
  }

  /** An anchor for every anchor line and an emission for every instruction or data line, in order. */
  function ItemsOf(lines: seq<Line>): seq<Item> { if lines == [] then [] else ItemOf(lines[0]) + ItemsOf(lines[1..]) }

  function DeferOf(line: Line): seq<Defer> {
    match line
    case UnregisterLine(name) => [Unregister(name)]
    case DeallocLine(name) => [Dealloc(name)]
    case _ => []
  }

  /** The commands that wait for the end of the section, in order. */
  function DeferredOf(lines: seq<Line>): seq<Defer> {
    if lines == [] then [] else DeferOf(lines[0]) + DeferredOf(lines[1..])
  }

  function AllocationOf(line: Line): seq<Allocation> {
    match line
    case AllocLine(name, size, _, answer) =>
      if size.Some? && answer.Some? then [Allocation(name, answer.value, size.value)] else []
    case _ => []
  }

  /** The blocks that the alloc lines obtain, in order. */
  function AllocationsOf(lines: seq<Line>): seq<Allocation> {
    if lines == [] then [] else AllocationOf(lines[0]) + AllocationsOf(lines[1..])
  }

  /** The answer to the last alloc or scan line of a name. */
  function LastAnswer(lines: seq<Line>, name: string): Option<u64>
    decreases |lines|
  {
    if lines == [] then None else
    var line := lines[|lines| - 1];
    if (line.AllocLine? || line.ScanLine?) && line.name == name then line.answer
    else LastAnswer(lines[..|lines| - 1], name)
  }

  /** The symbols with the answers of the alloc and scan lines. */
  function BindingsOf(lines: seq<Line>, symbols: Symbols): Symbols {
    map name | name in symbols.Keys + AnsweredNames(lines) ::
      match LastAnswer(lines, name) case Some(v) => v case None => if name in symbols then symbols[name] else 0
  }

  function AnsweredName(line: Line): set<string> {
    match line
    case AllocLine(name, _, _, answer) => if answer.Some? then {name} else {}
    case ScanLine(name, _, answer) => if answer.Some? then {name} else {}
    case _ => {}
  }

  function AnsweredNames(lines: seq<Line>): set<string> {
    if lines == [] then {} else AnsweredName(lines[0]) + AnsweredNames(lines[1..])
  }

  /** What is wrong with a line in a world: an argument that is missing, an expression without a value, a block
      that is not granted, a pattern that is not there, an instruction that could not be read, no known line. */
  function FailureOf(line: Line, w: World): Option<AsmError> {
    match line
    case AllocLine(_, size, near, answer) =>
      var place := if near.None? then Ok(0) else ParseExpr(w.symbols, near.value);
      if size.None? then Some(MissingArgument)
      else if place.Err? then Some(place.error)
      else if answer.Some? && CanGrant(w.target, answer.value, size.value) then None
      else Some(AllocFailed)
    case ScanLine(_, wellFormed, answer) =>
      if wellFormed && answer.Some? then None else Some(if wellFormed then PatternNotFound else MissingArgument)
    case EmitLine(emit) => if emit.Ok? then None else Some(emit.error)
    case UnknownLine => Some(UnknownCommand)
    case _ => None
  }

  // ----- Appending a line -----

  lemma {:induction false} ExecuteSnoc(lines: seq<Line>, line: Line, w: World, g: Gathered)
    ensures Execute(lines + [line], w, g)
            == if Execute(lines, w, g).1.Err? then Execute(lines, w, g)
               else ExecuteLine(line, Execute(lines, w, g).0, Execute(lines, w, g).1.value)
    decreases |lines|
  {
    hide ExecuteLine;
    if lines == [] {
      assert [] + [line] == [line] && [line][1..] == [];
    } else {
      assert (lines + [line])[0] == lines[0] && (lines + [line])[1..] == lines[1..] + [line];
      var (w', r) := ExecuteLine(lines[0], w, g);
      if r.Ok? {
        ExecuteSnoc(lines[1..], line, w', r.value);
      }
    }
  }

  /** One more line: the section goes on exactly when nothing is wrong with the line where those before it have led.
      A line that fails changes nothing, its error is the section's, and nothing after it is executed. */
  lemma ExecutionStopsAtFailure(lines: seq<Line>, line: Line, w: World, g: Gathered)
    ensures var before, after := Execute(lines, w, g), Execute(lines + [line], w, g);
            && (before.1.Err? ==> after == before)
            && (before.1.Ok? ==>
                  match FailureOf(line, before.0)
                  case None => after.1.Ok?
                  case Some(error) => after == (before.0, Err(error)))
  {
    ExecuteSnoc(lines, line, w, g);
    hide Execute, CanGrant, ParseExpr;
  }

  lemma {:induction false} ReadingSnoc(lines: seq<Line>, line: Line)
    ensures ItemsOf(lines + [line]) == ItemsOf(lines) + ItemOf(line)
    ensures DeferredOf(lines + [line]) == DeferredOf(lines) + DeferOf(line)
    ensures AllocationsOf(lines + [line]) == AllocationsOf(lines) + AllocationOf(line)
    ensures AnsweredNames(lines + [line]) == AnsweredNames(lines) + AnsweredName(line)
    decreases |lines|
  {
    hide ItemOf, DeferOf, AllocationOf, AnsweredName;
    if lines == [] {
      assert [] + [line] == [line] && [line][1..] == [];
    } else {
      assert (lines + [line])[0] == lines[0] && (lines + [line])[1..] == lines[1..] + [line];
      ReadingSnoc(lines[1..], line);
    }
  }

  // ----- Pass 1 does what the lines say -----

  /** When every line succeeds, the gathered items and deferred commands, the recorded blocks and the blocks
      obtained are those of the lines, and nothing was freed. */
  lemma {:induction false} ExecuteGathers(lines: seq<Line>, w: World)
    requires Execute(lines, w, Gathered([], [])).1.Ok?
    ensures var (after, g) := Execute(lines, w, Gathered([], []));
            && g.value == Gathered(ItemsOf(lines), DeferredOf(lines))
            && after.allocs == w.allocs + AllocationsOf(lines)
            && after.target.freed == w.target.freed && after.target.badFrees == w.target.badFrees
    decreases |lines|
  {
    hide ExecuteLine, Execute, ItemsOf, DeferredOf, AllocationsOf, ItemOf, DeferOf, AllocationOf;
    if lines == [] {
      NoLines(w);
    } else {
      var before, line := lines[..|lines| - 1], lines[|lines| - 1];
      assert lines == before + [line];
      ExecuteSnoc(before, line, w, Gathered([], []));
      ExecuteGathers(before, w);
      ReadingSnoc(before, line);
      LineGathers(line, Execute(before, w, Gathered([], [])).0, Gathered(ItemsOf(before), DeferredOf(before)));
    }
  }

  lemma NoLines(w: World)
    ensures Execute([], w, Gathered([], [])) == (w, Ok(Gathered([], [])))
    ensures ItemsOf([]) == [] && DeferredOf([]) == [] && AllocationsOf([]) == [] && AnsweredNames([]) == {}
    ensures w.allocs + [] == w.allocs
  {}

  lemma LineGathers(line: Line, w: World, g: Gathered)
    requires ExecuteLine(line, w, g).1.Ok?
    ensures var (after, r) := ExecuteLine(line, w, g);
            && r.value == Gathered(g.items + ItemOf(line), g.deferred + DeferOf(line))
            && after.allocs == w.allocs + AllocationOf(line)
            && after.target.freed == w.target.freed && after.target.badFrees == w.target.badFrees
  {
    hide CanGrant, ParseExpr;
    assert g.items + [] == g.items && g.deferred + [] == g.deferred && w.allocs + [] == w.allocs;
  }

  /** Every name is bound to the answer of its last alloc or scan line; every other name keeps its value. */
  lemma {:induction false} ExecuteBinds(lines: seq<Line>, w: World, name: string)
    requires Execute(lines, w, Gathered([], [])).1.Ok?
    ensures var symbols := Execute(lines, w, Gathered([], [])).0.symbols;
            match LastAnswer(lines, name)
            case Some(v) => name in symbols && symbols[name] == v
            case None =>
              (name in symbols <==> name in w.symbols) && (name in w.symbols ==> symbols[name] == w.symbols[name])
    decreases |lines|
  {
    hide CanGrant, ParseExpr, AfterAlloc, Execute;
    if lines == [] {
      NoLines(w);
    } else {
      var before, line := lines[..|lines| - 1], lines[|lines| - 1];
      assert lines == before + [line];
      ExecuteSnoc(before, line, w, Gathered([], []));
      ExecuteBinds(before, w, name);
    }
  }

  lemma {:induction false} AnsweredAre(lines: seq<Line>, w: World, name: string)
    requires Execute(lines, w, Gathered([], [])).1.Ok?
    ensures name in AnsweredNames(lines) <==> LastAnswer(lines, name).Some?
    decreases |lines|
  {
    hide CanGrant, ParseExpr, AfterAlloc, Execute, AnsweredNames;
    if lines == [] {
      NoLines(w);
    } else {
      var before, line := lines[..|lines| - 1], lines[|lines| - 1];
      assert lines == before + [line];
      ExecuteSnoc(before, line, w, Gathered([], []));
      AnsweredAre(before, w, name);
      ReadingSnoc(before, line);
    }
  }

  /** So the symbols after pass 1 are the ones the lines say. */
  lemma SymbolsAreBindings(lines: seq<Line>, w: World)
    requires Execute(lines, w, Gathered([], [])).1.Ok?
    ensures Execute(lines, w, Gathered([], [])).0.symbols == BindingsOf(lines, w.symbols)
  {
    hide Execute, LastAnswer, AnsweredNames;
    var symbols := Execute(lines, w, Gathered([], [])).0.symbols;
    forall name
      ensures name in symbols <==> name in BindingsOf(lines, w.symbols)
      ensures name in symbols ==> symbols[name] == BindingsOf(lines, w.symbols)[name]
    {
      ExecuteBinds(lines, w, name);
      AnsweredAre(lines, w, name);
    }
  }

  /** Every byte mapped before is mapped after, with the same value. */
  ghost predicate KeepsBytes(before: Memory, after: Memory) {
    forall k :: k in before ==> k in after && after[k] == before[k]
  }

  /** Every byte that is mapped only after is zero and lies in one of the blocks. */
  ghost predicate AddsBlocks(before: Memory, after: Memory, blocks: seq<Allocation>) {
    forall k :: k in after && k !in before ==> after[k] == 0 && InSomeBlock(blocks, k)
  }

  ghost predicate InSomeBlock(blocks: seq<Allocation>, k: int) {
    exists i :: 0 <= i < |blocks| && Within(k, blocks[i].addr, blocks[i].size)
  }

  lemma LineAddsBlocks(line: Line, w: World, g: Gathered)
    ensures KeepsBytes(w.target.mem, ExecuteLine(line, w, g).0.target.mem)
    ensures AddsBlocks(w.target.mem, ExecuteLine(line, w, g).0.target.mem, AllocationOf(line))
  {
    hide ParseExpr;
    var mem := ExecuteLine(line, w, g).0.target.mem;
    forall k | k in mem && k !in w.target.mem ensures mem[k] == 0 && InSomeBlock(AllocationOf(line), k) {
      assert Within(k, AllocationOf(line)[0].addr, AllocationOf(line)[0].size);
    }
  }

  lemma BlocksJoin(a: seq<Allocation>, b: seq<Allocation>, k: int)
    ensures InSomeBlock(a, k) || InSomeBlock(b, k) ==> InSomeBlock(a + b, k)
  {
    if i :| 0 <= i < |a| && Within(k, a[i].addr, a[i].size) {
      assert (a + b)[i] == a[i];
    }
    if i :| 0 <= i < |b| && Within(k, b[i].addr, b[i].size) {
      assert (a + b)[|a| + i] == b[i];
    }
  }

  /** Pass 1 maps the blocks of the alloc lines, zeroed, and changes no byte that was mapped. */
  lemma {:induction false} ExecuteAddsBlocks(lines: seq<Line>, w: World)
    ensures KeepsBytes(w.target.mem, Execute(lines, w, Gathered([], [])).0.target.mem)
    ensures AddsBlocks(w.target.mem, Execute(lines, w, Gathered([], [])).0.target.mem, AllocationsOf(lines))
    decreases |lines|
  {
    hide Execute, ExecuteLine, AllocationsOf, InSomeBlock;
    if lines == [] {
      NoLines(w);
    } else {
      var before, line := lines[..|lines| - 1], lines[|lines| - 1];
      assert lines == before + [line];
      var (w1, g) := Execute(before, w, Gathered([], []));
      ExecuteAddsBlocks(before, w);
      ExecuteSnoc(before, line, w, Gathered([], []));
      ReadingSnoc(before, line);
      if g.Ok? {
        LineAddsBlocks(line, w1, g.value);
      }
      forall k ensures InSomeBlock(AllocationsOf(before), k) || InSomeBlock(AllocationOf(line), k)
                       ==> InSomeBlock(AllocationsOf(lines), k) {
        BlocksJoin(AllocationsOf(before), AllocationOf(line), k);
      }
    }
  }

  // ----- Pass 4 -----

  /** The allocations recorded under a name, oldest first. */
  function Named(allocs: seq<Allocation>, name: string): seq<Allocation> {
    if allocs == [] then [] else (if allocs[0].name == name then [allocs[0]] else []) + Named(allocs[1..], name)
  }

  function CountOf(ds: seq<Defer>, d: Defer): nat {
    if ds == [] then 0 else (if ds[0] == d then 1 else 0) + CountOf(ds[1..], d)
  }

  function Dropped<T>(s: seq<T>, n: nat): seq<T> { if n <= |s| then s[n..] else [] }

  /** The oldest allocation of a name is the one that is found. */
  lemma {:induction false} FirstOfName(allocs: seq<Allocation>, name: string)
    ensures FindAllocation(allocs, name).None? <==> Named(allocs, name) == []
    ensures var r := FindAllocation(allocs, name);
            r.Some? ==> forall k :: 0 <= k < r.value ==> allocs[k].name != name
  {
    if allocs != [] && allocs[0].name != name {
      FirstOfName(allocs[1..], name);
      assert [] + Named(allocs[1..], name) == Named(allocs[1..], name);
      hide Named;
    }
  }

  lemma {:induction false} NamedConcat(a: seq<Allocation>, b: seq<Allocation>, name: string)
    ensures Named(a + b, name) == Named(a, name) + Named(b, name)
  {
    if a == [] {
      assert a + b == b;
    } else {
      assert (a + b)[0] == a[0] && (a + b)[1..] == a[1..] + b;
      NamedConcat(a[1..], b, name);
      var here := if a[0].name == name then [a[0]] else [];
      assert (here + Named(a[1..], name)) + Named(b, name) == here + (Named(a[1..], name) + Named(b, name));
    }
  }

  lemma {:induction false} NoneNamed(allocs: seq<Allocation>, name: string)
    requires forall k :: 0 <= k < |allocs| ==> allocs[k].name != name
    ensures Named(allocs, name) == []
  {
    if allocs != [] {
      NoneNamed(allocs[1..], name);
    }
  }

  /** Taking it away leaves the younger ones of the name and all of every other name. */
  lemma WithoutFirst(allocs: seq<Allocation>, name: string, other: string)
    requires FindAllocation(allocs, name).Some?
    ensures var r := FindAllocation(allocs, name).value;
            Named(allocs[..r] + allocs[r + 1..], other)
            == if other == name then Dropped(Named(allocs, name), 1) else Named(allocs, other)
  {
    FirstOfName(allocs, name);
    var r := FindAllocation(allocs, name).value;
    NamedAround(allocs, r, other);
    NoneNamed(allocs[..r], name);
    WithoutOne(Named(allocs[..r], other), allocs[r], Named(allocs[r + 1..], other));
    hide Named, FindAllocation, Dropped;
  }

  lemma WithoutOne<T>(before: seq<T>, x: T, after: seq<T>)
    ensures before + ([] + after) == before + after
    ensures before == [] ==> Dropped(before + ([x] + after), 1) == before + after
  {}

  lemma NamedAround(allocs: seq<Allocation>, r: nat, name: string)
    requires r < |allocs|
    ensures Named(allocs[..r] + allocs[r + 1..], name) == Named(allocs[..r], name) + Named(allocs[r + 1..], name)
    ensures Named(allocs, name) == Named(allocs[..r], name)
                                   + ((if allocs[r].name == name then [allocs[r]] else [])
                                      + Named(allocs[r + 1..], name))
  {
    var before, first, after := allocs[..r], [allocs[r]], allocs[r + 1..];
    NamedConcat(before, after, name);
    NamedConcat(before, first + after, name);
    NamedConcat(first, after, name);
    OneNamed(allocs[r], name);
    hide Named;
    assert allocs == before + (first + after);
  }

  lemma OneNamed(x: Allocation, name: string)
    ensures Named([x], name) == if x.name == name then [x] else []
  {
    assert [x][1..] == [];
  }

  /** One dealloc takes the oldest allocation of its name, frees its block and forgets the name; without one it
      does nothing. An unregister forgets its name. */
  lemma DeferredTakesOldest(d: Defer, w: World, name: string)
    ensures var after := RunDeferred(d, w);
            && Named(after.allocs, name)
               == (if d == Dealloc(name) then Dropped(Named(w.allocs, name), 1) else Named(w.allocs, name))
            && (name in after.symbols
                <==> name in w.symbols && d != Unregister(name) && !(d == Dealloc(name) && Named(w.allocs, name) != []))
            && (name in after.symbols ==> after.symbols[name] == w.symbols[name])
    ensures d.Unregister? ==> RunDeferred(d, w).target == w.target
    ensures d.Dealloc? ==> RunDeferred(d, w).target
                           == if Named(w.allocs, d.name) == [] then w.target
                              else AfterFree(w.target, Named(w.allocs, d.name)[0].addr)
  {
    hide AfterFree;
    if d.Dealloc? {
      FirstOfName(w.allocs, d.name);
      if FindAllocation(w.allocs, d.name).Some? {
        WithoutFirst(w.allocs, d.name, name);
        OldestIsFound(w.allocs, d.name);
      }
    }
  }

  lemma {:induction false} OldestIsFound(allocs: seq<Allocation>, name: string)
    requires FindAllocation(allocs, name).Some?
    ensures Named(allocs, name) != [] && Named(allocs, name)[0] == allocs[FindAllocation(allocs, name).value]
  {
    if allocs[0].name != name {
      OldestIsFound(allocs[1..], name);
      assert allocs[FindAllocation(allocs, name).value] == allocs[1..][FindAllocation(allocs[1..], name).value];
    }
  }

  /** After all deferred commands: of every name as many of the oldest allocations are gone as deallocs name it,
      and a name is forgotten exactly when it was unregistered, or deallocated while it had an allocation. */
  lemma {:induction false} DeferredIsExact(ds: seq<Defer>, w: World, name: string)
    ensures var after := RunAllDeferred(ds, w);
            && Named(after.allocs, name) == Dropped(Named(w.allocs, name), CountOf(ds, Dealloc(name)))
            && (name in after.symbols
                <==> name in w.symbols && CountOf(ds, Unregister(name)) == 0
                     && (CountOf(ds, Dealloc(name)) == 0 || Named(w.allocs, name) == []))
            && (name in after.symbols ==> after.symbols[name] == w.symbols[name])
  {
    hide RunDeferred, Named;
    if ds != [] {
      DeferredTakesOldest(ds[0], w, name);
      DeferredIsExact(ds[1..], RunDeferred(ds[0], w), name);
    }
  }
}
