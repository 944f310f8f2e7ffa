/** Whole sections: layout, labels, and what the written memory disassembles to. */
module Sections {
  import opened Wrappers
  import opened Bytes
  import opened ProcessMemory
  import opened X86Encoder
  import opened Expressions
  import opened Assembler
  import opened SectionLines
  import opened Branches
  import D = X86Decoder

  // ----- Layout -----

  /** A successful layout succeeds on every prefix. */
  lemma {:induction false} LayoutPrefix(items: seq<Item>, k: nat, c: Cursor)
    requires k <= |items| && Layout(items, c).1.None?
    ensures Layout(items[..k], c).1.None?
    ensures Layout(items, c) == Layout(items[k..], Layout(items[..k], c).0)
  {
    hide LayoutItem;
    if k == 0 {
      assert items[..0] == [] && items[0..] == items;
    } else {
      var first, rest := items[0], items[1..];
      LayoutCons(first, rest, c);
      LayoutCons(first, rest[..k - 1], c);
      assert items == [first] + rest && items[..k] == [first] + rest[..k - 1] && items[k..] == rest[k - 1..];
      LayoutPrefix(rest, k - 1, LayoutItem(first, c).value);
    }
  }

  lemma LayoutCons(first: Item, rest: seq<Item>, c: Cursor)
    ensures var next := LayoutItem(first, c);
            Layout([first] + rest, c) == if next.Ok? then Layout(rest, next.value) else (c, Some(next.error))
  {
    hide LayoutItem;
    assert ([first] + rest)[1..] == rest;
  }

  /** Layout only adds symbols and placements; what is bound or placed stays. */
  lemma {:induction false} LayoutExtends(items: seq<Item>, c: Cursor)
    ensures var c' := Layout(items, c).0;
            && (forall n :: n in c.symbols ==> n in c'.symbols && c'.symbols[n] == c.symbols[n])
            && c.placed <= c'.placed
  {
    if items != [] && LayoutItem(items[0], c).Ok? {
      LayoutExtends(items[1..], LayoutItem(items[0], c).value);
    }
  }

  /** A symbol that no anchor names and that is not bound beforehand is not bound by the layout. */
  lemma {:induction false} LayoutBindsAnchorsOnly(items: seq<Item>, c: Cursor, name: string)
    requires name !in c.symbols && Anchor(name) !in items
    ensures name !in Layout(items, c).0.symbols
  {
    if items != [] && LayoutItem(items[0], c).Ok? {
      assert items[0] in items;
      LayoutBindsAnchorsOnly(items[1..], LayoutItem(items[0], c).value, name);
    }
  }

  /** A label not bound beforehand and anchored first at item k is bound, for good, to the address where
      item k stands; an emission right after it is placed there. */
  lemma LabelIsItsAddress(items: seq<Item>, c: Cursor, k: nat, name: string)
    requires Layout(items, c).1.None?
    requires k < |items| && items[k] == Anchor(name)
    requires name !in c.symbols && Anchor(name) !in items[..k]
    ensures var here, final := Layout(items[..k], c).0, Layout(items, c).0;
            && here.at.Some?
            && name in final.symbols && final.symbols[name] == here.at.value
            && (k + 1 < |items| && items[k + 1].Emission? ==>
                  |here.placed| < |final.placed|
                    && final.placed[|here.placed|] == Placed(here.at.value, items[k + 1].emit))
  {
    LayoutPrefix(items, k, c);
    var here := Layout(items[..k], c).0;
    LayoutBindsAnchorsOnly(items[..k], c, name);
    var rest := items[k..];
    assert rest[0] == items[k] && rest[1..] == items[k + 1..];
    var after := LayoutItem(items[k], here).value;
    LayoutExtends(items[k + 1..], after);
    if k + 1 < |items| && items[k + 1].Emission? {
      assert items[k + 1..][0] == items[k + 1] && items[k + 1..][1..] == items[k + 2..];
      var next := LayoutItem(items[k + 1], after).value;
      LayoutExtends(items[k + 2..], next);
      assert next.placed[|here.placed|] == Placed(here.at.value, items[k + 1].emit);
    }
  }

  /** Emissions that follow one another without wrap-around. */
  ghost predicate Contiguous(run: seq<Placed>) {
    forall k :: 0 <= k < |run| - 1 ==> run[k].addr + EmitSize(run[k].emit) == run[k + 1].addr
  }

  /** Total size of a run. */
  function RunSize(run: seq<Placed>): nat {
    if run == [] then 0 else EmitSize(run[0].emit) + RunSize(run[1..])
  }

  /** An item that does not move the cursor anywhere else. */
  predicate KeepsCursor(item: Item, symbols: Symbols) { item.Emission? || item.name !in symbols }

  /** No anchor of the run is bound beforehand and no label is repeated. */
  ghost predicate OneRun(items: seq<Item>, symbols: Symbols) {
    && (forall i :: 0 <= i < |items| ==> KeepsCursor(items[i], symbols))
    && (forall i, j :: 0 <= i < j < |items| && items[i].Anchor? ==> items[i] != items[j])
  }

  lemma OneRunStep(items: seq<Item>, c: Cursor)
    requires items != [] && OneRun(items, c.symbols) && c.at.Some?
    requires c.at.value + ItemsSize(items) < TWO64
    ensures LayoutItem(items[0], c).Ok?
    ensures var c' := LayoutItem(items[0], c).value;
            && OneRun(items[1..], c'.symbols)
            && c'.at == Some(if items[0].Emission? then c.at.value + EmitSize(items[0].emit) else c.at.value)
            && c'.placed == c.placed + (if items[0].Emission? then [Placed(c.at.value, items[0].emit)] else [])
  {
    hide EmitSize;
    assert KeepsCursor(items[0], c.symbols);
    var c' := LayoutItem(items[0], c).value;
    forall i | 0 <= i < |items[1..]| ensures KeepsCursor(items[1..][i], c'.symbols) {
      assert KeepsCursor(items[i + 1], c.symbols);
    }
  }

  /** The items of one run are laid out one after the other from where the cursor stands. */
  lemma {:induction false} RunIsContiguous(items: seq<Item>, c: Cursor)
    requires c.at.Some? && OneRun(items, c.symbols)
    requires c.at.value + ItemsSize(items) < TWO64
    ensures Layout(items, c).1.None? && c.placed <= Layout(items, c).0.placed
    ensures var placed := Layout(items, c).0.placed[|c.placed|..];
            Contiguous(placed) && (placed != [] ==> placed[0].addr == c.at.value) && RunSize(placed) == ItemsSize(items)
  {
    hide EmitSize, LayoutItem, OneRun;
    var all := Layout(items, c).0.placed;
    if items == [] {
      assert all[|c.placed|..] == [];
    } else {
      OneRunStep(items, c);
      var c' := LayoutItem(items[0], c).value;
      RunIsContiguous(items[1..], c');
      if items[0].Emission? {
        var tail := all[|c'.placed|..];
        assert all[|c.placed|] == c'.placed[|c.placed|];
        assert all[|c.placed|..] == [Placed(c.at.value, items[0].emit)] + tail;
        assert ([Placed(c.at.value, items[0].emit)] + tail)[1..] == tail;
      } else {
        assert c'.placed == c.placed;
      }
    }
  }

  function ItemsSize(items: seq<Item>): nat {
    if items == [] then 0 else (if items[0].Emission? then EmitSize(items[0].emit) else 0) + ItemsSize(items[1..])
  }

  // ----- Writing -----

  /** No address belongs to two placements. */
  ghost predicate Disjoint(placed: seq<Placed>) {
    forall i, j :: 0 <= i < j < |placed| ==> Apart(placed[i], placed[j])
  }

  predicate Apart(p: Placed, q: Placed) {
    EmitSize(p.emit) == 0 || EmitSize(q.emit) == 0
    || p.addr + EmitSize(p.emit) <= q.addr || q.addr + EmitSize(q.emit) <= p.addr
  }

  /** A placement's bytes are in memory. */
  ghost predicate Holds(mem: Memory, p: Placed, symbols: Symbols) {
    && Resolve(p.emit, symbols, p.addr).Ok?
    && forall k :: p.addr <= k < p.addr + EmitSize(p.emit) ==>
         k in mem && |Resolve(p.emit, symbols, p.addr).value| == EmitSize(p.emit)
         && mem[k] == Resolve(p.emit, symbols, p.addr).value[k - p.addr]
  }

  /** A contiguous run does not overlap itself. */
  lemma {:induction false} ContiguousIsOrdered(run: seq<Placed>, i: nat, j: nat)
    requires Contiguous(run) && i < j < |run|
    ensures run[i].addr + EmitSize(run[i].emit) <= run[j].addr
    decreases j
  {
    if i + 1 < j {
      ContiguousIsOrdered(run, i, j - 1);
    }
  }

  /** Anchored runs that do not overlap: adding a contiguous run that is apart from everything placed
      before keeps the placements disjoint. */
  lemma RunsAreDisjoint(placed: seq<Placed>, run: seq<Placed>)
    requires Disjoint(placed) && Contiguous(run)
    requires forall i, j :: 0 <= i < |placed| && 0 <= j < |run| ==> Apart(placed[i], run[j])
    ensures Disjoint(placed + run)
  {
    hide EmitSize;
    var all := placed + run;
    forall i, j | 0 <= i < j < |all| ensures Apart(all[i], all[j]) {
      if i >= |placed| {
        ContiguousIsOrdered(run, i - |placed|, j - |placed|);
      }
    }
  }

  predicate Covers(p: Placed, k: int) { p.addr <= k < p.addr + EmitSize(p.emit) }

  /** Untouched by a list of placements. */
  ghost predicate Untouched(placed: seq<Placed>, k: int) { forall i :: 0 <= i < |placed| ==> !Covers(placed[i], k) }

  lemma WriteHolds(p: Placed, symbols: Symbols, mem: Memory, mem': Memory)
    requires Resolve(p.emit, symbols, p.addr).Ok?
    requires CanRead(mem, p.addr, |Resolve(p.emit, symbols, p.addr).value|) && mem'.Keys == mem.Keys
    requires forall k :: k in mem && Covers(p, k) ==>
               mem'[k] == AfterWrite(mem, p.addr, Resolve(p.emit, symbols, p.addr).value)[k]
    ensures Holds(mem', p, symbols)
  {
    ResolveHasLayoutSize(p.emit, symbols, p.addr);
    hide Resolve, EmitSize;
    forall k | p.addr <= k < p.addr + EmitSize(p.emit)
      ensures k in mem && mem'[k] == Resolve(p.emit, symbols, p.addr).value[k - p.addr]
    {
      assert Covers(p, k);
    }
  }

  /** Writing a section: every placement ends up in memory, and no other byte changes. */
  lemma {:induction false} WriteAllExact(placed: seq<Placed>, symbols: Symbols, mem: Memory)
    requires Disjoint(placed) && WriteAll(placed, symbols, mem).1.None?
    ensures var mem' := WriteAll(placed, symbols, mem).0;
            && mem'.Keys == mem.Keys
            && (forall i :: 0 <= i < |placed| ==> Holds(mem', placed[i], symbols))
            && (forall k :: k in mem && Untouched(placed, k) ==> mem'[k] == mem[k])
  {
    if placed != [] {
      hide Resolve, EmitSize, Holds, Covers;
      var p, rest := placed[0], placed[1..];
      var bytes := Resolve(p.emit, symbols, p.addr).value;
      var mem1 := AfterWrite(mem, p.addr, bytes);
      assert Disjoint(rest) by {
        forall i, j | 0 <= i < j < |rest| ensures Apart(rest[i], rest[j]) {
          assert Apart(placed[i + 1], placed[j + 1]);
        }
      }
      WriteAllExact(rest, symbols, mem1);
      var mem' := WriteAll(placed, symbols, mem).0;
      forall k | Covers(p, k) ensures Untouched(rest, k) {
        forall i | 0 <= i < |rest| ensures !Covers(rest[i], k) {
          assert Apart(placed[0], placed[i + 1]);
          ApartDoNotMeet(placed[0], placed[i + 1], k);
        }
      }
      WriteHolds(p, symbols, mem, mem');
      forall i | 0 <= i < |placed| ensures Holds(mem', placed[i], symbols) {
        if i > 0 {
          assert placed[i] == rest[i - 1];
        }
      }
      forall k | k in mem && Untouched(placed, k) ensures mem'[k] == mem[k] {
        assert !Covers(placed[0], k);
        OutsideWrite(p, symbols, mem, k);
        forall i | 0 <= i < |rest| ensures !Covers(rest[i], k) {
          assert rest[i] == placed[i + 1];
        }
      }
    }
  }

  lemma ApartDoNotMeet(p: Placed, q: Placed, k: int)
    requires Apart(p, q)
    ensures !(Covers(p, k) && Covers(q, k))
  {}

  lemma OutsideWrite(p: Placed, symbols: Symbols, mem: Memory, k: int)
    requires Resolve(p.emit, symbols, p.addr).Ok? && k in mem && !Covers(p, k)
    ensures AfterWrite(mem, p.addr, Resolve(p.emit, symbols, p.addr).value)[k] == mem[k]
  {
    ResolveHasLayoutSize(p.emit, symbols, p.addr);
    hide Resolve, EmitSize;
  }

  // ----- Reading a run back -----

  ghost predicate Mapped(mem: Memory, addr: int, n: nat) { forall k :: addr <= k < addr + n ==> k in mem }

  function ReadMem(mem: Memory, addr: int, n: nat): (r: seq<byte>)
    requires Mapped(mem, addr, n)
    ensures |r| == n
  {
    seq(n, i requires 0 <= i < n => mem[addr + i])
  }

  function ExpectedRun(run: seq<Placed>, symbols: Symbols): seq<Listed> {
    if run == [] then [] else ExpectedListing(run[0].emit, symbols) + ExpectedRun(run[1..], symbols)
  }

  ghost predicate ReadableRun(run: seq<Placed>, symbols: Symbols) {
    forall i :: 0 <= i < |run| ==> IsCode(run[i].emit) && IsFaithfulEmit(run[i].emit, symbols)
  }

  lemma {:induction false} RunListsAsWritten(run: seq<Placed>, symbols: Symbols, mem: Memory)
    requires run != [] && Contiguous(run) && ReadableRun(run, symbols)
    requires forall i :: 0 <= i < |run| ==> Holds(mem, run[i], symbols)
    ensures Mapped(mem, run[0].addr, RunSize(run))
    ensures DisassembleAt(ReadMem(mem, run[0].addr, RunSize(run)), run[0].addr) == Some(ExpectedRun(run, symbols))
  {
    hide Resolve, EmitSize, ExpectedListing, DisassembleAt, IsFaithfulEmit;
    var p := run[0];
    var bytes := Resolve(p.emit, symbols, p.addr).value;
    var size := EmitSize(p.emit);
    ResolveHasLayoutSize(p.emit, symbols, p.addr);
    var next := p.addr + size;
    var rest: seq<byte> := [];
    if |run| == 1 {
      assert run[1..] == [];
      ListNothing(next);
    } else {
      assert run[1..][0].addr == next;
      RunListsAsWritten(run[1..], symbols, mem);
      rest := ReadMem(mem, next, RunSize(run[1..]));
    }
    assert Mapped(mem, p.addr, RunSize(run)) by {
      assert RunSize(run) == size + RunSize(run[1..]);
      assert forall k :: next <= k < next + RunSize(run[1..]) ==> k in mem;
    }
    assert ReadMem(mem, p.addr, RunSize(run)) == bytes + rest;
    ListEmit(p.emit, symbols, p.addr, rest);
  }

  lemma ListNothing(addr: int)
    ensures DisassembleAt([], addr) == Some([])
  {}

  /** Pass 2 and pass 3 over gathered items: the memory they leave. */
  lemma SectionListsAsWritten(items: seq<Item>, symbols: Symbols, mem: Memory, i: nat, j: nat)
    requires Layout(items, Cursor(symbols, [], None)).1.None?
    requires var c := Layout(items, Cursor(symbols, [], None)).0;
             && WriteAll(c.placed, c.symbols, mem).1.None?
             && Disjoint(c.placed)
             && i < j <= |c.placed| && Contiguous(c.placed[i..j]) && ReadableRun(c.placed[i..j], c.symbols)
    ensures var c := Layout(items, Cursor(symbols, [], None)).0;
            var mem' := WriteAll(c.placed, c.symbols, mem).0;
            var run := c.placed[i..j];
            && Mapped(mem', run[0].addr, RunSize(run))
            && DisassembleAt(ReadMem(mem', run[0].addr, RunSize(run)), run[0].addr) == Some(ExpectedRun(run, c.symbols))
  {
    hide Layout, WriteAll, ReadableRun, ExpectedRun, DisassembleAt;
    var c := Layout(items, Cursor(symbols, [], None)).0;
    WriteAllExact(c.placed, c.symbols, mem);
    RunListsAsWritten(c.placed[i..j], c.symbols, WriteAll(c.placed, c.symbols, mem).0);
  }

  // ----- A whole run -----

  /** The layout that the lines ask for: symbols with the labels bound, and the placements. */
  function PlanOf(lines: seq<Line>, w: World): Cursor {
    Layout(ItemsOf(lines), Cursor(BindingsOf(lines, w.symbols), [], None)).0
  }

  /** Where pass 1 leaves the world. */
  function ExecutedOf(lines: seq<Line>, w: World): World { Execute(lines, w, Gathered([], [])).0 }

  /** Pass 3 of the plan. */
  function WrittenOf(lines: seq<Line>, w: World): (Memory, Option<AsmError>) {
    WriteAll(PlanOf(lines, w).placed, PlanOf(lines, w).symbols, ExecutedOf(lines, w).target.mem)
  }

  /** The world before the deferred commands. */
  function BeforeDeferred(lines: seq<Line>, w: World): World {
    var executed := ExecutedOf(lines, w);
    World(PlanOf(lines, w).symbols, executed.allocs, executed.target.(mem := WrittenOf(lines, w).0))
  }

  /** A run that succeeds executes the commands of its lines, lays out its items, writes the placements over
      what pass 1 mapped, and then runs the deferred commands. */
  lemma RunFollowsPlan(lines: seq<Line>, w: World)
    requires RunSection(lines, w).1.None?
    ensures Execute(lines, w, Gathered([], [])).1.Ok?
    ensures Layout(ItemsOf(lines), Cursor(BindingsOf(lines, w.symbols), [], None)).1.None?
    ensures WrittenOf(lines, w).1.None? && ExecutedOf(lines, w).allocs == w.allocs + AllocationsOf(lines)
    ensures RunSection(lines, w).0 == RunAllDeferred(DeferredOf(lines), BeforeDeferred(lines, w))
  {
    ExecuteGathers(lines, w);
    SymbolsAreBindings(lines, w);
    hide RunAllDeferred, ItemsOf, DeferredOf, AllocationsOf, BindingsOf;
  }

  /** What a successful run leaves in the script state: of every name the oldest allocations are gone, as many as
      deallocs name it, and the symbols are those of the plan without the names unregistered or deallocated. */
  lemma RunLeavesState(lines: seq<Line>, w: World, name: string)
    requires RunSection(lines, w).1.None?
    ensures var plan, ds, after := PlanOf(lines, w), DeferredOf(lines), RunSection(lines, w).0;
            var all := Named(w.allocs + AllocationsOf(lines), name);
            && Named(after.allocs, name) == Dropped(all, CountOf(ds, Dealloc(name)))
            && (name in after.symbols <==>
                  && name in plan.symbols && CountOf(ds, Unregister(name)) == 0
                  && (CountOf(ds, Dealloc(name)) == 0 || all == []))
            && (name in after.symbols ==> after.symbols[name] == plan.symbols[name])
  {
    RunFollowsPlan(lines, w);
    DeferredIsExact(DeferredOf(lines), BeforeDeferred(lines, w), name);
    hide Execute, Layout, WriteAll, RunAllDeferred, RunSection, WrittenOf, ExecutedOf, PlanOf;
  }

  // ----- When a run succeeds -----

  /** Items can be laid out if and only if there are none or the first is an anchor that is bound. */
  lemma {:induction false} LayoutSucceedsOnceAnchored(items: seq<Item>, c: Cursor)
    requires c.at.Some?
    ensures Layout(items, c).1.None?
  {
    if items != [] {
      LayoutSucceedsOnceAnchored(items[1..], LayoutItem(items[0], c).value);
    }
  }

  lemma LayoutSucceedsIff(items: seq<Item>, symbols: Symbols)
    ensures Layout(items, Cursor(symbols, [], None)).1.None?
            <==> items == [] || (items[0].Anchor? && items[0].name in symbols)
    ensures items != [] && !(items[0].Anchor? && items[0].name in symbols) ==>
              Layout(items, Cursor(symbols, [], None)) ==
              (Cursor(symbols, [], None),
               Some(if items[0].Anchor? then LabelBeforeOrigin(items[0].name) else CodeBeforeOrigin))
  {
    if items != [] && items[0].Anchor? && items[0].name in symbols {
      LayoutSucceedsOnceAnchored(items[1..], LayoutItem(items[0], Cursor(symbols, [], None)).value);
    }
  }

  /** The placement can be resolved, and its bytes are mapped. */
  predicate CanPlace(p: Placed, symbols: Symbols, mem: Memory) {
    Resolve(p.emit, symbols, p.addr).Ok? && CanRead(mem, p.addr, EmitSize(p.emit))
  }

  /** Writing succeeds if and only if every placement can be resolved and is mapped. */
  lemma {:induction false} WriteSucceedsIff(placed: seq<Placed>, symbols: Symbols, mem: Memory)
    ensures WriteAll(placed, symbols, mem).1.None?
            <==> forall i :: 0 <= i < |placed| ==> CanPlace(placed[i], symbols, mem)
  {
    if placed != [] {
      var p, rest := placed[0], placed[1..];
      if CanPlace(p, symbols, mem) {
        ResolveHasLayoutSize(p.emit, symbols, p.addr);
        var mem1 := AfterWrite(mem, p.addr, Resolve(p.emit, symbols, p.addr).value);
        hide Resolve, EmitSize;
        WriteSucceedsIff(rest, symbols, mem1);
        forall i | 0 <= i < |rest| ensures CanPlace(rest[i], symbols, mem1) <==> CanPlace(placed[i + 1], symbols, mem) {
          assert rest[i] == placed[i + 1] && mem1.Keys == mem.Keys;
        }
        assert WriteAll(placed, symbols, mem) == WriteAll(rest, symbols, mem1);
        if forall i :: 0 <= i < |rest| ==> CanPlace(rest[i], symbols, mem1) {
          forall i | 0 <= i < |placed| ensures CanPlace(placed[i], symbols, mem) {
            assert i > 0 ==> CanPlace(rest[i - 1], symbols, mem1);
          }
        }
      } else if Resolve(p.emit, symbols, p.addr).Ok? {
        ResolveHasLayoutSize(p.emit, symbols, p.addr);
      }
    }
  }

  /** Otherwise the first placement that cannot be written ends the section with its error. */
  lemma {:induction false} WriteFailsAtFirst(placed: seq<Placed>, symbols: Symbols, mem: Memory, k: nat)
    requires k < |placed| && !CanPlace(placed[k], symbols, mem)
    requires forall i :: 0 <= i < k ==> CanPlace(placed[i], symbols, mem)
    ensures var bytes := Resolve(placed[k].emit, symbols, placed[k].addr);
            WriteAll(placed, symbols, mem).1 == Some(if bytes.Err? then bytes.error else WriteFailed(placed[k].addr))
  {
    hide Resolve, EmitSize;
    if k == 0 {
      if Resolve(placed[0].emit, symbols, placed[0].addr).Ok? {
        ResolveHasLayoutSize(placed[0].emit, symbols, placed[0].addr);
      }
    } else {
      assert CanPlace(placed[0], symbols, mem);
      ResolveHasLayoutSize(placed[0].emit, symbols, placed[0].addr);
      var bytes := Resolve(placed[0].emit, symbols, placed[0].addr).value;
      var rest, mem1 := placed[1..], AfterWrite(mem, placed[0].addr, bytes);
      forall i | 0 <= i < |rest| ensures CanPlace(rest[i], symbols, mem1) <==> CanPlace(placed[i + 1], symbols, mem) {
        assert mem1.Keys == mem.Keys;
      }
      WriteFailsAtFirst(rest, symbols, mem1, k - 1);
    }
  }

  /** A section runs to its end if and only if every line succeeds, its items start at a bound anchor, and every
      placement of the plan can be resolved and is mapped after pass 1. */
  lemma SectionSucceedsIff(lines: seq<Line>, w: World)
    ensures RunSection(lines, w).1.None? <==>
              && Execute(lines, w, Gathered([], [])).1.Ok?
              && (ItemsOf(lines) == []
                  || (ItemsOf(lines)[0].Anchor? && ItemsOf(lines)[0].name in BindingsOf(lines, w.symbols)))
              && forall i :: 0 <= i < |PlanOf(lines, w).placed| ==>
                   CanPlace(PlanOf(lines, w).placed[i], PlanOf(lines, w).symbols, ExecutedOf(lines, w).target.mem)
  {
    if Execute(lines, w, Gathered([], [])).1.Ok? {
      ExecuteGathers(lines, w);
      SymbolsAreBindings(lines, w);
      LayoutSucceedsIff(ItemsOf(lines), BindingsOf(lines, w.symbols));
      WriteSucceedsIff(PlanOf(lines, w).placed, PlanOf(lines, w).symbols, ExecutedOf(lines, w).target.mem);
    }
    hide RunAllDeferred, ItemsOf, BindingsOf, CanPlace;
  }

  // ----- What a run leaves in memory -----

  /** Deferred commands may free blocks, but never change a byte that stays mapped. */
  lemma {:induction false} DeferredKeepsBytes(ds: seq<Defer>, w: World)
    ensures forall k :: k in RunAllDeferred(ds, w).target.mem ==>
              k in w.target.mem && RunAllDeferred(ds, w).target.mem[k] == w.target.mem[k]
    ensures (forall i :: 0 <= i < |ds| ==> ds[i].Unregister?) ==> RunAllDeferred(ds, w).target == w.target
  {
    if ds != [] {
      DeferredKeepsBytes(ds[1..], RunDeferred(ds[0], w));
    }
  }

  /** Outside the placements a byte that is mapped after the run is what it was when the section began, or zero
      in a block that the section allocated. */
  ghost predicate OutsideIs(placed: seq<Placed>, lines: seq<Line>, before: Memory, after: Memory) {
    forall k :: k in after && Untouched(placed, k) ==>
      if k in before then after[k] == before[k] else after[k] == 0 && InSomeBlock(AllocationsOf(lines), k)
  }

  lemma OutsideStays(lines: seq<Line>, w: World)
    requires RunSection(lines, w).1.None? && Disjoint(PlanOf(lines, w).placed)
    ensures OutsideIs(PlanOf(lines, w).placed, lines, w.target.mem, RunSection(lines, w).0.target.mem)
  {
    RunFollowsPlan(lines, w);
    ExecuteAddsBlocks(lines, w);
    DeferredKeepsBytes(DeferredOf(lines), BeforeDeferred(lines, w));
    WriteAllExact(PlanOf(lines, w).placed, PlanOf(lines, w).symbols, ExecutedOf(lines, w).target.mem);
    hide Execute, Layout, WriteAll, RunAllDeferred, RunSection, Disjoint, Untouched, AllocationsOf, InSomeBlock, PlanOf;
  }

  /** Whole-section correctness. When a section runs to the end and its placements are disjoint, every
      stretch of consecutive instructions disassembles, from the memory left behind, to exactly what
      the source says, and outside the placements no byte that is still mapped has changed. */
  lemma SectionEndToEnd(lines: seq<Line>, w: World, i: nat, j: nat)
    requires RunSection(lines, w).1.None?
    requires var plan := PlanOf(lines, w);
             && Disjoint(plan.placed) && i < j <= |plan.placed|
             && Contiguous(plan.placed[i..j]) && ReadableRun(plan.placed[i..j], plan.symbols)
    ensures var plan := PlanOf(lines, w);
            var run := plan.placed[i..j];
            var mem := RunSection(lines, w).0.target.mem;
            && (Mapped(mem, run[0].addr, RunSize(run)) ==>
                  DisassembleAt(ReadMem(mem, run[0].addr, RunSize(run)), run[0].addr)
                    == Some(ExpectedRun(run, plan.symbols)))
            && OutsideIs(plan.placed, lines, w.target.mem, mem)
            && ((forall d :: d in DeferredOf(lines) ==> d.Unregister?) ==> Mapped(mem, run[0].addr, RunSize(run)))
  {
    RunFollowsPlan(lines, w);
    OutsideStays(lines, w);
    var run := PlanOf(lines, w).placed[i..j];
    WrittenStays(lines, w, run[0].addr, RunSize(run));
    SectionListsAsWritten(ItemsOf(lines), BindingsOf(lines, w.symbols), ExecutedOf(lines, w).target.mem, i, j);
    hide Execute, Layout, WriteAll, ReadableRun, ExpectedRun, DisassembleAt, RunAllDeferred, RunSection, Disjoint;
    hide OutsideIs, ItemsOf, DeferredOf, BindingsOf, Mapped, Untouched, Contiguous;
  }

  /** What was written is there at the end wherever it is still mapped, and without a dealloc line it all is. */
  lemma WrittenStays(lines: seq<Line>, w: World, addr: int, n: nat)
    requires RunSection(lines, w).1.None?
    ensures var mem, written := RunSection(lines, w).0.target.mem, WrittenOf(lines, w).0;
            && (Mapped(mem, addr, n) ==> Mapped(written, addr, n) && ReadMem(mem, addr, n) == ReadMem(written, addr, n))
            && ((forall d :: d in DeferredOf(lines) ==> d.Unregister?) ==> mem == written)
  {
    RunFollowsPlan(lines, w);
    var ds := DeferredOf(lines);
    DeferredKeepsBytes(ds, BeforeDeferred(lines, w));
    hide Execute, Layout, WriteAll, RunAllDeferred, RunSection, DeferredOf;
    if forall d :: d in ds ==> d.Unregister? {
      assert forall d :: 0 <= d < |ds| ==> ds[d].Unregister?;
    }
  }

  /** Data stays as written too: the bytes of every placement that is still mapped are those it resolves to. */
  lemma PlacementIsWritten(lines: seq<Line>, w: World, i: nat)
    requires RunSection(lines, w).1.None? && Disjoint(PlanOf(lines, w).placed) && i < |PlanOf(lines, w).placed|
    ensures var plan := PlanOf(lines, w);
            var p, mem := plan.placed[i], RunSection(lines, w).0.target.mem;
            && Resolve(p.emit, plan.symbols, p.addr).Ok?
            && (Mapped(mem, p.addr, EmitSize(p.emit)) ==>
                  ReadMem(mem, p.addr, EmitSize(p.emit)) == Resolve(p.emit, plan.symbols, p.addr).value)
  {
    RunFollowsPlan(lines, w);
    var plan := PlanOf(lines, w);
    DeferredKeepsBytes(DeferredOf(lines), BeforeDeferred(lines, w));
    WriteAllExact(plan.placed, plan.symbols, ExecutedOf(lines, w).target.mem);
    hide Execute, Layout, WriteAll, RunAllDeferred, RunSection, Disjoint, Resolve, EmitSize, PlanOf;
    assert Holds(WrittenOf(lines, w).0, plan.placed[i], plan.symbols);
    ResolveHasLayoutSize(plan.placed[i].emit, plan.symbols, plan.placed[i].addr);
  }

  /** A label of the lines: anchored first at item k, and bound neither before the section nor by a command. */
  ghost predicate IsLabel(lines: seq<Line>, w: World, k: nat, name: string) {
    && k < |ItemsOf(lines)| && ItemsOf(lines)[k] == Anchor(name)
    && name !in BindingsOf(lines, w.symbols) && Anchor(name) !in ItemsOf(lines)[..k]
  }

  /** Where a label stands: at the cursor before its anchor, which is where the emission after it is placed. */
  lemma LabelStands(lines: seq<Line>, w: World, k: nat, name: string)
    requires RunSection(lines, w).1.None? && IsLabel(lines, w, k, name)
    ensures var items, plan := ItemsOf(lines), PlanOf(lines, w);
            && name in plan.symbols
            && (k + 1 < |items| && items[k + 1].Emission? ==>
                  Placed(plan.symbols[name], items[k + 1].emit) in plan.placed)
  {
    RunFollowsPlan(lines, w);
    hide Execute, Layout, WriteAll, RunAllDeferred, ItemsOf, BindingsOf;
    LabelIsItsAddress(ItemsOf(lines), Cursor(BindingsOf(lines, w.symbols), [], None), k, name);
  }

  /** In a section that ran to the end, a branch to a label of it, forward or backward, goes to the address of
      that label, where the emission that follows the anchor was placed. */
  lemma BranchReachesLabel(lines: seq<Line>, w: World, k: nat, name: string, e: Emit)
    requires RunSection(lines, w).1.None? && IsLabel(lines, w, k, name)
    requires IsPlainName(name) && e in {JmpRel(name), CallRel(name)}
    ensures var items, plan := ItemsOf(lines), PlanOf(lines, w);
            && name in plan.symbols
            && ExpectedListing(e, plan.symbols) == [Branch(if e.JmpRel? then D.Jmp else D.Call, plan.symbols[name])]
            && (k + 1 < |items| && items[k + 1].Emission? ==>
                  Placed(plan.symbols[name], items[k + 1].emit) in plan.placed)
  {
    LabelStands(lines, w, k, name);
    PlainNameEvaluates(PlanOf(lines, w).symbols, name);
    hide ParseExpr, PlanOf;
  }

  /** The same for conditional jumps. */
  lemma ConditionalReachesLabel(lines: seq<Line>, w: World, k: nat, name: string, cc: CondCode)
    requires RunSection(lines, w).1.None? && IsLabel(lines, w, k, name)
    requires IsPlainName(name)
    ensures var items, plan := ItemsOf(lines), PlanOf(lines, w);
            && name in plan.symbols
            && ExpectedListing(Emit.Jcc(cc, name), plan.symbols) == [Branch(D.Jcc(cc), plan.symbols[name])]
            && (k + 1 < |items| && items[k + 1].Emission? ==>
                  Placed(plan.symbols[name], items[k + 1].emit) in plan.placed)
  {
    LabelStands(lines, w, k, name);
    PlainNameEvaluates(PlanOf(lines, w).symbols, name);
    hide ParseExpr, PlanOf;
  }

  /** Why the label must be unbound: an anchor that is bound moves the cursor there instead. */
  lemma BoundAnchorMovesCursor(items: seq<Item>, c: Cursor, name: string, e: Emit)
    requires name in c.symbols
    ensures var c' := Layout([Anchor(name), Emission(e)], c).0;
            c'.symbols == c.symbols && c'.placed == c.placed + [Placed(c.symbols[name], e)]
  {
    hide EmitSize;
    var s := [Anchor(name), Emission(e)];
    assert s[1..] == [Emission(e)] && s[1..][1..] == [];
    assert Layout(s[1..][1..], LayoutItem(Emission(e), LayoutItem(Anchor(name), c).value).value).1.None?;
    assert Layout(s, c) == Layout(s[1..], LayoutItem(Anchor(name), c).value);
    assert Layout(s[1..], LayoutItem(Anchor(name), c).value)
           == Layout(s[1..][1..], LayoutItem(Emission(e), LayoutItem(Anchor(name), c).value).value);
  }

  // ----- Allocation ledger -----

  function Addresses(allocs: seq<Allocation>): (r: seq<u64>)
    ensures |r| == |allocs| && forall i :: 0 <= i < |r| ==> r[i] == allocs[i].addr
  {
    if allocs == [] then [] else [allocs[0].addr] + Addresses(allocs[1..])
  }

  /** The recorded allocations are pairwise distinct and are exactly the live blocks; what was granted is
      what was freed plus what is recorded; and no free ever missed, so nothing was freed twice. */
  ghost predicate Balanced(addrs: seq<u64>, t: Target) {
    && (forall i, j :: 0 <= i < j < |addrs| ==> addrs[i] != addrs[j])
    && (forall a :: a in addrs <==> a in t.blocks)
    && multiset(t.granted) == multiset(t.freed) + multiset(addrs)
    && t.badFrees == 0
  }

  ghost predicate Ledger(w: World) { Balanced(Addresses(w.allocs), w.target) }

  lemma AddressesConcat(a: seq<Allocation>, b: seq<Allocation>)
    ensures Addresses(a + b) == Addresses(a) + Addresses(b)
  {}

  lemma AllocKeepsLedger(w: World, name: string, addr: u64, size: u64)
    requires Ledger(w) && CanGrant(w.target, addr, size)
    ensures Ledger(World(w.symbols[name := addr], w.allocs + [Allocation(name, addr, size)],
                         AfterAlloc(w.target, addr, size)))
  {
    var one := [Allocation(name, addr, size)];
    AddressesConcat(w.allocs, one);
    assert Addresses(one) == [addr];
    assert Addresses(w.allocs + one) == Addresses(w.allocs) + [addr];
    GrantKeepsBalance(Addresses(w.allocs), w.target, addr, size);
    hide Balanced, Addresses, AfterAlloc;
  }

  lemma GrantKeepsBalance(addrs: seq<u64>, t: Target, addr: u64, size: u64)
    requires Balanced(addrs, t) && CanGrant(t, addr, size)
    ensures Balanced(addrs + [addr], AfterAlloc(t, addr, size))
  {
    assert addr !in addrs;
    assert multiset(addrs + [addr]) == multiset(addrs) + multiset{addr};
  }

  lemma {:induction false} ExecuteKeepsLedger(lines: seq<Line>, w: World, g: Gathered)
    requires Ledger(w)
    ensures Ledger(Execute(lines, w, g).0)
  {
    hide ExecuteLine, Ledger;
    if lines != [] {
      var (w', r) := ExecuteLine(lines[0], w, g);
      LineKeepsLedger(lines[0], w, g);
      if r.Ok? {
        ExecuteKeepsLedger(lines[1..], w', r.value);
      }
    }
  }

  lemma LineKeepsLedger(line: Line, w: World, g: Gathered)
    requires Ledger(w)
    ensures Ledger(ExecuteLine(line, w, g).0)
  {
    hide Balanced, CanGrant, ParseExpr, AfterAlloc;
    if line.AllocLine? && line.answer.Some? && line.size.Some?
      && CanGrant(w.target, line.answer.value, line.size.value) {
      AllocKeepsLedger(w, line.name, line.answer.value, line.size.value);
    }
  }

  lemma RemoveFromDistinct(s: seq<u64>, i: nat)
    requires i < |s| && forall j, k :: 0 <= j < k < |s| ==> s[j] != s[k]
    ensures var r := s[..i] + s[i + 1..];
            && (forall j, k :: 0 <= j < k < |r| ==> r[j] != r[k])
            && (forall a :: a in r <==> a in s && a != s[i])
            && multiset(s) == multiset(r) + multiset{s[i]}
  {
    var r := s[..i] + s[i + 1..];
    assert s == s[..i] + [s[i]] + s[i + 1..];
    forall a | a in s && a != s[i] ensures a in r {
      var k :| 0 <= k < |s| && s[k] == a;
      assert r[if k < i then k else k - 1] == a;
    }
  }

  lemma FreeKeepsBalance(addrs: seq<u64>, i: nat, t: Target)
    requires i < |addrs| && Balanced(addrs, t)
    ensures Balanced(addrs[..i] + addrs[i + 1..], AfterFree(t, addrs[i]))
  {
    assert addrs[i] in t.blocks;
    RemoveFromDistinct(addrs, i);
    FreeRemovesBlock(t, addrs[i]);
    hide AfterFree;
    assert multiset(AfterFree(t, addrs[i]).freed) == multiset(t.freed) + multiset{addrs[i]};
  }

  lemma DeallocKeepsLedger(w: World, i: nat, symbols: Symbols)
    requires Ledger(w) && i < |w.allocs|
    ensures Ledger(World(symbols, w.allocs[..i] + w.allocs[i + 1..], AfterFree(w.target, w.allocs[i].addr)))
  {
    hide AfterFree, Balanced;
    var addrs := Addresses(w.allocs);
    FreeKeepsBalance(addrs, i, w.target);
    assert Addresses(w.allocs[..i] + w.allocs[i + 1..]) == addrs[..i] + addrs[i + 1..];
  }

  lemma FreeRemovesBlock(t: Target, addr: u64)
    requires addr in t.blocks
    ensures var t' := AfterFree(t, addr);
            && (forall a :: a in t'.blocks <==> a in t.blocks && a != addr)
            && t'.freed == t.freed + [addr] && t'.granted == t.granted && t'.badFrees == t.badFrees
  {}

  lemma {:induction false} DeferredKeepsLedger(ds: seq<Defer>, w: World)
    requires Ledger(w)
    ensures Ledger(RunAllDeferred(ds, w))
  {
    if ds != [] {
      if ds[0].Dealloc? && FindAllocation(w.allocs, ds[0].name).Some? {
        DeallocKeepsLedger(w, FindAllocation(w.allocs, ds[0].name).value, w.symbols - {ds[0].name});
      }
      DeferredKeepsLedger(ds[1..], RunDeferred(ds[0], w));
    }
  }

  /** The ledger does not depend on symbols or on the contents of memory. */
  lemma LedgerIgnoresContents(w: World, symbols: Symbols, mem: Memory)
    requires Ledger(w)
    ensures Ledger(w.(symbols := symbols))
    ensures Ledger(w.(symbols := symbols).(target := w.target.(mem := mem)))
  {}

  /** Every run of a section keeps the ledger, whether it ends well or stops midway with an error. */
  lemma RunKeepsLedger(lines: seq<Line>, w: World)
    requires Ledger(w)
    ensures Ledger(RunSection(lines, w).0)
  {
    hide Execute, Layout, WriteAll, RunAllDeferred, Ledger;
    var (w1, g) := Execute(lines, w, Gathered([], []));
    ExecuteKeepsLedger(lines, w, Gathered([], []));
    if g.Ok? {
      var (c, layoutError) := Layout(g.value.items, Cursor(w1.symbols, [], None));
      var (mem, writeError) := WriteAll(c.placed, c.symbols, w1.target.mem);
      LedgerIgnoresContents(w1, c.symbols, mem);
      DeferredKeepsLedger(g.value.deferred, w1.(symbols := c.symbols).(target := w1.target.(mem := mem)));
    }
  }

  /** A script starts with no allocations, in a target that has granted none. */
  lemma EmptyLedger(symbols: Symbols, mem: Memory)
    ensures Ledger(World(symbols, [], Target(mem, map[], [], [], 0)))
  {
    assert Addresses([]) == [];
  }

  /** A history of enable and disable runs; each starts in the world the previous one left. */
  function RunHistory(runs: seq<seq<Line>>, w: World): World {
    if runs == [] then w else RunHistory(runs[1..], RunSection(runs[0], w).0)
  }

  /** The ledger holds after any sequence of runs from the start. */
  lemma HistoryHasLedger(runs: seq<seq<Line>>, symbols: Symbols, mem: Memory)
    ensures Ledger(RunHistory(runs, World(symbols, [], Target(mem, map[], [], [], 0))))
  {
    EmptyLedger(symbols, mem);
    HistoryKeepsLedger(runs, World(symbols, [], Target(mem, map[], [], [], 0)));
  }

  lemma {:induction false} HistoryKeepsLedger(runs: seq<seq<Line>>, w: World)
    requires Ledger(w)
    ensures Ledger(RunHistory(runs, w))
  {
    if runs != [] {
      RunKeepsLedger(runs[0], w);
      HistoryKeepsLedger(runs[1..], RunSection(runs[0], w).0);
    }
  }
}
