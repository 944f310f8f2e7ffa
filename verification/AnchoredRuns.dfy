/** Whole sections in the terms of their source: the items that follow an anchor form a run, and runs that
    do not overlap are found in memory as they were written. */
module AnchoredRuns {
  import opened Wrappers
  import opened Bytes
  import opened ProcessMemory
  import opened Expressions
  import opened Assembler
  import opened SectionLines
  import opened Branches
  import opened Sections

  // ----- A run is its items, in order -----

  function Emissions(items: seq<Item>): seq<Emit> {
    if items == [] then [] else (if items[0].Emission? then [items[0].emit] else []) + Emissions(items[1..])
  }

  function EmitsOf(placed: seq<Placed>): (r: seq<Emit>)
    ensures |r| == |placed| && forall i :: 0 <= i < |r| ==> r[i] == placed[i].emit
  {
    seq(|placed|, i requires 0 <= i < |placed| => placed[i].emit)
  }

  /** The layout places the emissions of the items, each once and in their order. */
  lemma {:induction false} LayoutPlacesItems(items: seq<Item>, c: Cursor)
    requires Layout(items, c).1.None?
    ensures c.placed <= Layout(items, c).0.placed
    ensures EmitsOf(Layout(items, c).0.placed[|c.placed|..]) == Emissions(items)
  {
    hide LayoutItem, EmitsOf;
    LayoutExtends(items, c);
    if items == [] {
      assert c.placed[|c.placed|..] == [];
    } else {
      LayoutPlacesItems(items[1..], LayoutItem(items[0], c).value);
      ItemIsPlaced(items[0], c, Layout(items, c).0.placed);
    }
  }

  lemma ItemIsPlaced(item: Item, c: Cursor, all: seq<Placed>)
    requires LayoutItem(item, c).Ok? && c.placed <= all && LayoutItem(item, c).value.placed <= all
    ensures EmitsOf(all[|c.placed|..])
            == (if item.Emission? then [item.emit] else []) + EmitsOf(all[|LayoutItem(item, c).value.placed|..])
  {
    var c' := LayoutItem(item, c).value;
    if item.Emission? {
      assert all[|c.placed|] == c'.placed[|c.placed|];
      assert all[|c.placed|..] == [all[|c.placed|]] + all[|c'.placed|..];
    }
  }

  /** The cursor before item k of a section that is laid out from the symbols of pass 1. */
  function CursorAt(items: seq<Item>, k: nat, symbols: Symbols): Cursor
    requires k <= |items|
  {
    Layout(items[..k], Cursor(symbols, [], None)).0
  }

  /** Items k to n are laid out in one piece from where the cursor stands: no anchor among them is bound
      beforehand or repeated, and the address space does not end. */
  ghost predicate IsRun(items: seq<Item>, k: nat, n: nat, symbols: Symbols) {
    && k <= n <= |items|
    && var here := CursorAt(items, k, symbols);
       here.at.Some? && OneRun(items[k..n], here.symbols) && here.at.value + ItemsSize(items[k..n]) < TWO64
  }

  /** The placements of items k to n. */
  function RunOf(items: seq<Item>, k: nat, n: nat, symbols: Symbols): seq<Placed>
    requires k <= n <= |items|
  {
    var here := CursorAt(items, k, symbols);
    LayoutExtends(items[k..n], here);
    Layout(items[k..n], here).0.placed[|here.placed|..]
  }

  /** A run of items is placed contiguously from the cursor, emission by emission. */
  lemma RunIsPlaced(items: seq<Item>, k: nat, n: nat, symbols: Symbols)
    requires Layout(items, Cursor(symbols, [], None)).1.None?
    requires IsRun(items, k, n, symbols)
    ensures var here, there, final := CursorAt(items, k, symbols), CursorAt(items, n, symbols),
            Layout(items, Cursor(symbols, [], None)).0;
            && here.placed <= there.placed <= final.placed
            && var run := RunOf(items, k, n, symbols);
               && there.placed == here.placed + run && run == final.placed[|here.placed|..|there.placed|]
               && Contiguous(run) && RunSize(run) == ItemsSize(items[k..n]) && EmitsOf(run) == Emissions(items[k..n])
               && (run != [] ==> run[0].addr == here.at.value)
  {
    hide Layout, OneRun, ItemsSize, Contiguous, RunSize, Emissions;
    var start := Cursor(symbols, [], None);
    LayoutPrefix(items, n, start);
    LayoutPrefix(items[..n], k, start);
    assert items[..n][..k] == items[..k] && items[..n][k..] == items[k..n];
    var here, there := CursorAt(items, k, symbols), CursorAt(items, n, symbols);
    LayoutExtends(items[n..], there);
    RunIsContiguous(items[k..n], here);
    LayoutPlacesItems(items[k..n], here);
    var final := Layout(items, start).0;
    assert final.placed[|here.placed|..|there.placed|] == there.placed[|here.placed|..];
    assert there.placed == here.placed + there.placed[|here.placed|..];
  }

  // ----- Runs that do not overlap -----

  function Flatten(runs: seq<seq<Placed>>): seq<Placed> {
    if runs == [] then [] else Flatten(runs[..|runs| - 1]) + runs[|runs| - 1]
  }

  /** The memory of two runs does not overlap. */
  predicate RunsApart(a: seq<Placed>, b: seq<Placed>) {
    a == [] || b == [] || RunSize(a) == 0 || RunSize(b) == 0
    || a[0].addr + RunSize(a) <= b[0].addr || b[0].addr + RunSize(b) <= a[0].addr
  }

  lemma {:induction false} PlacedWithinRun(run: seq<Placed>, i: nat)
    requires Contiguous(run) && i < |run|
    ensures run[0].addr <= run[i].addr && run[i].addr + EmitSize(run[i].emit) <= run[0].addr + RunSize(run)
  {
    hide EmitSize;
    if i > 0 {
      assert run[1..][i - 1] == run[i] && run[1..][0] == run[1];
      PlacedWithinRun(run[1..], i - 1);
    }
  }

  lemma {:induction false} PlacedInSomeRun(runs: seq<seq<Placed>>, p: Placed) returns (r: nat)
    requires p in Flatten(runs)
    ensures r < |runs| && p in runs[r]
  {
    var last := |runs| - 1;
    if p in runs[last] {
      r := last;
    } else {
      r := PlacedInSomeRun(runs[..last], p);
    }
  }

  /** Contiguous runs that are pairwise apart: no byte belongs to two placements. */
  lemma {:induction false} ApartRunsAreDisjoint(runs: seq<seq<Placed>>)
    requires forall r :: 0 <= r < |runs| ==> Contiguous(runs[r])
    requires forall q, r :: 0 <= q < r < |runs| ==> RunsApart(runs[q], runs[r])
    ensures Disjoint(Flatten(runs))
  {
    hide EmitSize, RunSize, Contiguous;
    if runs != [] {
      var last := |runs| - 1;
      var before := Flatten(runs[..last]);
      ApartRunsAreDisjoint(runs[..last]);
      forall i, j | 0 <= i < |before| && 0 <= j < |runs[last]| ensures Apart(before[i], runs[last][j]) {
        var r := PlacedInSomeRun(runs[..last], before[i]);
        var k :| 0 <= k < |runs[r]| && runs[r][k] == before[i];
        assert RunsApart(runs[r], runs[last]);
        PlacedWithinRun(runs[r], k);
        PlacedWithinRun(runs[last], j);
      }
      RunsAreDisjoint(before, runs[last]);
    }
  }

  // ----- Dividing a section -----

  /** Cut points that divide the items of a section into anchored runs. */
  ghost predicate DividesIntoRuns(items: seq<Item>, cuts: seq<nat>, symbols: Symbols) {
    && cuts != [] && cuts[0] == 0 && cuts[|cuts| - 1] == |items|
    && (forall r :: 0 <= r < |cuts| - 1 ==> IsPiece(items, cuts, r, symbols))
  }

  /** A piece: an anchor, bound beforehand or not, and the run of items after it. */
  ghost predicate IsPiece(items: seq<Item>, cuts: seq<nat>, r: nat, symbols: Symbols) {
    && r < |cuts| - 1 && cuts[r] < cuts[r + 1] <= |items|
    && items[cuts[r]].Anchor? && IsRun(items, cuts[r] + 1, cuts[r + 1], symbols)
  }

  /** The placements between two cuts. */
  ghost function Piece(items: seq<Item>, cuts: seq<nat>, r: nat, symbols: Symbols): seq<Placed>
    requires IsPiece(items, cuts, r, symbols)
  {
    RunOf(items, cuts[r] + 1, cuts[r + 1], symbols)
  }

  /** After an anchor the cursor stands at the anchor's address, for good, and nothing was placed. */
  lemma AnchorStands(items: seq<Item>, k: nat, symbols: Symbols)
    requires Layout(items, Cursor(symbols, [], None)).1.None? && k < |items| && items[k].Anchor?
    ensures var after, final := CursorAt(items, k + 1, symbols), Layout(items, Cursor(symbols, [], None)).0;
            && after.placed == CursorAt(items, k, symbols).placed
            && items[k].name in final.symbols && after.at == Some(final.symbols[items[k].name])
  {
    hide Layout;
    var start := Cursor(symbols, [], None);
    LayoutPrefix(items, k + 1, start);
    LayoutPrefix(items[..k + 1], k, start);
    assert items[..k + 1][..k] == items[..k] && items[..k + 1][k..] == [items[k]];
    LayoutOneAnchor(items[k].name, CursorAt(items, k, symbols));
    LayoutExtends(items[k + 1..], CursorAt(items, k + 1, symbols));
  }

  lemma LayoutOneAnchor(name: string, here: Cursor)
    requires Layout([Anchor(name)], here).1.None?
    ensures var after := Layout([Anchor(name)], here).0;
            after.placed == here.placed && name in after.symbols && after.at == Some(after.symbols[name])
  {
    var items := [Anchor(name)];
    assert items[1..] == [];
    NothingPlaced(LayoutItem(items[0], here).value);
  }

  // ----- Cutting at every anchor -----

  /** Positions of the anchors from position i on, and the end. */
  function AnchorCuts(items: seq<Item>, i: nat): (cuts: seq<nat>)
    requires i <= |items|
    ensures cuts != [] && i <= cuts[0]
    decreases |items| - i
  {
    if i == |items| then [i] else (if items[i].Anchor? then [i] else []) + AnchorCuts(items, i + 1)
  }

  predicate NoAnchors(items: seq<Item>, a: int, b: int) {
    0 <= a && b <= |items| && forall k :: a <= k < b ==> items[k].Emission?
  }

  /** An anchor at a and none after it before b. */
  predicate IsCut(items: seq<Item>, a: int, b: int) {
    0 <= a < b <= |items| && items[a].Anchor? && NoAnchors(items, a + 1, b)
  }

  ghost predicate AreCuts(items: seq<Item>, cuts: seq<nat>) {
    cuts != [] && cuts[|cuts| - 1] == |items| && forall r :: 0 <= r < |cuts| - 1 ==> IsCut(items, cuts[r], cuts[r + 1])
  }

  lemma {:induction false} AnchorCutsAreCuts(items: seq<Item>, i: nat)
    requires i <= |items|
    ensures AreCuts(items, AnchorCuts(items, i)) && NoAnchors(items, i, AnchorCuts(items, i)[0])
    decreases |items| - i
  {
    hide AreCuts;
    if i == |items| {
      OnlyTheEnd(items);
    } else {
      AnchorCutsAreCuts(items, i + 1);
      AnchorCutsStep(items, i);
      EmissionExtends(items, i, AnchorCuts(items, i + 1)[0]);
      hide AnchorCuts, IsCut, NoAnchors;
      if items[i].Anchor? {
        CutsCons(items, i, AnchorCuts(items, i + 1));
      }
    }
  }

  lemma EmissionExtends(items: seq<Item>, i: nat, b: nat)
    requires i < |items| && i < b && NoAnchors(items, i + 1, b)
    ensures items[i].Emission? ==> NoAnchors(items, i, b)
    ensures items[i].Anchor? ==> IsCut(items, i, b) && NoAnchors(items, i, i)
  {}

  lemma AnchorCutsStep(items: seq<Item>, i: nat)
    requires i < |items|
    ensures AnchorCuts(items, i) ==
            if items[i].Anchor? then [i] + AnchorCuts(items, i + 1) else AnchorCuts(items, i + 1)
  {
    assert [] + AnchorCuts(items, i + 1) == AnchorCuts(items, i + 1);
  }

  lemma OnlyTheEnd(items: seq<Item>)
    ensures AreCuts(items, [|items|])
  {}

  lemma CutsCons(items: seq<Item>, i: nat, rest: seq<nat>)
    requires AreCuts(items, rest) && IsCut(items, i, rest[0])
    ensures AreCuts(items, [i] + rest)
  {
    hide IsCut;
    var cuts := [i] + rest;
    forall r | 0 <= r < |cuts| - 1 ensures IsCut(items, cuts[r], cuts[r + 1]) {
      assert r > 0 ==> cuts[r] == rest[r - 1] && cuts[r + 1] == rest[r];
    }
  }

  /** The run after an anchor does not reach the end of the address space. */
  ghost predicate DoesNotWrap(items: seq<Item>, cuts: seq<nat>, r: nat, symbols: Symbols) {
    r < |cuts| - 1 && cuts[r] < cuts[r + 1] <= |items| &&
    var here := CursorAt(items, cuts[r] + 1, symbols);
    here.at.Some? && here.at.value + ItemsSize(items[cuts[r] + 1..cuts[r + 1]]) < TWO64
  }

  /** A section that could be laid out starts with an anchor. */
  lemma StartsWithAnchor(items: seq<Item>, symbols: Symbols)
    requires Layout(items, Cursor(symbols, [], None)).1.None?
    ensures AnchorCuts(items, 0)[0] == 0
  {}

  /** Cutting at every anchor divides any section that could be laid out, if and only if no run wraps. */
  lemma AnchorsDivide(items: seq<Item>, symbols: Symbols)
    requires Layout(items, Cursor(symbols, [], None)).1.None?
    ensures DividesIntoRuns(items, AnchorCuts(items, 0), symbols)
            <==> forall r :: 0 <= r < |AnchorCuts(items, 0)| - 1 ==>
              DoesNotWrap(items, AnchorCuts(items, 0), r, symbols)
  {
    StartsWithAnchor(items, symbols);
    AnchorCutsAreCuts(items, 0);
    hide Layout, CursorAt, ItemsSize, AnchorCuts;
    var cuts := AnchorCuts(items, 0);
    forall r | 0 <= r < |cuts| - 1 ensures IsPiece(items, cuts, r, symbols) <==> DoesNotWrap(items, cuts, r, symbols) {
      assert IsCut(items, cuts[r], cuts[r + 1]);
      var run := items[cuts[r] + 1..cuts[r + 1]];
      assert forall k :: 0 <= k < |run| ==> run[k] == items[cuts[r] + 1 + k] && run[k].Emission?;
    }
  }

  // ----- Whole sections -----

  ghost predicate RunsDoNotOverlap(items: seq<Item>, cuts: seq<nat>, symbols: Symbols)
    requires DividesIntoRuns(items, cuts, symbols)
  {
    forall q, r :: 0 <= q < r < |cuts| - 1 ==> RunsApart(Piece(items, cuts, q, symbols), Piece(items, cuts, r, symbols))
  }

  /** The runs up to a cut. */
  ghost function RunsUpTo(items: seq<Item>, cuts: seq<nat>, symbols: Symbols, n: nat): (runs: seq<seq<Placed>>)
    requires DividesIntoRuns(items, cuts, symbols) && n < |cuts|
    ensures |runs| == n && forall r :: 0 <= r < n ==> runs[r] == Piece(items, cuts, r, symbols)
  {
    if n == 0 then [] else RunsUpTo(items, cuts, symbols, n - 1) + [Piece(items, cuts, n - 1, symbols)]
  }

  /** Everything placed belongs to the runs. */
  lemma {:induction false} RunsMakeUpLayout(items: seq<Item>, cuts: seq<nat>, symbols: Symbols, n: nat)
    requires Layout(items, Cursor(symbols, [], None)).1.None? && DividesIntoRuns(items, cuts, symbols) && n < |cuts|
    ensures cuts[n] <= |items| && Flatten(RunsUpTo(items, cuts, symbols, n)) == CursorAt(items, cuts[n], symbols).placed
  {
    hide RunOf, OneRun, Layout;
    if n == 0 {
      assert items[..0] == [];
      NothingPlaced(Cursor(symbols, [], None));
    } else {
      RunsMakeUpLayout(items, cuts, symbols, n - 1);
      assert IsPiece(items, cuts, n - 1, symbols);
      AnchorStands(items, cuts[n - 1], symbols);
      RunIsPlaced(items, cuts[n - 1] + 1, cuts[n], symbols);
      var runs := RunsUpTo(items, cuts, symbols, n);
      assert runs[..n - 1] == RunsUpTo(items, cuts, symbols, n - 1);
    }
  }

  lemma NothingPlaced(c: Cursor)
    ensures Layout([], c).0 == c
  {}

  /** Runs that do not overlap give disjoint placements. */
  lemma SectionIsDisjoint(items: seq<Item>, cuts: seq<nat>, symbols: Symbols)
    requires Layout(items, Cursor(symbols, [], None)).1.None? && DividesIntoRuns(items, cuts, symbols)
    requires RunsDoNotOverlap(items, cuts, symbols)
    ensures Disjoint(Layout(items, Cursor(symbols, [], None)).0.placed)
  {
    hide Layout, IsRun, RunsApart, Disjoint, Contiguous, RunOf;
    var n: nat := |cuts| - 1;
    var runs := RunsUpTo(items, cuts, symbols, n);
    forall r | 0 <= r < |runs| ensures Contiguous(runs[r]) {
      assert IsPiece(items, cuts, r, symbols);
      RunIsPlaced(items, cuts[r] + 1, cuts[r + 1], symbols);
    }
    ApartRunsAreDisjoint(runs);
    RunsMakeUpLayout(items, cuts, symbols, n);
    assert items[..|items|] == items;
  }

  /** Whole-section correctness in source terms. Take a section that runs to its end, whose items divide into
      anchored runs that do not overlap. Decoding the final memory from the anchor of any run of faithful
      instructions gives exactly the instructions of its lines, in order, and every byte outside the runs is what
      it was before, or zero in a block of the section. (A run that the section itself deallocates is no longer
      mapped.) */
  lemma SectionRunsAsWritten(lines: seq<Line>, w: World, cuts: seq<nat>, r: nat)
    requires RunSection(lines, w).1.None?
    requires var all, symbols := ItemsOf(lines), BindingsOf(lines, w.symbols);
             && DividesIntoRuns(all, cuts, symbols) && RunsDoNotOverlap(all, cuts, symbols)
             && IsPiece(all, cuts, r, symbols)
             && IsReadable(Emissions(all[cuts[r] + 1..cuts[r + 1]]), PlanOf(lines, w).symbols)
    ensures var plan := PlanOf(lines, w);
            var anchor, items := ItemsOf(lines)[cuts[r]].name, ItemsOf(lines)[cuts[r] + 1..cuts[r + 1]];
            anchor in plan.symbols &&
            var base := plan.symbols[anchor];
            var mem := RunSection(lines, w).0.target.mem;
            && (Mapped(mem, base, ItemsSize(items)) ==>
                  DisassembleAt(ReadMem(mem, base, ItemsSize(items)), base)
                    == Some(ListingOf(Emissions(items), plan.symbols)))
            && ((forall d :: d in DeferredOf(lines) ==> d.Unregister?) ==> Mapped(mem, base, ItemsSize(items)))
            && OutsideIs(plan.placed, lines, w.target.mem, mem)
  {
    RunFollowsPlan(lines, w);
    var all, symbols, plan := ItemsOf(lines), BindingsOf(lines, w.symbols), PlanOf(lines, w);
    SectionIsDisjoint(all, cuts, symbols);
    AnchorStands(all, cuts[r], symbols);
    RunIsPlaced(all, cuts[r] + 1, cuts[r + 1], symbols);
    var run := Piece(all, cuts, r, symbols);
    var i, j := |CursorAt(all, cuts[r] + 1, symbols).placed|, |CursorAt(all, cuts[r + 1], symbols).placed|;
    ListingOfRun(run, plan.symbols);
    OutsideStays(lines, w);
    hide *;
    if run != [] {
      SectionEndToEnd(lines, w, i, j);
    } else {
      EmptyRun(plan.symbols, RunSection(lines, w).0.target.mem, CursorAt(all, cuts[r] + 1, symbols).at.value);
    }
  }

  lemma EmptyRun(symbols: Symbols, mem: Memory, base: int)
    ensures RunSize([]) == 0 && EmitsOf([]) == [] && ListingOf([], symbols) == []
    ensures Mapped(mem, base, 0) && DisassembleAt(ReadMem(mem, base, 0), base) == Some([])
  {
    assert ReadMem(mem, base, 0) == [];
  }

  /** Every emission is an instruction that decodes as written. */
  ghost predicate IsReadable(emits: seq<Emit>, symbols: Symbols) {
    forall i :: 0 <= i < |emits| ==> IsCode(emits[i]) && IsFaithfulEmit(emits[i], symbols)
  }

  function ListingOf(emits: seq<Emit>, symbols: Symbols): seq<Listed> {
    if emits == [] then [] else ExpectedListing(emits[0], symbols) + ListingOf(emits[1..], symbols)
  }

  lemma {:induction false} ListingOfRun(run: seq<Placed>, symbols: Symbols)
    ensures ExpectedRun(run, symbols) == ListingOf(EmitsOf(run), symbols)
    ensures ReadableRun(run, symbols) <==> IsReadable(EmitsOf(run), symbols)
  {
    hide ExpectedListing, IsFaithfulEmit;
    if run != [] {
      ListingOfRun(run[1..], symbols);
      assert EmitsOf(run)[1..] == EmitsOf(run[1..]);
    }
  }
}
