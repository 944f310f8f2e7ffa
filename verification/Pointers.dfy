/**
 The pointer scanner: a value-sorted map of every slot that points into committed memory, a reverse
 depth-first search over it with a shared offset stack and a cap on results, and the forward
 dereference loop that resolves a path.
 */
module Pointers {
  import opened Wrappers
  import opened Bytes
  import opened Sequences
  import opened ProcessMemory
  import opened Ordering

  datatype Params = Params(target: u64, maxOffset: u64, maxDepth: nat, alignment: nat, maxResults: nat, ptrSize: nat)

  /** A chain from a module to the target; offsets in dereference order. */
  datatype PtrPath = PtrPath(mod: string, baseOffset: u64, offsets: seq<u64>)

  // ----- Committed spans and module ranges -----

  datatype Span = Span(base: u64, end: u64)

  function SpanOf(r: Region): Span { Span(r.base, AsU64(r.base + r.size)) }

  function SpansOf(regions: seq<Region>): (r: seq<Span>)
    ensures |r| == |regions| && forall i :: 0 <= i < |r| ==> r[i] == SpanOf(regions[i])
  {
    if regions == [] then [] else [SpanOf(regions[0])] + SpansOf(regions[1..])
  }

  function Committed(regions: seq<Region>): seq<Span> { SortBy(SpansOf(regions), (s: Span) => s.base) }

  /** Binary search for the last span that starts at or before the address. */
  function InCommitted(spans: seq<Span>, addr: u64): bool {
    var i := PartitionPoint(spans, (s: Span) => s.base <= addr, 0, |spans|);
    i != 0 && spans[i - 1].base <= addr < spans[i - 1].end
  }

  /** A loaded module as the operating system lists it. */
  datatype ModuleInfo = ModuleInfo(name: string, base: u64, size: u32)

  datatype ModuleRange = ModuleRange(base: u64, end: u64, name: string)

  function RangeOf(m: ModuleInfo): ModuleRange { ModuleRange(m.base, AsU64(m.base + m.size), m.name) }

  function RangesOf(mods: seq<ModuleInfo>): (r: seq<ModuleRange>)
    ensures |r| == |mods| && forall i :: 0 <= i < |r| ==> r[i] == RangeOf(mods[i])
  {
    if mods == [] then [] else [RangeOf(mods[0])] + RangesOf(mods[1..])
  }

  /** The ranges of the listed modules, sorted by base. */
  function ModuleRangesFrom(mods: seq<ModuleInfo>): seq<ModuleRange> {
    SortBy(RangesOf(mods), (m: ModuleRange) => m.base)
  }

  /** The module an address belongs to: its name and base. */
  function ModuleOf(modules: seq<ModuleRange>, addr: u64): Option<(string, u64)> {
    var i := PartitionPoint(modules, (m: ModuleRange) => m.base <= addr, 0, |modules|);
    if i == 0 then None
    else if modules[i - 1].base <= addr < modules[i - 1].end then Some((modules[i - 1].name, modules[i - 1].base))
    else None
  }

  // ----- The pointer map -----

  /** A slot: the address `addr` holds the pointer `val`. */
  datatype Entry = Entry(val: u64, addr: u64)

  /** The pointer stored at an offset of a region's bytes. */
  function WordAt(buf: seq<byte>, off: nat, width: nat): u64
    requires width == 4 || width == 8
    requires off + width <= |buf|
  {
    Pow256Values();
    FromLittleEndian(buf[off..off + width])
  }

  function SlotAt(buf: seq<byte>, base: u64, off: nat, width: nat, spans: seq<Span>): seq<Entry>
    requires width == 4 || width == 8
    requires off + width <= |buf|
  {
    var v := WordAt(buf, off, width);
    if v != 0 && InCommitted(spans, v) then [Entry(v, AsU64(base + off))] else []
  }

  /** Slots of one region from an offset on. */
  function RegionSlots(buf: seq<byte>, base: u64, off: nat, step: nat, width: nat, spans: seq<Span>): seq<Entry>
    requires step >= 1 && (width == 4 || width == 8)
    decreases |buf| - off
  {
    if off + width > |buf| then [] else
      SlotAt(buf, base, off, width, spans) + RegionSlots(buf, base, off + step, step, width, spans)
  }

  function StepOf(alignment: nat): nat { if alignment == 0 then 1 else alignment }

  /** A region that cannot be read in full contributes nothing. */
  function SlotsOf(mem: Memory, region: Region, alignment: nat, ptrSize: nat, spans: seq<Span>): seq<Entry> {
    match ReadInto(mem, region.base, region.size)
    case None => []
    case Some(buf) => RegionSlots(buf, region.base, 0, StepOf(alignment), PointerWidth(ptrSize), spans)
  }

  function AllSlots(mem: Memory, regions: seq<Region>, alignment: nat, ptrSize: nat, spans: seq<Span>): seq<Entry> {
    if regions == [] then [] else
      SlotsOf(mem, regions[0], alignment, ptrSize, spans) + AllSlots(mem, regions[1..], alignment, ptrSize, spans)
  }

  function PointerMap(mem: Memory, regions: seq<Region>, alignment: nat, ptrSize: nat, spans: seq<Span>): seq<Entry> {
    SortBy(AllSlots(mem, regions, alignment, ptrSize, spans), (e: Entry) => e.val)
  }

  lemma {:induction false} AllSlotsSnoc(mem: Memory, regions: seq<Region>, r: Region, alignment: nat, ptrSize: nat,
                                        spans: seq<Span>)
    ensures AllSlots(mem, regions + [r], alignment, ptrSize, spans)
            == AllSlots(mem, regions, alignment, ptrSize, spans) + SlotsOf(mem, r, alignment, ptrSize, spans)
  {
    if regions == [] {
      assert [] + [r] == [r] && [r][1..] == [];
    } else {
      assert (regions + [r])[0] == regions[0] && (regions + [r])[1..] == regions[1..] + [r];
      AllSlotsSnoc(mem, regions[1..], r, alignment, ptrSize, spans);
    }
  }

  /** Steps through the bytes of one region. */
  method CollectSlots(buf: seq<byte>, base: u64, step: nat, width: nat, spans: seq<Span>) returns (slots: seq<Entry>)
    requires step >= 1 && (width == 4 || width == 8)
    ensures slots == RegionSlots(buf, base, 0, step, width, spans)
  {
    slots := [];
    if |buf| < width {
      return;
    }
    hide *;
    ghost var all := RegionSlots(buf, base, 0, step, width, spans);
    assert [] + all == all;
    var end := |buf| - width;
    var off := 0;
    while off <= end
      invariant all == slots + RegionSlots(buf, base, off, step, width, spans)
      decreases end + step - off
    {
      SlotAtCases(buf, base, off, width, spans);
      RegionSlotsStep(slots, buf, base, off, step, width, spans);
      var v := WordAt(buf, off, width);
      if v != 0 && InCommitted(spans, v) {
        slots := slots + [Entry(v, AsU64(base + off))];
      } else {
        assert slots + [] == slots;
      }
      off := off + step;
    }
    RegionSlotsEnd(buf, base, off, step, width, spans);
    assert slots + [] == slots;
  }

  lemma RegionSlotsStep(before: seq<Entry>, buf: seq<byte>, base: u64, off: nat, step: nat, width: nat,
                        spans: seq<Span>)
    requires step >= 1 && (width == 4 || width == 8) && off + width <= |buf|
    ensures before + RegionSlots(buf, base, off, step, width, spans)
            == (before + SlotAt(buf, base, off, width, spans)) + RegionSlots(buf, base, off + step, step, width, spans)
  {
    hide SlotAt;
    var here, rest := SlotAt(buf, base, off, width, spans), RegionSlots(buf, base, off + step, step, width, spans);
    assert before + (here + rest) == (before + here) + rest;
  }

  lemma RegionSlotsEnd(buf: seq<byte>, base: u64, off: nat, step: nat, width: nat, spans: seq<Span>)
    requires step >= 1 && (width == 4 || width == 8) && off + width > |buf|
    ensures RegionSlots(buf, base, off, step, width, spans) == []
  {}

  lemma SlotAtCases(buf: seq<byte>, base: u64, off: nat, width: nat, spans: seq<Span>)
    requires width == 4 || width == 8
    requires off + width <= |buf|
    ensures var v := WordAt(buf, off, width);
            SlotAt(buf, base, off, width, spans)
              == if v != 0 && InCommitted(spans, v) then [Entry(v, AsU64(base + off))] else []
  {}

  /** Walks every region, collecting slots, then sorts them by value. A raised cancel flag leaves out the
      remaining regions. */
  method BuildPointerMap(mem: Memory, regions: seq<Region>, alignment: nat, ptrSize: nat, spans: seq<Span>,
                         progress: Progress)
    returns (entries: seq<Entry>)
    modifies progress
    ensures old(progress.cancelled) ==> progress.cancelled
    ensures exists k :: 0 <= k <= |regions| && (!progress.cancelled ==> k == |regions|)
              && entries == PointerMap(mem, regions[..k], alignment, ptrSize, spans)
  {
    hide SlotsOf, AllSlots, ReadInto, SortBy;
    entries := [];
    NoRegionsNoSlots(mem, alignment, ptrSize, spans);
    assert regions[..0] == [];
    var step := if alignment > 1 then alignment else 1;
    var width := if ptrSize == 4 then 4 else 8;
    var k := 0;
    while k < |regions|
      invariant 0 <= k <= |regions|
      invariant old(progress.cancelled) ==> progress.cancelled
      invariant entries == AllSlots(mem, regions[..k], alignment, ptrSize, spans)
    {
      var stop := progress.Poll();
      if stop {
        break;
      }
      var region := regions[k];
      var buf := ReadInto(mem, region.base, region.size);
      SlotsOfCases(mem, region, alignment, ptrSize, spans);
      if buf.Some? {
        var slots := CollectSlots(buf.value, region.base, step, width, spans);
        entries := entries + slots;
      } else {
        assert entries + [] == entries;
      }
      AllSlotsSnoc(mem, regions[..k], region, alignment, ptrSize, spans);
      assert regions[..k + 1] == regions[..k] + [region];
      progress.done := progress.done + 1;
      k := k + 1;
    }
    entries := SortBy(entries, (e: Entry) => e.val);
    assert entries == PointerMap(mem, regions[..k], alignment, ptrSize, spans);
  }

  lemma NoRegionsNoSlots(mem: Memory, alignment: nat, ptrSize: nat, spans: seq<Span>)
    ensures AllSlots(mem, [], alignment, ptrSize, spans) == []
  {}

  lemma SlotsOfCases(mem: Memory, region: Region, alignment: nat, ptrSize: nat, spans: seq<Span>)
    ensures SlotsOf(mem, region, alignment, ptrSize, spans)
            == (match ReadInto(mem, region.base, region.size)
                case None => []
                case Some(buf) =>
                  RegionSlots(buf, region.base, 0, if alignment > 1 then alignment else 1,
                              if ptrSize == 4 then 4 else 8, spans))
  {
    hide RegionSlots, ReadInto;
  }

  // ----- The reverse search as a pure enumeration -----

  function Low(target: u64, maxOffset: u64): u64 { if target >= maxOffset then target - maxOffset else 0 }

  function StartIndex(entries: seq<Entry>, target: u64, maxOffset: u64): nat {
    PartitionPoint(entries, (e: Entry) => e.val < Low(target, maxOffset), 0, |entries|)
  }

  function PathFrom(m: (string, u64), addr: u64, offsets: seq<u64>): PtrPath {
    PtrPath(m.0, AsU64(addr - m.1), Reverse(offsets))
  }

  /** Every path found below `target` with the offsets on the stack, in search order. */
  function Enumerate(entries: seq<Entry>, modules: seq<ModuleRange>, p: Params, target: u64,
                     offsets: seq<u64>): seq<PtrPath>
    decreases p.maxDepth - |offsets|, |entries| + 1
  {
    EnumerateFrom(entries, modules, p, target, offsets, StartIndex(entries, target, p.maxOffset))
  }

  function EnumerateFrom(entries: seq<Entry>, modules: seq<ModuleRange>, p: Params, target: u64, offsets: seq<u64>,
                         i: nat): seq<PtrPath>
    requires i <= |entries|
    decreases p.maxDepth - |offsets|, |entries| - i
  {
    if i == |entries| || entries[i].val > target then []
    else Below(entries, modules, p, target, offsets, i) + EnumerateFrom(entries, modules, p, target, offsets, i + 1)
  }

  /** The paths through entry i: it ends in a module, or the search goes on from its address. */
  function Below(entries: seq<Entry>, modules: seq<ModuleRange>, p: Params, target: u64, offsets: seq<u64>,
                 i: nat): seq<PtrPath>
    requires i < |entries| && entries[i].val <= target
    decreases p.maxDepth - |offsets|, |entries| - i, 0
  {
    var offs := offsets + [target - entries[i].val];
    match ModuleOf(modules, entries[i].addr)
    case Some(m) => [PathFrom(m, entries[i].addr, offs)]
    case None => if |offs| < p.maxDepth then Enumerate(entries, modules, p, entries[i].addr, offs) else []
  }

  // ----- The search with its shared stack -----

  class Search {
    const entries: seq<Entry>
    const modules: seq<ModuleRange>
    const params: Params
    const progress: Progress
    var offsets: seq<u64>
    var results: seq<PtrPath>

    constructor (entries: seq<Entry>, modules: seq<ModuleRange>, params: Params, progress: Progress)
      ensures this.entries == entries && this.modules == modules && this.params == params && this.progress == progress
      ensures offsets == [] && results == []
    {
      this.entries, this.modules, this.params, this.progress := entries, modules, params, progress;
      offsets, results := [], [];
    }

    /** One entry of the search: push its offset, report a static address or go on from it, pop. */
    method Explore(target: u64, i: nat)
      requires i < |entries| && entries[i].val <= target
      requires |results| < params.maxResults
      modifies this, progress
      ensures offsets == old(offsets)
      ensures old(progress.cancelled) ==> progress.cancelled
      ensures old(results) <= results <= old(results) + Below(entries, modules, params, target, offsets, i)
      ensures |results| <= params.maxResults
      ensures !progress.cancelled ==>
                results == Take(old(results) + Below(entries, modules, params, target, offsets, i), params.maxResults)
      decreases params.maxDepth - |offsets|, 0
    {
      hide Enumerate, EnumerateFrom, Below, ModuleOf, Reverse;
      BelowCases(entries, modules, params, target, offsets, i);
      var addr: u64 := entries[i].addr;
      offsets := offsets + [target - entries[i].val];
      var m := ModuleOf(modules, addr);
      if m.Some? {
        results := results + [PathFrom(m.value, addr, offsets)];
        progress.matches := |results|;
      } else if |offsets| < params.maxDepth {
        SearchRec(addr);
      } else {
        assert results + [] == results;
      }
      offsets := offsets[..|offsets| - 1];
    }

    /** Depth-first search that stops as soon as the cap is reached or the flag is raised. The stack is
        restored on every exit; without cancellation the results are exactly the first ones of the
        enumeration, and under cancellation a prefix of it. */
    method SearchRec(target: u64)
      modifies this, progress
      ensures offsets == old(offsets)
      ensures old(progress.cancelled) ==> progress.cancelled
      ensures old(results) <= results <= old(results) + Enumerate(entries, modules, params, target, offsets)
      ensures |results| <= params.maxResults || results == old(results)
      ensures !progress.cancelled ==>
                results == Grown(old(results), Enumerate(entries, modules, params, target, offsets), params.maxResults)
      decreases params.maxDepth - |offsets|, 1
    {
      hide Enumerate, EnumerateFrom, Below, PartitionPoint;
      var stop := progress.Poll();
      if |results| >= params.maxResults || stop {
        return;
      }
      ghost var all := Enumerate(entries, modules, params, target, offsets);
      ghost var seen: seq<PtrPath> := [];
      var i := StartIndex(entries, target, params.maxOffset);
      EnumerateStarts(entries, modules, params, target, offsets);
      while i < |entries| && entries[i].val <= target
        invariant i <= |entries|
        invariant offsets == old(offsets)
        invariant !progress.cancelled && !old(progress.cancelled)
        invariant results == old(results) + seen && |results| < params.maxResults
        invariant all == seen + EnumerateFrom(entries, modules, params, target, offsets, i)
      {
        ghost var here := Below(entries, modules, params, target, offsets, i);
        ghost var after := EnumerateFrom(entries, modules, params, target, offsets, i + 1);
        EnumerateStep(entries, modules, params, target, offsets, i);
        Explore(target, i);
        i := i + 1;
        EnumeratedSoFar(old(results), seen, here, after, results, params.maxResults);
        stop := progress.Poll();
        if |results| >= params.maxResults || stop {
          return;
        }
        seen := seen + here;
      }
      EnumerateEnds(entries, modules, params, target, offsets, i);
      assert seen + [] == seen;
    }
  }

  /** Results after adding what an enumeration offers, up to the cap. */
  function Grown(before: seq<PtrPath>, all: seq<PtrPath>, max: nat): seq<PtrPath> {
    if |before| >= max then before else Take(before + all, max)
  }

  lemma EnumerateStarts(entries: seq<Entry>, modules: seq<ModuleRange>, p: Params, target: u64, offsets: seq<u64>)
    ensures Enumerate(entries, modules, p, target, offsets)
            == EnumerateFrom(entries, modules, p, target, offsets, StartIndex(entries, target, p.maxOffset))
  {}

  lemma EnumerateStep(entries: seq<Entry>, modules: seq<ModuleRange>, p: Params, target: u64, offsets: seq<u64>, i: nat)
    requires i < |entries| && entries[i].val <= target
    ensures EnumerateFrom(entries, modules, p, target, offsets, i)
            == Below(entries, modules, p, target, offsets, i)
              + EnumerateFrom(entries, modules, p, target, offsets, i + 1)
  {
    hide Below;
  }

  lemma BelowCases(entries: seq<Entry>, modules: seq<ModuleRange>, p: Params, target: u64, offsets: seq<u64>, i: nat)
    requires i < |entries| && entries[i].val <= target
    ensures var offs := offsets + [target - entries[i].val];
            Below(entries, modules, p, target, offsets, i)
            == (match ModuleOf(modules, entries[i].addr)
                case Some(m) => [PathFrom(m, entries[i].addr, offs)]
                case None => if |offs| < p.maxDepth then Enumerate(entries, modules, p, entries[i].addr, offs) else [])
  {
    hide ModuleOf;
  }

  lemma EnumerateEnds(entries: seq<Entry>, modules: seq<ModuleRange>, p: Params, target: u64, offsets: seq<u64>, i: nat)
    requires i <= |entries| && (i == |entries| || entries[i].val > target)
    ensures EnumerateFrom(entries, modules, p, target, offsets, i) == []
  {}

  /** What one explored entry adds to the enumeration seen so far; reaching the cap in it gives the
      capped enumeration, and staying below the cap means nothing was left out. */
  lemma EnumeratedSoFar(start: seq<PtrPath>, seen: seq<PtrPath>, here: seq<PtrPath>, after: seq<PtrPath>,
                        now: seq<PtrPath>, max: nat)
    requires |start + seen| < max
    requires start + seen <= now <= start + seen + here
    ensures start <= now <= start + (seen + (here + after))
    ensures seen + (here + after) == (seen + here) + after
    ensures now == Take(start + seen + here, max) && |now| >= max ==> now == Grown(start, seen + (here + after), max)
    ensures now == Take(start + seen + here, max) && |now| < max ==> now == start + (seen + here)
  {
    assert start + (seen + (here + after)) == (start + seen + here) + after;
    assert start + (seen + here) == start + seen + here;
    assert start <= start + seen;
  }

  /** The whole scan. */
  method PointerScan(mem: Memory, regions: seq<Region>, modules: seq<ModuleRange>, params: Params, progress: Progress)
    returns (results: seq<PtrPath>)
    modifies progress
    ensures !progress.cancelled ==>
              results == Take(AllPaths(mem, regions, modules, params), params.maxResults)
  {
    var spans := SortBy(SpansOf(regions), (s: Span) => s.base);
    var entries := BuildPointerMap(mem, regions, params.alignment, params.ptrSize, spans, progress);
    assert regions[..|regions|] == regions;
    var search := new Search(entries, modules, params, progress);
    search.SearchRec(params.target);
    results := search.results;
    assert [] + Enumerate(entries, modules, params, params.target, [])
           == Enumerate(entries, modules, params, params.target, []);
  }

  /** Everything the scan would report without a cap. */
  function AllPaths(mem: Memory, regions: seq<Region>, modules: seq<ModuleRange>, params: Params): seq<PtrPath> {
    Enumerate(PointerMap(mem, regions, params.alignment, params.ptrSize, Committed(regions)), modules, params,
              params.target, [])
  }

  // ----- Resolving a path -----

  /** The dereference loop after the first read: all offsets but the last are followed by a read. */
  function Follow(mem: Memory, val: u64, offsets: seq<u64>, ptrSize: nat): Option<u64>
    requires offsets != []
    decreases |offsets|
  {
    if |offsets| == 1 then Some(AsU64(val + offsets[0])) else
    var next :- ReadPtr(mem, AsU64(val + offsets[0]), ptrSize);
    Follow(mem, next, offsets[1..], ptrSize)
  }

  function Resolve(mem: Memory, moduleBase: u64, path: PtrPath, ptrSize: nat): Option<u64> {
    if path.offsets == [] then None else
    var val :- ReadPtr(mem, AsU64(moduleBase + path.baseOffset), ptrSize);
    Follow(mem, val, path.offsets, ptrSize)
  }

  /** A path is followed level by level: read a pointer at the base and the first distance, and go on from its value
      with the offsets; the last offset is added and not read. All sums wrap at 64 bits. */
  lemma ResolveByLevels(mem: Memory, base: u64, path: PtrPath, offset: u64, rest: seq<u64>, ptrSize: nat)
    ensures path.offsets == [] ==> Resolve(mem, base, path, ptrSize) == None
    ensures path.offsets == [offset] + rest ==>
              Resolve(mem, base, path, ptrSize) ==
              match ReadPtr(mem, (base + path.baseOffset) % 0x1_0000_0000_0000_0000, ptrSize)
              case None => None
              case Some(v) =>
                if rest == [] then Some((v + offset) % 0x1_0000_0000_0000_0000)
                else Resolve(mem, v, PtrPath(path.mod, offset, rest), ptrSize)
  {
    hide ReadPtr;
    assert ([offset] + rest)[0] == offset && ([offset] + rest)[1..] == rest;
  }

  lemma FollowStep(mem: Memory, val: u64, offsets: seq<u64>, i: nat, ptrSize: nat)
    requires i < |offsets|
    ensures Follow(mem, val, offsets[i..], ptrSize) ==
            if i == |offsets| - 1 then Some(AsU64(val + offsets[i]))
            else match ReadPtr(mem, AsU64(val + offsets[i]), ptrSize)
                 case None => None
                 case Some(next) => Follow(mem, next, offsets[i + 1..], ptrSize)
  {
    hide ReadPtr;
    assert offsets[i..][0] == offsets[i] && offsets[i..][1..] == offsets[i + 1..];
  }

  method ResolvePath(mem: Memory, moduleBase: u64, path: PtrPath, ptrSize: nat) returns (r: Option<u64>)
    ensures r == Resolve(mem, moduleBase, path, ptrSize)
  {
    hide ReadPtr, Follow;
    if path.offsets == [] {
      return None;
    }
    var first := ReadPtr(mem, AsU64(moduleBase + path.baseOffset), ptrSize);
    if first.None? {
      return None;
    }
    var val: u64 := first.value;
    var last := |path.offsets| - 1;
    for i := 0 to last
      invariant Resolve(mem, moduleBase, path, ptrSize) == Follow(mem, val, path.offsets[i..], ptrSize)
    {
      FollowStep(mem, val, path.offsets, i, ptrSize);
      var next := ReadPtr(mem, AsU64(val + path.offsets[i]), ptrSize);
      if next.None? {
        return None;
      }
      val := next.value;
    }
    FollowStep(mem, val, path.offsets, last, ptrSize);
    return Some(AsU64(val + path.offsets[last]));
  }
}
