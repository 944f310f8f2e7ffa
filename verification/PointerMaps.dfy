/**
 The pointer map holds exactly the slots of readable memory, so the scan finds exactly the pointer
 chains of memory.
 */
module PointerMaps {
  import opened Wrappers
  import opened Bytes
  import opened Sequences
  import opened ProcessMemory
  import opened Ordering
  import opened Pointers
  import opened PointerChains
  import opened StaticAddresses

  // ----- Committed memory -----

  predicate InRegion(r: Region, addr: int) { r.base <= addr < r.base + r.size }

  predicate RegionsApart(r: Region, s: Region) { r.base + r.size <= s.base || s.base + s.size <= r.base }

  /** Non-empty regions of the address space that do not overlap. */
  ghost predicate WellFormed(regions: seq<Region>) {
    && (forall i :: 0 <= i < |regions| ==> regions[i].size > 0 && regions[i].base + regions[i].size < TWO64)
    && (forall i, j :: 0 <= i < j < |regions| ==> RegionsApart(regions[i], regions[j]))
  }

  /** Linear membership. */
  ghost predicate IsCommitted(regions: seq<Region>, addr: int) {
    exists i :: 0 <= i < |regions| && InRegion(regions[i], addr)
  }

  lemma SpanCoversRegion(r: Region, addr: int)
    requires r.base + r.size < TWO64
    ensures SpanOf(r).base <= addr < SpanOf(r).end <==> InRegion(r, addr)
  {}

  lemma RegionOfSpan(regions: seq<Region>, s: Span) returns (i: nat)
    requires s in SpansOf(regions)
    ensures i < |regions| && s == SpanOf(regions[i])
  {
    hide SpansOf, SpanOf;
    i :| 0 <= i < |regions| && SpansOf(regions)[i] == s;
  }

  lemma SpansMeetOnlyIfEqual(regions: seq<Region>, s: Span, t: Span)
    requires WellFormed(regions) && s in SpansOf(regions) && t in SpansOf(regions)
    requires s.base <= t.base < s.end
    ensures s == t
  {
    hide SpansOf;
    var i := RegionOfSpan(regions, s);
    var j := RegionOfSpan(regions, t);
    assert i < j ==> RegionsApart(regions[i], regions[j]);
    assert j < i ==> RegionsApart(regions[j], regions[i]);
    SpanCoversRegion(regions[i], t.base);
    SpanCoversRegion(regions[j], t.base);
  }

  lemma CommittedIsSorted(regions: seq<Region>)
    ensures var spans := Committed(regions);
            && (forall i, j :: 0 <= i < j < |spans| ==> spans[i].base <= spans[j].base)
            && (forall s :: s in spans <==> s in SpansOf(regions))
  {
    SortBySorts(SpansOf(regions), (s: Span) => s.base);
    var spans := Committed(regions);
    assert multiset(spans) == multiset(SpansOf(regions));
    assert forall s :: s in spans <==> s in multiset(spans);
    assert forall s :: s in SpansOf(regions) <==> s in multiset(SpansOf(regions));
    assert SortedBy(spans, (s: Span) => s.base);
    forall i, j | 0 <= i < j < |spans| ensures spans[i].base <= spans[j].base {
      assert ((s: Span) => s.base)(spans[i]) <= ((s: Span) => s.base)(spans[j]);
    }
  }

  lemma LastSpanBefore(spans: seq<Span>, addr: u64) returns (i: nat)
    requires forall i, j :: 0 <= i < j < |spans| ==> spans[i].base <= spans[j].base
    ensures i <= |spans|
    ensures forall k :: 0 <= k < i ==> spans[k].base <= addr
    ensures forall k :: i <= k < |spans| ==> spans[k].base > addr
    ensures InCommitted(spans, addr) <==> i != 0 && spans[i - 1].base <= addr < spans[i - 1].end
  {
    var starts := (s: Span) => s.base <= addr;
    assert Partitioned(spans, starts);
    i := PartitionPoint(spans, starts, 0, |spans|);
    assert forall k :: 0 <= k < i ==> starts(spans[k]);
    assert forall k :: i <= k < |spans| ==> !starts(spans[k]);
  }

  /** Binary search over the sorted spans is linear membership. */
  lemma InCommittedIsMembership(regions: seq<Region>, addr: u64)
    requires WellFormed(regions)
    ensures InCommitted(Committed(regions), addr) <==> IsCommitted(regions, addr)
  {
    hide InCommitted, Committed, SpansOf, SpanOf;
    var spans := Committed(regions);
    CommittedIsSorted(regions);
    var i := LastSpanBefore(spans, addr);
    if InCommitted(spans, addr) {
      assert spans[i - 1] in spans;
      var r := RegionOfSpan(regions, spans[i - 1]);
      SpanCoversRegion(regions[r], addr);
    }
    if IsCommitted(regions, addr) {
      var r :| 0 <= r < |regions| && InRegion(regions[r], addr);
      SpanCoversRegion(regions[r], addr);
      var s := SpansOf(regions)[r];
      assert s in spans;
      var j :| 0 <= j < |spans| && spans[j] == s;
      assert j < i;
      assert spans[i - 1] in spans && s.base <= spans[i - 1].base;
      SpansMeetOnlyIfEqual(regions, s, spans[i - 1]);
    }
  }

  // ----- Slots -----

  /** A slot of memory: an aligned address of a readable region holding a nonzero pointer into committed memory. */
  ghost predicate IsSlot(mem: Memory, regions: seq<Region>, p: Params, e: Entry) {
    && ReadPtr(mem, e.addr, p.ptrSize) == Some(e.val) && e.val != 0 && IsCommitted(regions, e.val)
    && exists i :: IsAlignedIn(mem, regions, p, e.addr, i)
  }

  /** A whole pointer fits between the address and the end of region i, and the address is aligned from the start of
      the region; an alignment of 0 allows every address. */
  ghost predicate IsAlignedIn(mem: Memory, regions: seq<Region>, p: Params, addr: int, i: int) {
    && 0 <= i < |regions| && CanRead(mem, regions[i].base, regions[i].size)
    && regions[i].base <= addr && addr + (if p.ptrSize == 4 then 4 else 8) <= regions[i].base + regions[i].size
    && (p.alignment > 0 ==> (addr - regions[i].base) % p.alignment == 0)
  }

  /** The scan steps through the aligned addresses. */
  lemma StepsAreAligned(mem: Memory, regions: seq<Region>, p: Params, addr: int, i: int)
    ensures IsAlignedIn(mem, regions, p, addr, i) <==> exists k :: IsStep(mem, regions, p, addr, i, k)
  {
    hide CanRead;
    if IsAlignedIn(mem, regions, p, addr, i) {
      var d, step: nat := addr - regions[i].base, StepOf(p.alignment);
      var k := d / step;
      assert d == k * step by {
        assert d % step == 0;
        assert d == step * (d / step) + d % step;
      }
      StepIsNatural(k, step);
      assert IsStep(mem, regions, p, addr, i, k);
    }
    if k :| IsStep(mem, regions, p, addr, i, k) {
      var step := StepOf(p.alignment);
      StepsGrow(0, k, step);
      MultipleIsDivisible(k, step);
    }
  }

  lemma StepIsNatural(k: int, step: nat)
    requires step >= 1 && k * step >= 0
    ensures k >= 0
  {
    if k < 0 {
      StepsGrow(k, -1, step);
    }
  }

  lemma MultipleIsDivisible(k: nat, step: nat)
    requires step >= 1
    ensures (k * step) % step == 0
  {
    DivisionIsUnique(k * step, step, k, 0);
  }

  /** The address is step k of region i. */
  ghost predicate IsStep(mem: Memory, regions: seq<Region>, p: Params, addr: int, i: int, k: int) {
    && 0 <= i < |regions| && 0 <= k && CanRead(mem, regions[i].base, regions[i].size)
    && addr == regions[i].base + k * StepOf(p.alignment)
    && k * StepOf(p.alignment) + PointerWidth(p.ptrSize) <= regions[i].size
  }

  lemma WordIsRead(mem: Memory, r: Region, off: nat, ptrSize: nat)
    requires CanRead(mem, r.base, r.size) && off + PointerWidth(ptrSize) <= r.size && r.base + r.size < TWO64
    ensures ReadPtr(mem, r.base + off, ptrSize)
            == Some(WordAt(ReadInto(mem, r.base, r.size).value, off, PointerWidth(ptrSize)))
  {
    var buf := ReadInto(mem, r.base, r.size).value;
    var width := PointerWidth(ptrSize);
    assert CanRead(mem, r.base + off, width);
    assert ReadInto(mem, r.base + off, width).value == buf[off..off + width];
  }

  /** Slots of a region from step k on, as a set of entries in address order. */
  lemma {:induction false} RegionSlotsExact(buf: seq<byte>, base: u64, k: nat, step: nat, width: nat, spans: seq<Span>,
                                            e: Entry)
    requires step >= 1 && (width == 4 || width == 8) && base + |buf| < TWO64
    ensures e in RegionSlots(buf, base, k * step, step, width, spans) <==>
              exists j :: k <= j && IsWord(buf, base, j, step, width, e) && e.val != 0 && InCommitted(spans, e.val)
    decreases |buf| - k * step
  {
    hide InCommitted, WordAt, RegionSlots, IsWord;
    if k * step + width > |buf| {
      RegionSlotsEnd(buf, base, k * step, step, width, spans);
      forall j | k <= j ensures !IsWord(buf, base, j, step, width, e) {
        NoWordBeyond(buf, base, k, j, step, width, e);
      }
    } else {
      StepsGrow(k, k + 1, step);
      assert (k + 1) * step == k * step + step;
      RegionSlotsExact(buf, base, k + 1, step, width, spans, e);
      SlotsFromStep(buf, base, k, step, width, spans, e);
    }
  }

  lemma NoWordBeyond(buf: seq<byte>, base: u64, k: nat, j: nat, step: nat, width: nat, e: Entry)
    requires step >= 1 && (width == 4 || width == 8) && k <= j && k * step + width > |buf|
    ensures !IsWord(buf, base, j, step, width, e)
  {
    StepsGrow(k, j, step);
  }

  /** A slot from step k on is the one at step k, or one from step k + 1 on. */
  lemma SlotsFromStep(buf: seq<byte>, base: u64, k: nat, step: nat, width: nat, spans: seq<Span>, e: Entry)
    requires step >= 1 && (width == 4 || width == 8) && base + |buf| < TWO64 && k * step + width <= |buf|
    ensures e in RegionSlots(buf, base, k * step, step, width, spans)
            <==> (IsWord(buf, base, k, step, width, e) && e.val != 0 && InCommitted(spans, e.val))
                 || e in RegionSlots(buf, base, (k + 1) * step, step, width, spans)
  {
    hide InCommitted, WordAt;
    assert (k + 1) * step == k * step + step;
    SlotAtCases(buf, base, k * step, width, spans);
  }

  /** Entry e is the word at step j. */
  predicate IsWord(buf: seq<byte>, base: u64, j: int, step: nat, width: nat, e: Entry)
    requires width == 4 || width == 8
  {
    && 0 <= j * step && j * step + width <= |buf| && e.addr == base + j * step && e.val == WordAt(buf, j * step, width)
  }

  lemma StepsGrow(k: int, j: int, step: nat)
    requires k <= j && step >= 1
    ensures k * step <= j * step && (k < j ==> k * step < j * step)
  {
    StepsAdd(k, j - k, step);
    var d := j - k;
    assert d * step >= 0 by { StepsPositive(d, step); }
    if d >= 1 {
      StepsPositive(d, step);
    }
  }

  lemma StepsAdd(k: int, d: int, step: nat)
    ensures (k + d) * step == k * step + d * step
  {}

  lemma StepsPositive(d: nat, step: nat)
    requires step >= 1
    ensures d * step >= d
  {}

  lemma {:induction false} AllSlotsMembership(mem: Memory, regions: seq<Region>, p: Params, spans: seq<Span>, e: Entry)
    ensures e in AllSlots(mem, regions, p.alignment, p.ptrSize, spans) <==>
              exists i :: 0 <= i < |regions| && e in SlotsOf(mem, regions[i], p.alignment, p.ptrSize, spans)
  {
    if regions != [] {
      AllSlotsMembership(mem, regions[1..], p, spans, e);
      if e in AllSlots(mem, regions[1..], p.alignment, p.ptrSize, spans) {
        var i :| 0 <= i < |regions[1..]| && e in SlotsOf(mem, regions[1..][i], p.alignment, p.ptrSize, spans);
        assert regions[i + 1] == regions[1..][i];
      }
      if i :| 0 <= i < |regions| && e in SlotsOf(mem, regions[i], p.alignment, p.ptrSize, spans) && i > 0 {
        assert regions[1..][i - 1] == regions[i];
      }
    }
  }

  /** A region contributes exactly its steps that hold pointers into committed memory. */
  lemma SlotsOfExact(mem: Memory, regions: seq<Region>, p: Params, i: nat, e: Entry)
    requires WellFormed(regions) && i < |regions|
    ensures e in SlotsOf(mem, regions[i], p.alignment, p.ptrSize, Committed(regions)) <==>
              && ReadPtr(mem, e.addr, p.ptrSize) == Some(e.val) && e.val != 0 && IsCommitted(regions, e.val)
              && IsAlignedIn(mem, regions, p, e.addr, i)
  {
    StepsAreAligned(mem, regions, p, e.addr, i);
    hide IsAlignedIn, RegionSlots, InCommitted, WordAt, ReadPtr, Committed;
    var r, step, width := regions[i], StepOf(p.alignment), PointerWidth(p.ptrSize);
    var spans := Committed(regions);
    InCommittedIsMembership(regions, e.val);
    if CanRead(mem, r.base, r.size) {
      var buf := ReadInto(mem, r.base, r.size).value;
      assert 0 * step == 0;
      RegionSlotsExact(buf, r.base, 0, step, width, spans, e);
      if e in SlotsOf(mem, r, p.alignment, p.ptrSize, spans) {
        var j :| 0 <= j && IsWord(buf, r.base, j, step, width, e) && e.val != 0 && InCommitted(spans, e.val);
        WordIsRead(mem, r, j * step, p.ptrSize);
        assert IsStep(mem, regions, p, e.addr, i, j);
      }
      if ReadPtr(mem, e.addr, p.ptrSize) == Some(e.val) && e.val != 0 && IsCommitted(regions, e.val)
         && exists k :: IsStep(mem, regions, p, e.addr, i, k)
      {
        var k :| IsStep(mem, regions, p, e.addr, i, k);
        StepsGrow(0, k, step);
        WordIsRead(mem, r, k * step, p.ptrSize);
        assert IsWord(buf, r.base, k, step, width, e);
      }
    }
  }

  /** The pointer map: sorted by value, and holding exactly the slots of memory. */
  lemma PointerMapIsExact(mem: Memory, regions: seq<Region>, p: Params)
    requires WellFormed(regions)
    ensures var entries := PointerMap(mem, regions, p.alignment, p.ptrSize, Committed(regions));
            && (forall i, j :: 0 <= i < j < |entries| ==> entries[i].val <= entries[j].val)
            && multiset(entries) == multiset(AllSlots(mem, regions, p.alignment, p.ptrSize, Committed(regions)))
            && (forall e :: e in entries <==> IsSlot(mem, regions, p, e))
  {
    hide Committed, ReadPtr, SlotsOf, IsCommitted;
    var spans := Committed(regions);
    var all := AllSlots(mem, regions, p.alignment, p.ptrSize, spans);
    var byVal := (e: Entry) => e.val;
    SortBySorts(all, byVal);
    var entries := PointerMap(mem, regions, p.alignment, p.ptrSize, spans);
    assert entries == SortBy(all, byVal);
    forall i, j | 0 <= i < j < |entries| ensures entries[i].val <= entries[j].val {
      assert byVal(entries[i]) <= byVal(entries[j]);
    }
    forall e ensures e in entries <==> IsSlot(mem, regions, p, e) {
      assert e in entries <==> e in multiset(entries);
      assert e in all <==> e in multiset(all);
      AllSlotsMembership(mem, regions, p, spans, e);
      if e in all {
        var i :| 0 <= i < |regions| && e in SlotsOf(mem, regions[i], p.alignment, p.ptrSize, spans);
        SlotsOfExact(mem, regions, p, i, e);
      }
      if IsSlot(mem, regions, p, e) {
        var i :| IsAlignedIn(mem, regions, p, e.addr, i);
        SlotsOfExact(mem, regions, p, i, e);
      }
    }
  }

  // ----- No address twice -----

  ghost predicate AddressesDistinct(s: seq<Entry>) { forall i, j :: 0 <= i < j < |s| ==> s[i].addr != s[j].addr }

  /** Slots of a region come in increasing address order. */
  lemma {:induction false} RegionSlotsIncrease(buf: seq<byte>, base: u64, off: nat, step: nat, width: nat,
                                               spans: seq<Span>)
    requires step >= 1 && (width == 4 || width == 8) && base + |buf| < TWO64
    ensures var r := RegionSlots(buf, base, off, step, width, spans);
            && (forall i :: 0 <= i < |r| ==> base + off <= r[i].addr < base + |buf|)
            && AddressesDistinct(r)
    decreases |buf| - off
  {
    hide InCommitted, WordAt;
    if off + width <= |buf| {
      RegionSlotsIncrease(buf, base, off + step, step, width, spans);
    }
  }

  lemma {:induction false} AllSlotsDistinct(mem: Memory, regions: seq<Region>, p: Params, spans: seq<Span>)
    requires WellFormed(regions)
    ensures AddressesDistinct(AllSlots(mem, regions, p.alignment, p.ptrSize, spans))
  {
    hide RegionSlots;
    if regions != [] {
      var r, rest := regions[0], regions[1..];
      assert WellFormed(rest) by {
        forall i, j | 0 <= i < j < |rest| ensures RegionsApart(rest[i], rest[j]) {
          assert RegionsApart(regions[i + 1], regions[j + 1]);
        }
      }
      AllSlotsDistinct(mem, rest, p, spans);
      var here, others := SlotsOf(mem, r, p.alignment, p.ptrSize, spans),
              AllSlots(mem, rest, p.alignment, p.ptrSize, spans);
      SlotsStayInRegion(mem, r, p, spans);
      forall i, j | 0 <= i < |here| && 0 <= j < |others| ensures here[i].addr != others[j].addr {
        assert others[j] in others;
        AllSlotsMembership(mem, rest, p, spans, others[j]);
        var k :| 0 <= k < |rest| && others[j] in SlotsOf(mem, rest[k], p.alignment, p.ptrSize, spans);
        SlotsStayInRegion(mem, rest[k], p, spans);
        assert RegionsApart(regions[0], regions[k + 1]);
      }
    }
  }

  lemma SlotsStayInRegion(mem: Memory, r: Region, p: Params, spans: seq<Span>)
    requires r.base + r.size < TWO64
    ensures var s := SlotsOf(mem, r, p.alignment, p.ptrSize, spans);
            AddressesDistinct(s) && forall e :: e in s ==> InRegion(r, e.addr)
  {
    hide RegionSlots;
    if CanRead(mem, r.base, r.size) {
      RegionSlotsIncrease(ReadInto(mem, r.base, r.size).value, r.base, 0, StepOf(p.alignment), PointerWidth(p.ptrSize),
                          spans);
    }
  }

  lemma {:induction false} TwiceInMultiset(s: seq<Entry>, e: Entry)
    ensures multiset(s)[e] >= 2 ==> exists i, j :: 0 <= i < j < |s| && s[i] == e && s[j] == e
  {
    if s != [] {
      TwiceInMultiset(s[1..], e);
      assert s == [s[0]] + s[1..];
      if multiset(s)[e] >= 2 {
        if multiset(s[1..])[e] >= 2 {
          var i, j :| 0 <= i < j < |s[1..]| && s[1..][i] == e && s[1..][j] == e;
          assert s[i + 1] == e && s[j + 1] == e;
        } else {
          assert s[0] == e && e in multiset(s[1..]);
          assert e in s[1..];
          var j :| 0 <= j < |s[1..]| && s[1..][j] == e;
          assert s[j + 1] == e;
        }
      }
    }
  }

  /** A permutation keeps addresses distinct. */
  lemma PermutationKeepsDistinct(s: seq<Entry>, t: seq<Entry>)
    requires multiset(s) == multiset(t) && AddressesDistinct(s)
    ensures AddressesDistinct(t)
  {
    forall i, j | 0 <= i < j < |t| ensures t[i].addr != t[j].addr {
      assert t == t[..i] + [t[i]] + t[i + 1..j] + [t[j]] + t[j + 1..];
      assert t[i] in multiset(t) && t[j] in multiset(t);
      assert t[i] in s && t[j] in s;
      if t[i] == t[j] {
        assert multiset(t)[t[i]] >= 2;
        TwiceInMultiset(s, t[i]);
      } else {
        var a :| 0 <= a < |s| && s[a] == t[i];
        var b :| 0 <= b < |s| && s[b] == t[j];
        assert a != b;
      }
    }
  }

  // ----- The scan in terms of memory -----

  function IndexOf(mem: Memory, regions: seq<Region>, modules: seq<ModuleRange>, p: Params): Index {
    Index(PointerMap(mem, regions, p.alignment, p.ptrSize, Committed(regions)), modules, p)
  }

  ghost predicate NamesIdentifyRanges(modules: seq<ModuleRange>) {
    forall i, j :: 0 <= i < |modules| && 0 <= j < |modules| && modules[i].name == modules[j].name
      ==> modules[i].base == modules[j].base
  }

  lemma IndexIsUsable(mem: Memory, regions: seq<Region>, modules: seq<ModuleRange>, p: Params)
    requires WellFormed(regions)
    ensures var x := IndexOf(mem, regions, modules, p); Sorted(x) && ReadFrom(x, mem)
    ensures NamesIdentifyRanges(modules) ==> Unambiguous(IndexOf(mem, regions, modules, p))
  {
    hide PointerMap, AllSlots, IsCommitted, ReadPtr, IsAlignedIn;
    var x := IndexOf(mem, regions, modules, p);
    PointerMapIsExact(mem, regions, p);
    assert Sorted(x);
    forall i | 0 <= i < |x.entries| ensures ReadPtr(mem, x.entries[i].addr, p.ptrSize) == Some(x.entries[i].val) {
      assert x.entries[i] in x.entries;
      assert IsSlot(mem, regions, p, x.entries[i]);
    }
    AllSlotsDistinct(mem, regions, p, Committed(regions));
    PermutationKeepsDistinct(AllSlots(mem, regions, p.alignment, p.ptrSize, Committed(regions)), x.entries);
  }

  /** A chain of slots, from the one nearest the target to the static one, as the search tells static addresses. */
  ghost predicate IsSlotChain(mem: Memory, regions: seq<Region>, modules: seq<ModuleRange>, p: Params, es: seq<Entry>) {
    AreLinked(modules, p, es) && forall k :: 0 <= k < |es| ==> IsSlot(mem, regions, p, es[k])
  }

  /** Every entry leads to the one before it, the first to the target, and only the last is static. */
  ghost predicate AreLinked(modules: seq<ModuleRange>, p: Params, es: seq<Entry>) {
    && 1 <= |es| && (|es| == 1 || |es| <= p.maxDepth)
    && (forall k :: 0 <= k < |es| ==> Before(es, p.target, k) - p.maxOffset <= es[k].val <= Before(es, p.target, k))
    && (forall k :: 0 <= k < |es| - 1 ==> ModuleOf(modules, es[k].addr).None?)
    && ModuleOf(modules, es[|es| - 1].addr).Some?
  }

  /** The address slot k leads to. */
  function Before(es: seq<Entry>, target: u64, k: nat): u64
    requires k < |es|
  {
    if k == 0 then target else es[k - 1].addr
  }

  /** Distance of every slot to the address it leads to. */
  function Distances(es: seq<Entry>, target: u64): (r: seq<u64>)
    ensures |r| == |es| && forall k :: 0 <= k < |es| ==> r[k] == AsU64(Before(es, target, k) - es[k].val)
  {
    seq(|es|, k requires 0 <= k < |es| => AsU64(Before(es, target, k) - es[k].val))
  }

  function ChainPath(modules: seq<ModuleRange>, es: seq<Entry>, target: u64): PtrPath
    requires es != [] && ModuleOf(modules, es[|es| - 1].addr).Some?
  {
    PathFrom(ModuleOf(modules, es[|es| - 1].addr).value, es[|es| - 1].addr, Distances(es, target))
  }

  function EntriesOf(x: Index, c: Chain): (es: seq<Entry>)
    requires x.InRange(c)
    ensures |es| == |c| && forall k :: 0 <= k < |c| ==> es[k] == x.entries[c[k]]
  {
    seq(|c|, k requires 0 <= k < |c| => x.entries[c[k]])
  }

  lemma ChainPathIsPathOf(x: Index, c: Chain, target: u64)
    requires c != [] && x.InRange(c) && x.IsStatic(c[|c| - 1])
    requires x.Gaps(c, target) == Distances(EntriesOf(x, c), target)
    ensures ChainPath(x.modules, EntriesOf(x, c), target) == x.PathOf(c, target, [])
  {
    var es := EntriesOf(x, c);
    assert es[|c| - 1] == x.entries[c[|c| - 1]];
    assert [] + x.Gaps(c, target) == x.Gaps(c, target);
    hide ModuleOf, Index.Gaps, Distances, EntriesOf, PathFrom, Index.IsStatic, Index.InRange;
  }

  lemma GapsAreDistances(x: Index, c: Chain, target: u64)
    requires x.InRange(c)
    requires forall k :: 0 <= k < |c| ==> x.Near(c[k], x.Wanted(c, target, k))
    ensures x.Gaps(c, target) == Distances(EntriesOf(x, c), target)
  {
    hide Index.Gaps, Distances, Index.Wanted, Before;
    var es := EntriesOf(x, c);
    GapsAt(x, c, target);
    forall k | 0 <= k < |c| ensures x.Gaps(c, target)[k] == Distances(es, target)[k] {
      assert x.Near(c[k], x.Wanted(c, target, k));
      WantedIsBefore(x, c, target, k);
    }
  }

  lemma WantedIsBefore(x: Index, c: Chain, target: u64, k: nat)
    requires x.InRange(c) && k < |c|
    ensures x.Wanted(c, target, k) == Before(EntriesOf(x, c), target, k)
    ensures EntriesOf(x, c)[k] == x.entries[c[k]]
  {}

  /** The same chain by indices and by slots. */
  lemma IndexChainIsSlotChain(mem: Memory, regions: seq<Region>, x: Index, c: Chain)
    requires WellFormed(regions) && x == IndexOf(mem, regions, x.modules, x.p)
    requires x.IsChain(c, x.p.target)
    ensures IsSlotChain(mem, regions, x.modules, x.p, EntriesOf(x, c))
  {
    hide ModuleOf, PointerMap, IsSlot, Index.Near, Index.IsStatic, Index.Wanted, Before, IndexOf;
    var es := EntriesOf(x, c);
    forall k | 0 <= k < |es|
      ensures IsSlot(mem, regions, x.p, es[k])
      ensures Before(es, x.p.target, k) - x.p.maxOffset <= es[k].val <= Before(es, x.p.target, k)
      ensures x.IsStatic(c[k]) <==> ModuleOf(x.modules, es[k].addr).Some?
    {
      EntryOfChain(mem, regions, x, c, k);
    }
  }

  lemma EntryOfChain(mem: Memory, regions: seq<Region>, x: Index, c: Chain, k: nat)
    requires WellFormed(regions) && x == IndexOf(mem, regions, x.modules, x.p)
    requires x.InRange(c) && k < |c| && x.Near(c[k], x.Wanted(c, x.p.target, k))
    ensures var es := EntriesOf(x, c);
            && IsSlot(mem, regions, x.p, es[k])
            && Before(es, x.p.target, k) - x.p.maxOffset <= es[k].val <= Before(es, x.p.target, k)
            && (x.IsStatic(c[k]) <==> ModuleOf(x.modules, es[k].addr).Some?)
  {
    hide ModuleOf, PointerMap, IsSlot;
    PointerMapIsExact(mem, regions, x.p);
    assert x.entries[c[k]] in x.entries;
  }

  /** The index of every slot of a chain. */
  lemma SlotIndices(mem: Memory, regions: seq<Region>, x: Index, es: seq<Entry>) returns (c: Chain)
    requires WellFormed(regions) && x == IndexOf(mem, regions, x.modules, x.p)
    requires forall k :: 0 <= k < |es| ==> IsSlot(mem, regions, x.p, es[k])
    ensures x.InRange(c) && EntriesOf(x, c) == es
  {
    hide PointerMap, IsSlot, IndexOf, WellFormed;
    c := [];
    while |c| < |es|
      invariant |c| <= |es| && x.InRange(c)
      invariant forall k :: 0 <= k < |c| ==> x.entries[c[k]] == es[k]
    {
      var i := SlotIndex(mem, regions, x, es[|c|]);
      c := c + [i];
    }
  }

  lemma SlotIndex(mem: Memory, regions: seq<Region>, x: Index, e: Entry) returns (i: nat)
    requires WellFormed(regions) && x == IndexOf(mem, regions, x.modules, x.p) && IsSlot(mem, regions, x.p, e)
    ensures i < |x.entries| && x.entries[i] == e
  {
    hide PointerMap, IsSlot, WellFormed;
    PointerMapIsExact(mem, regions, x.p);
    assert e in x.entries;
    i :| 0 <= i < |x.entries| && x.entries[i] == e;
  }

  lemma SlotChainIsIndexed(mem: Memory, regions: seq<Region>, x: Index, es: seq<Entry>) returns (c: Chain)
    requires WellFormed(regions) && x == IndexOf(mem, regions, x.modules, x.p)
    requires IsSlotChain(mem, regions, x.modules, x.p, es)
    ensures x.IsChain(c, x.p.target) && EntriesOf(x, c) == es
  {
    c := SlotIndices(mem, regions, x, es);
    LinkedIsChain(x, c);
    hide AreLinked, IsSlot, IndexOf, EntriesOf, WellFormed, Index.IsChainFrom;
  }

  lemma LinkedIsChain(x: Index, c: Chain)
    requires x.InRange(c) && AreLinked(x.modules, x.p, EntriesOf(x, c))
    ensures x.IsChain(c, x.p.target)
  {
    hide ModuleOf, EntriesOf, Index.Wanted, Index.Near, Index.IsStatic, Before;
    var es := EntriesOf(x, c);
    forall k | 0 <= k < |c|
      ensures x.Near(c[k], x.Wanted(c, x.p.target, k))
      ensures x.IsStatic(c[k]) <==> ModuleOf(x.modules, es[k].addr).Some?
    {
      IndexedEntry(x, c, k);
    }
  }

  lemma IndexedEntry(x: Index, c: Chain, k: nat)
    requires x.InRange(c) && k < |c|
    ensures var es := EntriesOf(x, c);
            && (x.Near(c[k], x.Wanted(c, x.p.target, k)) <==>
                Before(es, x.p.target, k) - x.p.maxOffset <= es[k].val <= Before(es, x.p.target, k))
            && (x.IsStatic(c[k]) <==> ModuleOf(x.modules, es[k].addr).Some?)
  {
    hide ModuleOf;
    var es := EntriesOf(x, c);
    assert x.entries[c[k]] == es[k];
    assert k > 0 ==> x.entries[c[k - 1]] == es[k - 1];
  }

  /** Uncapped, the scan reports exactly the paths of the slot chains. */
  lemma ScanFindsSlotChains(mem: Memory, regions: seq<Region>, modules: seq<ModuleRange>, p: Params, path: PtrPath)
    requires WellFormed(regions)
    ensures path in AllPaths(mem, regions, modules, p)
            <==> exists es :: IsSlotChain(mem, regions, modules, p, es) && path == ChainPath(modules, es, p.target)
  {
    hide Enumerate, Index.PathOf, ChainPath, PointerMap, ModuleOf, IsSlot, Index.Near;
    var x := IndexOf(mem, regions, modules, p);
    IndexIsUsable(mem, regions, modules, p);
    EnumerationIsExact(x, path);
    if path in AllPaths(mem, regions, modules, p) {
      var c :| x.IsChain(c, p.target) && path == x.PathOf(c, p.target, []);
      IndexChainIsSlotChain(mem, regions, x, c);
      GapsAreDistances(x, c, p.target);
      ChainPathIsPathOf(x, c, p.target);
    }
    if es :| IsSlotChain(mem, regions, modules, p, es) && path == ChainPath(modules, es, p.target) {
      var c := SlotChainIsIndexed(mem, regions, x, es);
      GapsAreDistances(x, c, p.target);
      ChainPathIsPathOf(x, c, p.target);
    }
  }

  // ----- The scan in terms of memory and modules -----

  /** A pointer chain, from the slot nearest the target to the static one: the last slot lies in a module and
      no other does, every slot points at most `maxOffset` below the next address, and the depth bound is kept. */
  ghost predicate IsPointerChain(mem: Memory, regions: seq<Region>, mods: seq<ModuleInfo>, p: Params, es: seq<Entry>) {
    && 1 <= |es| && (|es| == 1 || |es| <= p.maxDepth)
    && (forall k :: 0 <= k < |es| ==> IsSlot(mem, regions, p, es[k]))
    && (forall k :: 0 <= k < |es| ==> Before(es, p.target, k) - p.maxOffset <= es[k].val <= Before(es, p.target, k))
    && (forall k :: 0 <= k < |es| - 1 ==> !InSomeModule(mods, es[k].addr))
    && InSomeModule(mods, es[|es| - 1].addr)
  }

  /** The path of a chain through the module that contains its static slot: the module's name, the slot's
      offset in it, and the distances in dereference order. */
  ghost predicate IsPathThrough(m: ModuleInfo, es: seq<Entry>, target: u64, path: PtrPath)
    requires es != []
  {
    var addr := es[|es| - 1].addr;
    InModule(m, addr) && path == PtrPath(m.name, addr - m.base, Reverse(Distances(es, target)))
  }

  lemma SlotChainIsPointerChain(mem: Memory, regions: seq<Region>, mods: seq<ModuleInfo>, p: Params, es: seq<Entry>)
    requires ModulesWellFormed(mods)
    ensures IsSlotChain(mem, regions, ModuleRangesFrom(mods), p, es) <==> IsPointerChain(mem, regions, mods, p, es)
  {
    hide ModuleOf, ModuleRangesFrom, InSomeModule, IsSlot, ModulesWellFormed, Before;
    forall k | 0 <= k < |es|
      ensures ModuleOf(ModuleRangesFrom(mods), es[k].addr).Some? <==> InSomeModule(mods, es[k].addr)
    {
      StaticIsInSomeModule(mods, es[k].addr);
    }
  }

  lemma ChainPathIsThroughModule(mods: seq<ModuleInfo>, es: seq<Entry>, target: u64, path: PtrPath)
    requires ModulesWellFormed(mods) && es != [] && ModuleOf(ModuleRangesFrom(mods), es[|es| - 1].addr).Some?
    ensures path == ChainPath(ModuleRangesFrom(mods), es, target)
            <==> exists i :: 0 <= i < |mods| && IsPathThrough(mods[i], es, target, path)
  {
    hide ModuleOf, ModuleRangesFrom, ModulesWellFormed, Distances, Reverse;
    var addr := es[|es| - 1].addr;
    var m := ModuleOf(ModuleRangesFrom(mods), addr).value;
    ModuleOfIsContainment(mods, addr, m.0, m.1);
    var i :| 0 <= i < |mods| && mods[i].name == m.0 && mods[i].base == m.1 && InModule(mods[i], addr);
    if path == ChainPath(ModuleRangesFrom(mods), es, target) {
      assert IsPathThrough(mods[i], es, target, path);
    }
    if j :| 0 <= j < |mods| && IsPathThrough(mods[j], es, target, path) {
      ModuleOfIsContainment(mods, addr, mods[j].name, mods[j].base);
    }
  }

  /** Completeness and soundness: uncapped, the scan reports a path if and only if memory holds a pointer
      chain with that path. */
  lemma ScanFindsExactlyTheChains(mem: Memory, regions: seq<Region>, mods: seq<ModuleInfo>, p: Params, path: PtrPath)
    requires WellFormed(regions) && ModulesWellFormed(mods)
    ensures path in AllPaths(mem, regions, ModuleRangesFrom(mods), p)
            <==> exists es, i :: (IsPointerChain(mem, regions, mods, p, es) && 0 <= i < |mods|
                                  && IsPathThrough(mods[i], es, p.target, path))
  {
    hide AllPaths, ModuleOf, ModuleRangesFrom, ModulesWellFormed, WellFormed, ChainPath, IsPathThrough, IsSlot,
            InSomeModule;
    var modules := ModuleRangesFrom(mods);
    ScanFindsSlotChains(mem, regions, modules, p, path);
    if path in AllPaths(mem, regions, modules, p) {
      var es :| IsSlotChain(mem, regions, modules, p, es) && path == ChainPath(modules, es, p.target);
      SlotChainIsPointerChain(mem, regions, mods, p, es);
      ChainPathIsThroughModule(mods, es, p.target, path);
    }
    if es, i :| (IsPointerChain(mem, regions, mods, p, es) && 0 <= i < |mods|
                && IsPathThrough(mods[i], es, p.target, path))
    {
      SlotChainIsPointerChain(mem, regions, mods, p, es);
      ChainPathIsThroughModule(mods, es, p.target, path);
    }
  }

  /** Each of them exactly once, and each resolves to the target in the memory that was scanned, from the base
      of a module of its name. */
  lemma ScanIsSoundAndDuplicateFree(mem: Memory, regions: seq<Region>, mods: seq<ModuleInfo>, p: Params)
    requires WellFormed(regions)
    ensures NamesIdentifyModules(mods) ==> NoRepeats(AllPaths(mem, regions, ModuleRangesFrom(mods), p))
    ensures forall path :: path in AllPaths(mem, regions, ModuleRangesFrom(mods), p) ==>
              exists m :: 0 <= m < |mods| && mods[m].name == path.mod
                && Resolve(mem, mods[m].base, path, p.ptrSize) == Some(p.target)
  {
    hide Enumerate, PointerMap, Resolve, ModuleRangesFrom;
    var modules := ModuleRangesFrom(mods);
    var x := IndexOf(mem, regions, modules, p);
    IndexIsUsable(mem, regions, modules, p);
    if NamesIdentifyModules(mods) {
      NamesIdentify(mods);
      NoPathTwice(x);
    }
    forall path | path in AllPaths(mem, regions, modules, p)
      ensures exists m :: 0 <= m < |mods| && mods[m].name == path.mod
                && Resolve(mem, mods[m].base, path, p.ptrSize) == Some(p.target)
    {
      PathsResolveToTarget(x, mem, path);
      var k :| 0 <= k < |modules| && modules[k].name == path.mod
        && Resolve(mem, modules[k].base, path, p.ptrSize) == Some(p.target);
      var m := ModuleOfRange(mods, modules[k]);
    }
  }

  ghost predicate NamesIdentifyModules(mods: seq<ModuleInfo>) {
    forall i, j :: 0 <= i < |mods| && 0 <= j < |mods| && mods[i].name == mods[j].name ==> mods[i].base == mods[j].base
  }

  lemma NamesIdentify(mods: seq<ModuleInfo>)
    requires NamesIdentifyModules(mods)
    ensures NamesIdentifyRanges(ModuleRangesFrom(mods))
  {
    hide ModuleRangesFrom;
    var modules := ModuleRangesFrom(mods);
    forall i, j | 0 <= i < |modules| && 0 <= j < |modules| && modules[i].name == modules[j].name
      ensures modules[i].base == modules[j].base
    {
      var a := ModuleOfRange(mods, modules[i]);
      var b := ModuleOfRange(mods, modules[j]);
    }
  }
}
