/** Binary search in the sorted module ranges finds the module that contains an address. */
module StaticAddresses {
  import opened Wrappers
  import opened Bytes
  import opened Ordering
  import opened Pointers

  /** Containment, by the list of the operating system. */
  predicate InModule(m: ModuleInfo, addr: int) { m.base <= addr < m.base + m.size }

  predicate ModulesApart(m: ModuleInfo, s: ModuleInfo) {
    m.base != s.base && (m.base + m.size <= s.base || s.base + s.size <= m.base)
  }

  /** Modules of the address space that do not overlap. */
  ghost predicate ModulesWellFormed(mods: seq<ModuleInfo>) {
    && (forall i :: 0 <= i < |mods| ==> mods[i].base + mods[i].size < TWO64)
    && (forall i, j :: 0 <= i < j < |mods| ==> ModulesApart(mods[i], mods[j]))
  }

  ghost predicate InSomeModule(mods: seq<ModuleInfo>, addr: int) {
    exists i :: 0 <= i < |mods| && InModule(mods[i], addr)
  }

  /** The ranges are the modules, sorted by base. */
  lemma RangesAreSorted(mods: seq<ModuleInfo>)
    ensures var ranges := ModuleRangesFrom(mods);
            && (forall i, j :: 0 <= i < j < |ranges| ==> ranges[i].base <= ranges[j].base)
            && (forall r :: r in ranges <==> r in RangesOf(mods))
  {
    var byBase := (m: ModuleRange) => m.base;
    SortBySorts(RangesOf(mods), byBase);
    var ranges := ModuleRangesFrom(mods);
    assert ranges == SortBy(RangesOf(mods), byBase);
    assert forall r :: r in ranges <==> r in multiset(ranges);
    assert forall r :: r in RangesOf(mods) <==> r in multiset(RangesOf(mods));
    forall i, j | 0 <= i < j < |ranges| ensures ranges[i].base <= ranges[j].base {
      assert byBase(ranges[i]) <= byBase(ranges[j]);
    }
  }

  /** Every range is that of a module. */
  lemma ModuleOfRange(mods: seq<ModuleInfo>, r: ModuleRange) returns (i: nat)
    requires r in ModuleRangesFrom(mods)
    ensures i < |mods| && r == RangeOf(mods[i])
  {
    RangesAreSorted(mods);
    hide ModuleRangesFrom, RangeOf, RangesOf;
    i :| 0 <= i < |RangesOf(mods)| && RangesOf(mods)[i] == r;
  }

  lemma LastRangeBefore(ranges: seq<ModuleRange>, addr: u64) returns (i: nat)
    requires forall i, j :: 0 <= i < j < |ranges| ==> ranges[i].base <= ranges[j].base
    ensures i <= |ranges|
    ensures forall k :: 0 <= k < i ==> ranges[k].base <= addr
    ensures forall k :: i <= k < |ranges| ==> ranges[k].base > addr
    ensures ModuleOf(ranges, addr)
            == if i != 0 && ranges[i - 1].base <= addr < ranges[i - 1].end
               then Some((ranges[i - 1].name, ranges[i - 1].base)) else None
  {
    var starts := (m: ModuleRange) => m.base <= addr;
    assert Partitioned(ranges, starts);
    i := PartitionPoint(ranges, starts, 0, |ranges|);
    assert forall k :: 0 <= k < i ==> starts(ranges[k]);
    assert forall k :: i <= k < |ranges| ==> !starts(ranges[k]);
  }

  lemma RangeCoversModule(m: ModuleInfo, addr: int)
    requires m.base + m.size < TWO64
    ensures RangeOf(m).base <= addr < RangeOf(m).end <==> InModule(m, addr)
  {}

  /** Of modules that do not overlap, the one containing an address has the last base before it. */
  lemma LastBaseContains(mods: seq<ModuleInfo>, i: nat, j: nat, addr: int)
    requires ModulesWellFormed(mods) && i < |mods| && j < |mods|
    requires InModule(mods[i], addr) && mods[i].base <= mods[j].base <= addr
    ensures i == j
  {
    assert i < j ==> ModulesApart(mods[i], mods[j]);
    assert j < i ==> ModulesApart(mods[j], mods[i]);
  }

  /** The binary search names a module if and only if that module contains the address. */
  lemma ModuleOfIsContainment(mods: seq<ModuleInfo>, addr: u64, name: string, base: u64)
    requires ModulesWellFormed(mods)
    ensures ModuleOf(ModuleRangesFrom(mods), addr) == Some((name, base))
            <==> exists i :: 0 <= i < |mods| && mods[i].name == name && mods[i].base == base && InModule(mods[i], addr)
  {
    var ranges := ModuleRangesFrom(mods);
    RangesAreSorted(mods);
    var k := LastRangeBefore(ranges, addr);
    hide ModuleOf, ModuleRangesFrom, RangesOf, ModulesWellFormed;
    if ModuleOf(ranges, addr) == Some((name, base)) {
      var i := ModuleOfRange(mods, ranges[k - 1]);
      EndIsInside(mods, i);
      RangeCoversModule(mods[i], addr);
    }
    if i :| 0 <= i < |mods| && mods[i].name == name && mods[i].base == base && InModule(mods[i], addr) {
      EndIsInside(mods, i);
      RangeCoversModule(mods[i], addr);
      var r := RangesOf(mods)[i];
      assert r in ranges;
      var n :| 0 <= n < |ranges| && ranges[n] == r;
      assert n < k;
      var j := ModuleOfRange(mods, ranges[k - 1]);
      assert ranges[n].base <= ranges[k - 1].base;
      LastBaseContains(mods, i, j, addr);
    }
  }

  lemma EndIsInside(mods: seq<ModuleInfo>, i: nat)
    requires ModulesWellFormed(mods) && i < |mods|
    ensures mods[i].base + mods[i].size < TWO64
  {}

  /** An address is static if and only if it lies in some module. */
  lemma StaticIsInSomeModule(mods: seq<ModuleInfo>, addr: u64)
    requires ModulesWellFormed(mods)
    ensures ModuleOf(ModuleRangesFrom(mods), addr).Some? <==> InSomeModule(mods, addr)
  {
    hide ModuleOf, ModuleRangesFrom, ModulesWellFormed;
    var m := ModuleOf(ModuleRangesFrom(mods), addr);
    if m.Some? {
      ModuleOfIsContainment(mods, addr, m.value.0, m.value.1);
    }
    if i :| 0 <= i < |mods| && InModule(mods[i], addr) {
      ModuleOfIsContainment(mods, addr, mods[i].name, mods[i].base);
    }
  }
}
