/** The search enumerates exactly the chains of slots that lead from a module to the target, each once. */
module PointerChains {
  import opened Wrappers
  import opened Bytes
  import opened Sequences
  import opened ProcessMemory
  import opened Ordering
  import opened Pointers

  /** A chain: indices of map entries, from the one nearest the target to the static one. */
  type Chain = seq<nat>

  datatype Index = Index(entries: seq<Entry>, modules: seq<ModuleRange>, p: Params) {
    /** The address that entry k of a chain must point near. */
    function Wanted(c: Chain, target: u64, k: nat): u64
      requires InRange(c) && k < |c|
    {
      if k == 0 then target else entries[c[k - 1]].addr
    }

    predicate InRange(c: Chain) { forall k :: 0 <= k < |c| ==> c[k] < |entries| }

    predicate Near(i: nat, target: u64)
      requires i < |entries|
    {
      target - p.maxOffset <= entries[i].val <= target
    }

    predicate IsStatic(i: nat)
      requires i < |entries|
    {
      ModuleOf(modules, entries[i].addr).Some?
    }

    /** The declarative meaning, `depth` entries being already on the stack: every entry points at most
        `maxOffset` below the next address, only the last one lies in a module, and the depth bound is
        kept (a single entry is always allowed). */
    ghost predicate IsChainFrom(c: Chain, target: u64, depth: nat) {
      && InRange(c) && 1 <= |c| && (|c| == 1 || |c| + depth <= p.maxDepth)
      && (forall k :: 0 <= k < |c| ==> Near(c[k], Wanted(c, target, k)))
      && (forall k :: 0 <= k < |c| - 1 ==> !IsStatic(c[k]))
      && IsStatic(c[|c| - 1])
    }

    ghost predicate IsChain(c: Chain, target: u64) { IsChainFrom(c, target, 0) }

    /** The same step by step. */
    predicate Extends(c: Chain, target: u64, depth: nat)
      decreases |c|
    {
      && c != [] && c[0] < |entries| && Near(c[0], target)
      && if IsStatic(c[0]) then |c| == 1
         else depth + 1 < p.maxDepth && Extends(c[1..], entries[c[0]].addr, depth + 1)
    }

    lemma ChainTail(c: Chain, target: u64, depth: nat)
      requires |c| >= 2 && IsChainFrom(c, target, depth)
      ensures Near(c[0], target) && !IsStatic(c[0]) && depth + 1 < p.maxDepth
      ensures IsChainFrom(c[1..], entries[c[0]].addr, depth + 1)
    {
      hide IsStatic;
      var rest, next := c[1..], entries[c[0]].addr;
      assert Near(c[0], Wanted(c, target, 0)) && !IsStatic(c[0]);
      forall k | 0 <= k < |rest| ensures Near(rest[k], Wanted(rest, next, k)) {
        assert Wanted(c, target, k + 1) == Wanted(rest, next, k);
        assert Near(c[k + 1], Wanted(c, target, k + 1));
      }
      forall k | 0 <= k < |rest| - 1 ensures !IsStatic(rest[k]) { assert rest[k] == c[k + 1]; }
    }

    lemma ChainCons(c: Chain, target: u64, depth: nat)
      requires |c| >= 2 && c[0] < |entries| && Near(c[0], target) && !IsStatic(c[0]) && depth + 1 < p.maxDepth
      requires IsChainFrom(c[1..], entries[c[0]].addr, depth + 1)
      ensures IsChainFrom(c, target, depth)
    {
      hide IsStatic;
      var rest, next := c[1..], entries[c[0]].addr;
      forall k | 0 <= k < |c| ensures c[k] < |entries| { if k > 0 { assert c[k] == rest[k - 1]; } }
      forall k | 0 <= k < |c| ensures Near(c[k], Wanted(c, target, k)) {
        if k > 0 { assert Wanted(c, target, k) == Wanted(rest, next, k - 1); }
      }
      forall k | 0 <= k < |c| - 1 ensures !IsStatic(c[k]) { if k > 0 { assert c[k] == rest[k - 1]; } }
    }

    lemma {:induction false} ExtendsDeclaratively(c: Chain, target: u64, depth: nat)
      ensures Extends(c, target, depth) <==> IsChainFrom(c, target, depth)
      decreases |c|
    {
      hide IsStatic;
      if |c| >= 2 && c[0] < |entries| {
        ExtendsDeclaratively(c[1..], entries[c[0]].addr, depth + 1);
        if IsChainFrom(c, target, depth) {
          ChainTail(c, target, depth);
        }
        if Extends(c, target, depth) {
          ChainCons(c, target, depth);
        }
      }
    }

    // ----- Enumerating chains -----

    /** All chains below a target, in search order. */
    function Chains(target: u64, depth: nat): seq<Chain>
      decreases p.maxDepth - depth, |entries| + 1
    {
      ChainsFrom(target, depth, StartIndex(entries, target, p.maxOffset))
    }

    function ChainsFrom(target: u64, depth: nat, i: nat): seq<Chain>
      requires i <= |entries|
      decreases p.maxDepth - depth, |entries| - i
    {
      if i == |entries| || entries[i].val > target then []
      else ChainsAt(target, depth, i) + ChainsFrom(target, depth, i + 1)
    }

    /** The chains that start with entry i. */
    function ChainsAt(target: u64, depth: nat, i: nat): seq<Chain>
      requires i < |entries|
      decreases p.maxDepth - depth, |entries| - i, 0
    {
      if IsStatic(i) then [[i]]
      else if depth + 1 < p.maxDepth then Prefixed(i, Chains(entries[i].addr, depth + 1))
      else []
    }

    /** Distance of every entry of a chain to the address it leads to. */
    function Gaps(c: Chain, target: u64): seq<u64>
      requires InRange(c)
    {
      if c == [] then [] else [AsU64(target - entries[c[0]].val)] + Gaps(c[1..], entries[c[0]].addr)
    }

    /** The path a chain stands for, below the offsets already on the stack. */
    function PathOf(c: Chain, target: u64, offsets: seq<u64>): PtrPath
      requires c != [] && InRange(c) && IsStatic(c[|c| - 1])
    {
      var addr := entries[c[|c| - 1]].addr;
      PathFrom(ModuleOf(modules, addr).value, addr, offsets + Gaps(c, target))
    }
  }

  function Prefixed(i: nat, cs: seq<Chain>): (r: seq<Chain>)
    ensures |r| == |cs| && forall k :: 0 <= k < |r| ==> r[k] == [i] + cs[k]
  {
    if cs == [] then [] else [[i] + cs[0]] + Prefixed(i, cs[1..])
  }

  // ----- The enumeration is exactly the chains -----

  /** The map is sorted by value, as `BuildPointerMap` leaves it. */
  ghost predicate Sorted(x: Index) { forall i, j :: 0 <= i < j < |x.entries| ==> x.entries[i].val <= x.entries[j].val }

  lemma StartIsFirstNear(x: Index, target: u64)
    requires Sorted(x)
    ensures var start := StartIndex(x.entries, target, x.p.maxOffset);
            && start <= |x.entries|
            && forall i :: 0 <= i < |x.entries| && x.entries[i].val <= target ==> (start <= i <==> x.Near(i, target))
  {
    var lo := Low(target, x.p.maxOffset);
    var below := (e: Entry) => e.val < lo;
    assert Partitioned(x.entries, below);
    var start := PartitionPoint(x.entries, below, 0, |x.entries|);
    assert start == StartIndex(x.entries, target, x.p.maxOffset) by {
      assert below == ((e: Entry) => e.val < Low(target, x.p.maxOffset));
    }
    forall i | 0 <= i < |x.entries| && x.entries[i].val <= target ensures start <= i <==> x.Near(i, target) {
      assert i < start ==> below(x.entries[i]);
      assert i >= start ==> !below(x.entries[i]);
    }
  }

  /** Every chain is enumerated, and nothing else is. */
  lemma {:induction false} ChainsAreExact(x: Index, target: u64, depth: nat, c: Chain)
    requires Sorted(x)
    ensures c in x.Chains(target, depth) <==> x.Extends(c, target, depth)
    decreases x.p.maxDepth - depth, |x.entries| + 1
  {
    var start := StartIndex(x.entries, target, x.p.maxOffset);
    StartIsFirstNear(x, target);
    ChainsFromAreExact(x, target, depth, start, c);
    if x.Extends(c, target, depth) {
      assert x.Near(c[0], target);
    }
  }

  lemma {:induction false} ChainsFromAreExact(x: Index, target: u64, depth: nat, i: nat, c: Chain)
    requires Sorted(x) && StartIndex(x.entries, target, x.p.maxOffset) <= i <= |x.entries|
    ensures c in x.ChainsFrom(target, depth, i) <==> x.Extends(c, target, depth) && c[0] >= i
    decreases x.p.maxDepth - depth, |x.entries| - i
  {
    StartIsFirstNear(x, target);
    ChainsStayBelowTarget(x, target, depth, i, c);
    if i < |x.entries| && x.entries[i].val <= target {
      ChainsAtAreExact(x, target, depth, i, c);
      ChainsFromAreExact(x, target, depth, i + 1, c);
    }
  }

  lemma ChainsStayBelowTarget(x: Index, target: u64, depth: nat, i: nat, c: Chain)
    requires Sorted(x) && i <= |x.entries|
    ensures x.Extends(c, target, depth) && c[0] >= i ==> i < |x.entries| && x.entries[i].val <= target
  {
    if x.Extends(c, target, depth) && c[0] >= i {
      assert x.Near(c[0], target);
      assert c[0] > i ==> x.entries[i].val <= x.entries[c[0]].val;
    }
  }

  lemma {:induction false} ChainsAtAreExact(x: Index, target: u64, depth: nat, i: nat, c: Chain)
    requires Sorted(x) && i < |x.entries| && x.Near(i, target)
    ensures c in x.ChainsAt(target, depth, i) <==> x.Extends(c, target, depth) && c[0] == i
    decreases x.p.maxDepth - depth, |x.entries| - i, 0
  {
    if x.IsStatic(i) {
      if x.Extends(c, target, depth) && c[0] == i {
        assert c == [i];
      }
    } else if depth + 1 < x.p.maxDepth {
      var subs := x.Chains(x.entries[i].addr, depth + 1);
      if c != [] && c[0] == i {
        ChainsAreExact(x, x.entries[i].addr, depth + 1, c[1..]);
        assert c == [i] + c[1..];
        if c[1..] in subs {
          var k :| 0 <= k < |subs| && subs[k] == c[1..];
          assert Prefixed(i, subs)[k] == c;
        }
        if c in Prefixed(i, subs) {
          var k :| 0 <= k < |subs| && Prefixed(i, subs)[k] == c;
          assert subs[k] == c[1..];
        }
      }
    }
  }

  /** No chain is enumerated twice. */
  lemma {:induction false} ChainsAreDistinct(x: Index, target: u64, depth: nat)
    requires Sorted(x)
    ensures NoRepeats(x.Chains(target, depth))
    decreases x.p.maxDepth - depth, |x.entries| + 1
  {
    StartIsFirstNear(x, target);
    ChainsFromAreDistinct(x, target, depth, StartIndex(x.entries, target, x.p.maxOffset));
  }

  lemma {:induction false} ChainsFromAreDistinct(x: Index, target: u64, depth: nat, i: nat)
    requires Sorted(x) && StartIndex(x.entries, target, x.p.maxOffset) <= i <= |x.entries|
    ensures NoRepeats(x.ChainsFrom(target, depth, i))
    decreases x.p.maxDepth - depth, |x.entries| - i
  {
    if i < |x.entries| && x.entries[i].val <= target {
      StartIsFirstNear(x, target);
      ChainsFromAreDistinct(x, target, depth, i + 1);
      var here, rest := x.ChainsAt(target, depth, i), x.ChainsFrom(target, depth, i + 1);
      if !x.IsStatic(i) && depth + 1 < x.p.maxDepth {
        var subs := x.Chains(x.entries[i].addr, depth + 1);
        ChainsAreDistinct(x, x.entries[i].addr, depth + 1);
        forall a, b | 0 <= a < b < |here| ensures here[a] != here[b] {
          assert here[a][1..] == subs[a] && here[b][1..] == subs[b];
        }
      }
      forall a, b | 0 <= a < |here| && 0 <= b < |rest| ensures here[a] != rest[b] {
        assert here[a] in here && rest[b] in rest;
        ChainsAtAreExact(x, target, depth, i, here[a]);
        ChainsFromAreExact(x, target, depth, i + 1, rest[b]);
      }
    }
  }

  // ----- Paths and chains -----

  predicate HasPath(x: Index, c: Chain) { c != [] && x.InRange(c) && x.IsStatic(c[|c| - 1]) }

  /** Chains as the search visits them: every one has a path. */
  ghost predicate AllHavePaths(x: Index, cs: seq<Chain>) { forall k :: 0 <= k < |cs| ==> HasPath(x, cs[k]) }

  lemma ChainHasPath(x: Index, c: Chain, target: u64, depth: nat)
    requires x.Extends(c, target, depth)
    ensures c != [] && x.InRange(c) && x.IsStatic(c[|c| - 1])
  {
    x.ExtendsDeclaratively(c, target, depth);
  }

  lemma ChainsHavePaths(x: Index, target: u64, depth: nat)
    requires Sorted(x)
    ensures AllHavePaths(x, x.Chains(target, depth))
  {
    var cs := x.Chains(target, depth);
    forall k | 0 <= k < |cs| ensures HasPath(x, cs[k]) {
      assert cs[k] in cs;
      ChainsAreExact(x, target, depth, cs[k]);
      ChainHasPath(x, cs[k], target, depth);
    }
  }

  function Paths(x: Index, cs: seq<Chain>, target: u64, offsets: seq<u64>): (r: seq<PtrPath>)
    requires AllHavePaths(x, cs)
    ensures |r| == |cs| && forall k :: 0 <= k < |r| ==> r[k] == x.PathOf(cs[k], target, offsets)
  {
    seq(|cs|, k requires 0 <= k < |cs| && HasPath(x, cs[k]) => x.PathOf(cs[k], target, offsets))
  }

  /** Pushing an offset and searching on is the same as prefixing the chain. */
  lemma PathOfPrefixed(x: Index, i: nat, c: Chain, target: u64, offsets: seq<u64>)
    requires i < |x.entries| && x.entries[i].val <= target
    requires c != [] && x.InRange(c) && x.IsStatic(c[|c| - 1])
    ensures var c' := [i] + c;
            && x.InRange(c') && c'[|c'| - 1] == c[|c| - 1]
            && x.PathOf(c', target, offsets) == x.PathOf(c, x.entries[i].addr, offsets + [target - x.entries[i].val])
  {
    var c' := [i] + c;
    assert c'[1..] == c;
    assert x.Gaps(c', target) == [target - x.entries[i].val] + x.Gaps(c, x.entries[i].addr);
    assert offsets + ([target - x.entries[i].val] + x.Gaps(c, x.entries[i].addr))
           == (offsets + [target - x.entries[i].val]) + x.Gaps(c, x.entries[i].addr);
  }

  /** The search with its stack reports, in order, the path of every chain. */
  lemma {:induction false} EnumerateListsChains(x: Index, target: u64, offsets: seq<u64>)
    requires Sorted(x)
    ensures AllHavePaths(x, x.Chains(target, |offsets|))
    ensures Enumerate(x.entries, x.modules, x.p, target, offsets)
            == Paths(x, x.Chains(target, |offsets|), target, offsets)
    decreases x.p.maxDepth - |offsets|, |x.entries| + 1
  {
    ChainsHavePaths(x, target, |offsets|);
    EnumerateFromListsChains(x, target, offsets, StartIndex(x.entries, target, x.p.maxOffset));
  }

  lemma {:induction false} EnumerateFromListsChains(x: Index, target: u64, offsets: seq<u64>, i: nat)
    requires Sorted(x) && StartIndex(x.entries, target, x.p.maxOffset) <= i <= |x.entries|
    requires AllHavePaths(x, x.ChainsFrom(target, |offsets|, i))
    ensures EnumerateFrom(x.entries, x.modules, x.p, target, offsets, i)
            == Paths(x, x.ChainsFrom(target, |offsets|, i), target, offsets)
    decreases x.p.maxDepth - |offsets|, |x.entries| - i
  {
    if i < |x.entries| && x.entries[i].val <= target {
      var here, rest := x.ChainsAt(target, |offsets|, i), x.ChainsFrom(target, |offsets|, i + 1);
      assert x.ChainsFrom(target, |offsets|, i) == here + rest;
      EnumerateStep(x.entries, x.modules, x.p, target, offsets, i);
      PathsConcat(x, here, rest, target, offsets);
      BelowListsChains(x, target, offsets, i);
      EnumerateFromListsChains(x, target, offsets, i + 1);
    }
  }

  lemma PathsConcat(x: Index, a: seq<Chain>, b: seq<Chain>, target: u64, offsets: seq<u64>)
    requires AllHavePaths(x, a + b)
    ensures AllHavePaths(x, a) && AllHavePaths(x, b)
    ensures Paths(x, a + b, target, offsets) == Paths(x, a, target, offsets) + Paths(x, b, target, offsets)
  {
    assert forall k :: 0 <= k < |a| ==> a[k] == (a + b)[k];
    assert forall k :: 0 <= k < |b| ==> b[k] == (a + b)[|a| + k];
  }

  lemma {:induction false} BelowListsChains(x: Index, target: u64, offsets: seq<u64>, i: nat)
    requires Sorted(x) && i < |x.entries| && x.entries[i].val <= target
    requires AllHavePaths(x, x.ChainsAt(target, |offsets|, i))
    ensures Below(x.entries, x.modules, x.p, target, offsets, i)
            == Paths(x, x.ChainsAt(target, |offsets|, i), target, offsets)
    decreases x.p.maxDepth - |offsets|, |x.entries| - i, 0
  {
    hide Enumerate, Below, Index.Chains, Index.PathOf, ModuleOf, AllHavePaths, Sorted;
    BelowCases(x.entries, x.modules, x.p, target, offsets, i);
    var offs := offsets + [target - x.entries[i].val];
    if x.IsStatic(i) {
      PathOfStatic(x, i, target, offsets);
    } else if |offs| < x.p.maxDepth {
      EnumerateListsChains(x, x.entries[i].addr, offs);
      PathsOfPrefixed(x, i, x.Chains(x.entries[i].addr, |offs|), target, offsets);
    }
  }

  lemma PathsOfPrefixed(x: Index, i: nat, cs: seq<Chain>, target: u64, offsets: seq<u64>)
    requires i < |x.entries| && x.entries[i].val <= target && AllHavePaths(x, cs)
    ensures AllHavePaths(x, Prefixed(i, cs))
    ensures Paths(x, Prefixed(i, cs), target, offsets)
            == Paths(x, cs, x.entries[i].addr, offsets + [target - x.entries[i].val])
  {
    hide Index.PathOf, Index.IsStatic, Paths;
    forall k | 0 <= k < |cs|
      ensures HasPath(x, Prefixed(i, cs)[k])
      ensures x.PathOf(Prefixed(i, cs)[k], target, offsets)
              == x.PathOf(cs[k], x.entries[i].addr, offsets + [target - x.entries[i].val])
    {
      PathOfPrefixed(x, i, cs[k], target, offsets);
    }
  }

  lemma PathOfStatic(x: Index, i: nat, target: u64, offsets: seq<u64>)
    requires i < |x.entries| && x.entries[i].val <= target && x.IsStatic(i)
    ensures x.PathOf([i], target, offsets)
            == PathFrom(ModuleOf(x.modules, x.entries[i].addr).value, x.entries[i].addr,
                        offsets + [target - x.entries[i].val])
  {
    hide ModuleOf;
    assert [i][1..] == [];
    assert x.Gaps([i], target) == [target - x.entries[i].val] + x.Gaps([i][1..], x.entries[i].addr);
    assert x.Gaps([i], target) == [target - x.entries[i].val];
  }

  /** A path is reported exactly when it is the path of some chain. */
  lemma EnumerationIsExact(x: Index, path: PtrPath)
    requires Sorted(x)
    ensures path in Enumerate(x.entries, x.modules, x.p, x.p.target, [])
            <==> exists c :: x.IsChain(c, x.p.target) && path == x.PathOf(c, x.p.target, [])
  {
    hide Enumerate, Index.Chains, Index.Extends, Index.PathOf, ModuleOf, Index.Near;
    var target := x.p.target;
    EnumerateListsChains(x, target, []);
    var cs := x.Chains(target, 0);
    var all := Enumerate(x.entries, x.modules, x.p, target, []);
    if path in all {
      var k :| 0 <= k < |all| && all[k] == path;
      assert cs[k] in cs;
      ChainsAreExact(x, target, 0, cs[k]);
      x.ExtendsDeclaratively(cs[k], target, 0);
      assert x.IsChain(cs[k], target);
    }
    if c :| x.IsChain(c, target) && path == x.PathOf(c, target, []) {
      x.ExtendsDeclaratively(c, target, 0);
      ChainsAreExact(x, target, 0, c);
      var k :| 0 <= k < |cs| && cs[k] == c;
      assert all[k] == path;
    }
  }

  // ----- Exactly once -----

  /** Every address is a slot once (disjoint regions), and a module's name determines its base. */
  ghost predicate Unambiguous(x: Index) {
    && (forall i, j :: 0 <= i < j < |x.entries| ==> x.entries[i].addr != x.entries[j].addr)
    && (forall i, j :: 0 <= i < |x.modules| && 0 <= j < |x.modules| && x.modules[i].name == x.modules[j].name
          ==> x.modules[i].base == x.modules[j].base)
  }

  /** Walking forward from equal addresses along equal offsets meets the same entries. */
  lemma {:induction false} GapsDetermineChain(x: Index, c: Chain, d: Chain, target: u64)
    requires Unambiguous(x)
    requires x.InRange(c) && x.InRange(d) && c != [] && d != []
    requires (forall k :: 0 <= k < |c| ==> x.Near(c[k], x.Wanted(c, target, k)))
    requires (forall k :: 0 <= k < |d| ==> x.Near(d[k], x.Wanted(d, target, k)))
    requires x.Gaps(c, target) == x.Gaps(d, target)
    requires c[|c| - 1] == d[|d| - 1]
    ensures c == d
    decreases |c|
  {
    hide Unambiguous, Index.Gaps, Index.Wanted, Index.Near;
    GapsAt(x, c, target);
    GapsAt(x, d, target);
    assert |c| == |d|;
    forall k | 0 <= k < |c|
      ensures x.Wanted(c, target, k) - x.entries[c[k]].val == x.Wanted(d, target, k) - x.entries[d[k]].val
    {
      assert x.Gaps(c, target)[k] == x.Gaps(d, target)[k];
    }
    ForwardFrom(x, c, d, target, |c| - 1);
  }

  lemma {:induction false} GapsAt(x: Index, c: Chain, target: u64)
    requires x.InRange(c)
    requires forall k :: 0 <= k < |c| ==> x.Near(c[k], x.Wanted(c, target, k))
    ensures |x.Gaps(c, target)| == |c|
    ensures forall k :: 0 <= k < |c| ==> x.Gaps(c, target)[k] == x.Wanted(c, target, k) - x.entries[c[k]].val
    decreases |c|
  {
    if c != [] {
      var rest, next := c[1..], x.entries[c[0]].addr;
      assert x.Near(c[0], x.Wanted(c, target, 0));
      forall k | 0 <= k < |rest| ensures x.Near(rest[k], x.Wanted(rest, next, k)) {
        assert x.Wanted(rest, next, k) == x.Wanted(c, target, k + 1);
        assert x.Near(c[k + 1], x.Wanted(c, target, k + 1));
      }
      GapsAt(x, rest, next);
      forall k | 0 <= k < |c| ensures x.Gaps(c, target)[k] == x.Wanted(c, target, k) - x.entries[c[k]].val {
        if k > 0 {
          assert x.Gaps(c, target)[k] == x.Gaps(rest, next)[k - 1];
          assert x.Wanted(rest, next, k - 1) == x.Wanted(c, target, k);
        }
      }
    }
  }

  lemma {:induction false} ForwardFrom(x: Index, c: Chain, d: Chain, target: u64, n: nat)
    requires Unambiguous(x) && x.InRange(c) && x.InRange(d) && |c| == |d| && n < |c|
    requires forall k :: 0 <= k < |c| ==>
               x.Wanted(c, target, k) - x.entries[c[k]].val == x.Wanted(d, target, k) - x.entries[d[k]].val
    requires forall k :: n <= k < |c| ==> c[k] == d[k]
    ensures c == d
    decreases n
  {
    hide Unambiguous;
    if n > 0 {
      assert x.Wanted(c, target, n) == x.Wanted(d, target, n);
      SameAddressSameEntry(x, c[n - 1], d[n - 1]);
      ForwardFrom(x, c, d, target, n - 1);
    }
  }

  lemma SameAddressSameEntry(x: Index, i: nat, j: nat)
    requires Unambiguous(x) && i < |x.entries| && j < |x.entries| && x.entries[i].addr == x.entries[j].addr
    ensures i == j
  {}

  lemma ReverseInjective(a: seq<u64>, b: seq<u64>)
    requires Reverse(a) == Reverse(b)
    ensures a == b
  {
    forall k | 0 <= k < |a| ensures a[k] == b[k] {
      assert Reverse(a)[|a| - 1 - k] == Reverse(b)[|a| - 1 - k];
    }
  }

  /** A module's name and an offset in it determine the address. */
  lemma StaticAddressDetermined(x: Index, i: nat, j: nat)
    requires Unambiguous(x) && i < |x.entries| && j < |x.entries| && x.IsStatic(i) && x.IsStatic(j)
    requires var a, b := x.entries[i].addr, x.entries[j].addr;
             && ModuleOf(x.modules, a).value.0 == ModuleOf(x.modules, b).value.0
             && AsU64(a - ModuleOf(x.modules, a).value.1) == AsU64(b - ModuleOf(x.modules, b).value.1)
    ensures i == j
  {
    var a, b := x.entries[i].addr, x.entries[j].addr;
    assert ModuleOf(x.modules, a).value.1 == ModuleOf(x.modules, b).value.1;
  }

  /** Different chains give different paths, so no path is reported twice. */
  lemma NoPathTwice(x: Index)
    requires Sorted(x) && Unambiguous(x)
    ensures NoRepeats(Enumerate(x.entries, x.modules, x.p, x.p.target, []))
  {
    var target := x.p.target;
    EnumerateListsChains(x, target, []);
    ChainsAreDistinct(x, target, 0);
    var cs := x.Chains(target, 0);
    var all := Enumerate(x.entries, x.modules, x.p, target, []);
    forall i, j | 0 <= i < j < |all| ensures all[i] != all[j] {
      assert cs[i] in cs && cs[j] in cs;
      ChainsAreExact(x, target, 0, cs[i]);
      ChainsAreExact(x, target, 0, cs[j]);
      if all[i] == all[j] {
        SamePathSameChain(x, cs[i], cs[j]);
      }
    }
  }

  lemma SamePathSameChain(x: Index, c: Chain, d: Chain)
    requires Unambiguous(x)
    requires x.Extends(c, x.p.target, 0) && x.Extends(d, x.p.target, 0)
    requires (ChainHasPath(x, c, x.p.target, 0); ChainHasPath(x, d, x.p.target, 0);
              x.PathOf(c, x.p.target, []) == x.PathOf(d, x.p.target, []))
    ensures c == d
  {
    hide ModuleOf, Index.Extends, StartIndex;
    var target := x.p.target;
    x.ExtendsDeclaratively(c, target, 0);
    x.ExtendsDeclaratively(d, target, 0);
    ReverseInjective([] + x.Gaps(c, target), [] + x.Gaps(d, target));
    assert [] + x.Gaps(c, target) == x.Gaps(c, target) && [] + x.Gaps(d, target) == x.Gaps(d, target);
    StaticAddressDetermined(x, c[|c| - 1], d[|d| - 1]);
    GapsDetermineChain(x, c, d, target);
  }

  // ----- Soundness -----

  /** The map was read from this memory. */
  ghost predicate ReadFrom(x: Index, mem: Memory) {
    forall i :: 0 <= i < |x.entries| ==> ReadPtr(mem, x.entries[i].addr, x.p.ptrSize) == Some(x.entries[i].val)
  }

  lemma {:induction false} FollowAppend(mem: Memory, val: u64, s: seq<u64>, last: u64, ptrSize: nat)
    requires s != []
    ensures Follow(mem, val, s + [last], ptrSize) ==
            match Follow(mem, val, s, ptrSize)
            case None => None
            case Some(a) => (match ReadPtr(mem, a, ptrSize) case None => None case Some(v) => Some(AsU64(v + last)))
    decreases |s|
  {
    hide ReadPtr;
    var t := s + [last];
    if |s| == 1 {
      assert t[1..] == [last];
    } else {
      assert t[0] == s[0] && t[1..] == s[1..] + [last];
      var next := ReadPtr(mem, AsU64(val + s[0]), ptrSize);
      if next.Some? {
        FollowAppend(mem, next.value, s[1..], last, ptrSize);
      }
    }
  }

  lemma GapsCons(x: Index, c: Chain, target: u64, depth: nat)
    requires x.Extends(c, target, depth)
    ensures c != [] && x.InRange(c) && x.InRange(c[1..])
    ensures x.entries[c[0]].val <= target
    ensures var gap: u64 := target - x.entries[c[0]].val;
            && x.Gaps(c, target) == [gap] + x.Gaps(c[1..], x.entries[c[0]].addr)
            && Reverse(x.Gaps(c, target)) == Reverse(x.Gaps(c[1..], x.entries[c[0]].addr)) + [gap]
    ensures !x.IsStatic(c[0]) ==>
              c[1..] != [] && c[|c| - 1] == c[1..][|c| - 2] && x.Extends(c[1..], x.entries[c[0]].addr, depth + 1)
    ensures x.IsStatic(c[0]) ==> |c| == 1
  {
    hide Index.IsStatic;
    ChainHasPath(x, c, target, depth);
    assert x.Gaps(c, target)[1..] == x.Gaps(c[1..], x.entries[c[0]].addr);
  }

  /** Following the reversed gaps from the static end of a chain arrives at its target. */
  lemma {:induction false} ChainFollowsToTarget(x: Index, mem: Memory, c: Chain, target: u64, depth: nat)
    requires ReadFrom(x, mem) && x.Extends(c, target, depth)
    ensures x.InRange(c) && x.Gaps(c, target) != []
    ensures Follow(mem, x.entries[c[|c| - 1]].val, Reverse(x.Gaps(c, target)), x.p.ptrSize) == Some(target)
    decreases |c|
  {
    hide ReadPtr, Index.IsStatic, Index.Extends, Index.Near, Reverse, Index.Gaps;
    GapsCons(x, c, target, depth);
    var gap: u64 := target - x.entries[c[0]].val;
    var rest, next := c[1..], x.entries[c[0]].addr;
    if |c| == 1 {
      NoGaps(x, rest, next);
      assert Reverse(x.Gaps(c, target)) == [gap];
    } else {
      ChainFollowsToTarget(x, mem, rest, next, depth + 1);
      FollowAppend(mem, x.entries[c[|c| - 1]].val, Reverse(x.Gaps(rest, next)), gap, x.p.ptrSize);
    }
  }

  lemma NoGaps(x: Index, c: Chain, target: u64)
    requires c == []
    ensures Reverse(x.Gaps(c, target)) == []
  {}

  /** Soundness: every reported path, resolved in the memory it was found in, reads successfully at every
      step and yields the target; the base it needs is the base of the module it names. */
  lemma PathsResolveToTarget(x: Index, mem: Memory, path: PtrPath)
    requires Sorted(x) && ReadFrom(x, mem)
    requires path in Enumerate(x.entries, x.modules, x.p, x.p.target, [])
    ensures exists m :: 0 <= m < |x.modules| && x.modules[m].name == path.mod
              && Resolve(mem, x.modules[m].base, path, x.p.ptrSize) == Some(x.p.target)
  {
    hide ReadPtr, ModuleOf, Enumerate, Index.Extends, Index.Chains, Follow, Reverse, Index.PathOf, Index.Gaps;
    var target := x.p.target;
    EnumerationIsExact(x, path);
    var c :| x.IsChain(c, target) && path == x.PathOf(c, target, []);
    x.ExtendsDeclaratively(c, target, 0);
    ChainFollowsToTarget(x, mem, c, target, 0);
    var m := PathStart(x, c, target);
    assert Resolve(mem, x.modules[m].base, path, x.p.ptrSize) == Some(target);
  }

  /** A path names the module its chain ends in, at the chain's last address. */
  lemma PathStart(x: Index, c: Chain, target: u64) returns (m: nat)
    requires c != [] && x.InRange(c) && x.IsStatic(c[|c| - 1])
    ensures m < |x.modules|
    ensures var path := x.PathOf(c, target, []);
            && path.mod == x.modules[m].name && path.offsets == Reverse(x.Gaps(c, target))
            && AsU64(x.modules[m].base + path.baseOffset) == x.entries[c[|c| - 1]].addr
  {
    hide ModuleOf, Reverse, Index.Gaps;
    assert [] + x.Gaps(c, target) == x.Gaps(c, target);
    m := ModuleIndex(x.modules, x.entries[c[|c| - 1]].addr);
  }

  lemma ModuleIndex(modules: seq<ModuleRange>, addr: u64) returns (m: nat)
    requires ModuleOf(modules, addr).Some?
    ensures m < |modules| && ModuleOf(modules, addr).value == (modules[m].name, modules[m].base)
  {
    m := PartitionPoint(modules, (r: ModuleRange) => r.base <= addr, 0, |modules|) - 1;
  }
}
