/** The scan jobs: first scans over blocks, next scans over the surviving addresses. */
module Scans {
  import opened Wrappers
  import opened Bytes
  import opened Sequences
  import opened ProcessMemory
  import opened Values
  import opened Chunks

  /** An address and the last value seen there. */
  datatype Match = Match(address: int, last: Last)

  /** Offsets of a region as addresses. */
  function Addresses(base: int, ps: seq<nat>): (r: seq<int>)
    ensures |r| == |ps| && forall k :: 0 <= k < |r| ==> r[k] == base + ps[k]
  {
    if ps == [] then [] else [base + ps[0]] + Addresses(base, ps[1..])
  }

  lemma {:induction false} AddressesConcat(base: int, a: seq<nat>, b: seq<nat>)
    ensures Addresses(base, a + b) == Addresses(base, a) + Addresses(base, b)
  {
    hide Addresses;
  }

  /** Matches of one region, as delivered in blocks. */
  function RegionHits(reader: Reader, r: Mapping, m: Matcher, stride: nat): seq<int>
    requires stride >= 1 && m.Width() >= 1
  {
    Addresses(r.base, AllHits(Blocks(reader, r.base, r.size, m.Width() - 1, 0), m, stride))
  }

  function ScanHits(reader: Reader, regions: seq<Mapping>, m: Matcher, stride: nat): seq<int>
    requires stride >= 1 && m.Width() >= 1
  {
    if regions == [] then [] else RegionHits(reader, regions[0], m, stride) + ScanHits(reader, regions[1..], m, stride)
  }

  // ----- Array-of-bytes scan -----

  /** The callback: tests every position of a block, skips addresses not above the last one reported, and
      stops at the limit. */
  method ScanBlock(base: int, b: Block, m: Matcher, limit: nat, soFar: seq<int>, lastSoFar: Option<int>)
    returns (found: seq<int>, last: Option<int>)
    requires m.Width() >= 1 && |soFar| < limit
    requires lastSoFar.Some? ==> lastSoFar.value < base + b.off
    ensures found == Take(soFar + Addresses(base, BlockHits(b, m, 1)), limit)
    ensures last == lastSoFar || exists h :: h in BlockHits(b, m, 1) && last == Some(base + h)
  {
    hide Hits, Matcher.Accepts, Matcher.Width, Realign, Addresses, BlockHits, Shift, Take;
    found, last := soFar, lastSoFar;
    var width := m.Width();
    ghost var all := Addresses(base, BlockHits(b, m, 1));
    BlockHitsAre(base, b, m);
    if |b.data| < width {
      HitsEnd(b.data, m, 1, 0);
      NoAddresses(base + b.off);
      assert soFar + [] == soFar;
      TakeAll(soFar, limit);
      return;
    }
    var end := |b.data| - width;
    var i := 0;
    ghost var seen: seq<int> := [];
    assert [] + all == all && soFar + [] == soFar;
    while i <= end
      invariant 0 <= i <= end + 1
      invariant all == seen + Addresses(base + b.off, Hits(b.data, m, 1, i))
      invariant found == soFar + seen && |found| < limit
      invariant last.Some? ==> last.value < base + b.off + i
      invariant last == lastSoFar || exists h :: h in BlockHits(b, m, 1) && last == Some(base + h)
    {
      BlockPosition(base, b, m, i);
      ghost var rest := Addresses(base + b.off, Hits(b.data, m, 1, i + 1));
      ConcatThree(seen, [base + b.off + i], rest);
      if m.Accepts(b.data[i..i + width]) {
        var addr := base + b.off + i;
        if last.None? || addr > last.value {
          found := found + [addr];
          last := Some(addr);
          assert last == Some(base + (b.off + i));
          seen := seen + [addr];
          if |found| >= limit {
            TakeReached(soFar, seen, rest, limit);
            break;
          }
        }
      }
      i := i + 1;
    }
    if |found| < limit {
      HitsEnd(b.data, m, 1, i);
      NoAddresses(base + b.off);
      assert seen + [] == seen;
      TakeAll(found, limit);
    }
  }

  lemma NoAddresses(base: int)
    ensures Addresses(base, []) == []
  {}

  lemma TakeReached(soFar: seq<int>, seen: seq<int>, rest: seq<int>, limit: nat)
    requires |soFar + seen| == limit
    ensures Take(soFar + (seen + rest), limit) == soFar + seen
  {
    assert soFar + (seen + rest) == (soFar + seen) + rest;
  }

  /** Stride 1 needs no realignment. */
  lemma BlockHitsAre(base: int, b: Block, m: Matcher)
    ensures Addresses(base, BlockHits(b, m, 1)) == Addresses(base + b.off, Hits(b.data, m, 1, 0))
  {
    assert b.off % 1 == 0;
  }

  /** One position of the block. */
  lemma BlockPosition(base: int, b: Block, m: Matcher, i: nat)
    requires i + m.Width() <= |b.data|
    ensures Addresses(base + b.off, Hits(b.data, m, 1, i))
            == (if m.Accepts(b.data[i..i + m.Width()]) then [base + b.off + i] else [])
              + Addresses(base + b.off, Hits(b.data, m, 1, i + 1))
    ensures m.Accepts(b.data[i..i + m.Width()]) ==> b.off + i in BlockHits(b, m, 1)
  {
    hide Matcher.Accepts, Matcher.Width, Hits;
    HitsStep(b.data, m, 1, i);
    if m.Accepts(b.data[i..i + m.Width()]) {
      BlockHitDelivered(b, m, 1, b.off + i);
      assert OnGrid(b.off + i, NextAligned(b.off, 1), 1);
    }
  }

  /** The blocks of one region, in order; once the limit is reached the callback does nothing. */
  method ScanRegion(reader: Reader, r: Mapping, m: Matcher, limit: nat, soFar: seq<int>) returns (found: seq<int>)
    requires m.Width() >= 1 && |soFar| < limit
    ensures found == Take(soFar + RegionHits(reader, r, m, 1), limit)
  {
    hide Hits, Matcher.Width, BlockHits, Blocks, Addresses, AllHits;
    found := soFar;
    var last: Option<int> := None;
    var blocks := ReadChunked(reader, r.base, r.size, m.Width() - 1);
    HitsIncreaseAcrossBlocks(reader, r.base, r.size, m, 1, 0);
    ghost var all := Addresses(r.base, AllHits(blocks, m, 1));
    for k := 0 to |blocks|
      invariant |found| < limit ==> soFar + all == found + Addresses(r.base, AllHits(blocks[k..], m, 1))
      invariant |found| >= limit ==> found == Take(soFar + all, limit)
      invariant last.Some? ==> forall j :: k <= j < |blocks| ==> last.value < r.base + blocks[j].off
    {
      if |found| < limit {
        ghost var before := found;
        AllHitsStep(r.base, blocks, m, k);
        found, last := ScanBlock(r.base, blocks[k], m, limit, found, last);
        TakeStep(before, Addresses(r.base, BlockHits(blocks[k], m, 1)),
                 Addresses(r.base, AllHits(blocks[k + 1..], m, 1)), limit);
      }
    }
    AllHitsEnd(r.base, blocks, m);
    assert found + [] == found;
  }

  lemma AllHitsStep(base: int, blocks: seq<Block>, m: Matcher, k: nat)
    requires k < |blocks|
    ensures Addresses(base, AllHits(blocks[k..], m, 1))
            == Addresses(base, BlockHits(blocks[k], m, 1)) + Addresses(base, AllHits(blocks[k + 1..], m, 1))
  {
    hide BlockHits, Addresses;
    assert blocks[k..][0] == blocks[k] && blocks[k..][1..] == blocks[k + 1..];
    AddressesConcat(base, BlockHits(blocks[k], m, 1), AllHits(blocks[k + 1..], m, 1));
  }

  lemma AllHitsEnd(base: int, blocks: seq<Block>, m: Matcher)
    ensures Addresses(base, AllHits(blocks[|blocks|..], m, 1)) == []
  {}

  lemma TakeStep(before: seq<int>, here: seq<int>, rest: seq<int>, limit: nat)
    ensures var found := Take(before + here, limit);
            && (|found| < limit ==> before + (here + rest) == found + rest)
            && (|found| >= limit ==> found == Take(before + (here + rest), limit))
  {
    assert before + (here + rest) == (before + here) + rest;
  }

  /** Array-of-bytes scan: the first `limit` matches over all regions. */
  method AobScan(reader: Reader, regions: seq<Mapping>, pattern: seq<Option<byte>>, limit: nat)
    returns (found: seq<int>)
    ensures pattern == [] ==> found == []
    ensures pattern != [] ==> found == Take(ScanHits(reader, regions, Pattern(pattern), 1), limit)
  {
    found := [];
    if pattern == [] {
      return;
    }
    var m := Pattern(pattern);
    assert m.Width() >= 1;
    hide *;
    ghost var all := ScanHits(reader, regions, m, 1);
    assert [] + all == all && regions[0..] == regions;
    assert limit == 0 ==> found == Take(all, limit) by { TakeNone(all); }
    var k := 0;
    while k < |regions| && |found| < limit
      invariant 0 <= k <= |regions|
      invariant |found| < limit ==> all == found + ScanHits(reader, regions[k..], m, 1)
      invariant |found| >= limit ==> found == Take(all, limit)
    {
      ghost var before := found;
      ScanHitsStep(reader, regions, m, k);
      found := ScanRegion(reader, regions[k], m, limit, found);
      TakeStep(before, RegionHits(reader, regions[k], m, 1), ScanHits(reader, regions[k + 1..], m, 1), limit);
      k := k + 1;
    }
    if |found| < limit {
      ScanHitsEnd(reader, regions, m);
      TakeAll(found, limit);
      assert found + [] == found;
    }
  }

  lemma TakeNone(s: seq<int>)
    ensures Take(s, 0) == []
  {}

  lemma TakeAll(s: seq<int>, limit: nat)
    requires |s| <= limit
    ensures Take(s, limit) == s
  {}

  lemma ScanHitsStep(reader: Reader, regions: seq<Mapping>, m: Matcher, k: nat)
    requires m.Width() >= 1 && k < |regions|
    ensures ScanHits(reader, regions[k..], m, 1)
            == RegionHits(reader, regions[k], m, 1) + ScanHits(reader, regions[k + 1..], m, 1)
  {
    hide RegionHits;
    assert regions[k..][0] == regions[k] && regions[k..][1..] == regions[k + 1..];
  }

  lemma ScanHitsEnd(reader: Reader, regions: seq<Mapping>, m: Matcher)
    requires m.Width() >= 1
    ensures ScanHits(reader, regions[|regions|..], m, 1) == []
  {}

  /** The same with a cancel flag polled before every region: the result is that of a prefix of the regions. */
  method AobScanJob(reader: Reader, regions: seq<Mapping>, pattern: seq<Option<byte>>, limit: nat, progress: Progress)
    returns (found: seq<int>)
    modifies progress
    ensures pattern == [] ==> found == []
    ensures pattern != [] ==>
              exists k :: (0 <= k <= |regions| && (!progress.cancelled ==> k == |regions|)
                           && found == Take(ScanHits(reader, regions[..k], Pattern(pattern), 1), limit))
  {
    found := [];
    if pattern == [] {
      return;
    }
    var m := Pattern(pattern);
    assert m.Width() >= 1;
    ScanHitsEnd(reader, [], m);
    assert regions[..0] == [];
    TakeAll([], limit);
    hide *;
    var k := 0;
    while k < |regions|
      invariant 0 <= k <= |regions|
      invariant |found| <= limit && found == Take(ScanHits(reader, regions[..k], m, 1), limit)
    {
      var stop := progress.Poll();
      if stop {
        break;
      }
      if |found| >= limit {
        JobIsDone(reader, regions, m, limit, k);
        assert found == Take(ScanHits(reader, regions[..|regions|], m, 1), limit);
        return;
      }
      JobStep(reader, regions, m, limit, k);
      found := ScanRegion(reader, regions[k], m, limit, found);
      progress.done := progress.done + 1;
      progress.matches := |found|;
      k := k + 1;
    }
  }

  lemma JobStep(reader: Reader, regions: seq<Mapping>, m: Matcher, limit: nat, k: nat)
    requires m.Width() >= 1 && k < |regions| && |Take(ScanHits(reader, regions[..k], m, 1), limit)| < limit
    ensures Take(Take(ScanHits(reader, regions[..k], m, 1), limit) + RegionHits(reader, regions[k], m, 1), limit)
            == Take(ScanHits(reader, regions[..k + 1], m, 1), limit)
  {
    hide RegionHits, ScanHits;
    ScanHitsSnoc(reader, regions[..k], regions[k], m);
    assert regions[..k + 1] == regions[..k] + [regions[k]];
  }

  lemma JobIsDone(reader: Reader, regions: seq<Mapping>, m: Matcher, limit: nat, k: nat)
    requires m.Width() >= 1 && k <= |regions| && |Take(ScanHits(reader, regions[..k], m, 1), limit)| >= limit
    ensures Take(ScanHits(reader, regions[..k], m, 1), limit)
            == Take(ScanHits(reader, regions[..|regions|], m, 1), limit)
  {
    hide RegionHits, ScanHits;
    ScanHitsPrefix(reader, regions, m, k);
    assert regions[..|regions|] == regions;
    TakePrefix(ScanHits(reader, regions[..k], m, 1), ScanHits(reader, regions, m, 1), limit);
  }

  lemma TakePrefix(p: seq<int>, t: seq<int>, limit: nat)
    requires p <= t && |Take(p, limit)| >= limit
    ensures Take(p, limit) == Take(t, limit)
  {}

  lemma {:induction false} ScanHitsSnoc(reader: Reader, regions: seq<Mapping>, r: Mapping, m: Matcher)
    requires m.Width() >= 1
    ensures ScanHits(reader, regions + [r], m, 1) == ScanHits(reader, regions, m, 1) + RegionHits(reader, r, m, 1)
  {
    hide RegionHits, Matcher.Width;
    if regions == [] {
      assert [] + [r] == [r] && [r][1..] == [];
    } else {
      assert (regions + [r])[0] == regions[0] && (regions + [r])[1..] == regions[1..] + [r];
      ScanHitsSnoc(reader, regions[1..], r, m);
    }
  }

  lemma {:induction false} ScanHitsPrefix(reader: Reader, regions: seq<Mapping>, m: Matcher, k: nat)
    requires m.Width() >= 1 && k <= |regions|
    ensures ScanHits(reader, regions[..k], m, 1) <= ScanHits(reader, regions, m, 1)
    decreases |regions| - k
  {
    hide RegionHits, Matcher.Width;
    if k == |regions| {
      assert regions[..k] == regions;
    } else {
      ScanHitsPrefix(reader, regions, m, k + 1);
      ScanHitsSnoc(reader, regions[..k], regions[k], m);
      assert regions[..k + 1] == regions[..k] + [regions[k]];
    }
  }

  /** The naive scan of regions whose bytes are known. */
  function NaiveScanAll(contents: seq<seq<byte>>, regions: seq<Mapping>, m: Matcher): seq<int>
    requires |contents| == |regions|
  {
    if regions == [] then [] else
      Addresses(regions[0].base, NaiveScan(contents[0], m, 1)) + NaiveScanAll(contents[1..], regions[1..], m)
  }

  /** Every region reads completely, each with its own bytes. */
  ghost predicate AllComplete(reader: Reader, regions: seq<Mapping>, contents: seq<seq<byte>>) {
    && |contents| == |regions|
    && forall i :: 0 <= i < |regions| ==>
      |contents[i]| == regions[i].size && Complete(reader, regions[i].base, contents[i])
  }

  /** When every read is complete and the pattern fits a block, the scan over overlapping blocks reports the
      first `limit` naive matches, region by region, in order. */
  lemma {:induction false} AobScanIsNaive(reader: Reader, regions: seq<Mapping>, contents: seq<seq<byte>>, m: Matcher)
    requires 1 <= m.Width() <= CHUNK && AllComplete(reader, regions, contents)
    ensures ScanHits(reader, regions, m, 1) == NaiveScanAll(contents, regions, m)
  {
    hide Matcher.Width, Complete, Hits, Blocks, AllHits;
    if regions != [] {
      ChunkedIsNaive(reader, regions[0].base, contents[0], m, 1);
      assert AllComplete(reader, regions[1..], contents[1..]);
      AobScanIsNaive(reader, regions[1..], contents[1..], m);
    }
  }

  /** Under arbitrary failing and short reads, and for every matcher and stride, an address is reported if and
      only if some block that was delivered matches there. */
  lemma {:induction false} ScanHitsWereDelivered(reader: Reader, regions: seq<Mapping>, m: Matcher, stride: nat,
                                                 addr: int)
    requires stride >= 1 && m.Width() >= 1
    ensures addr in ScanHits(reader, regions, m, stride)
            <==> exists i, k :: 0 <= i < |regions| && WasDelivered(reader, regions[i], m, stride, addr, k)
  {
    hide Matcher.Width, AllHits, WasDelivered, RegionHits;
    if regions != [] {
      RegionHitsWereDelivered(reader, regions[0], m, stride, addr);
      ScanHitsWereDelivered(reader, regions[1..], m, stride, addr);
      if addr in ScanHits(reader, regions[1..], m, stride) {
        var i, k :| 0 <= i < |regions[1..]| && WasDelivered(reader, regions[1..][i], m, stride, addr, k);
        assert regions[1..][i] == regions[i + 1];
      }
      if i, k :| 0 <= i < |regions| && WasDelivered(reader, regions[i], m, stride, addr, k) && i > 0 {
        assert regions[1..][i - 1] == regions[i];
      }
    }
  }

  /** The address lies at an accepted window of block k of the region. */
  ghost predicate WasDelivered(reader: Reader, r: Mapping, m: Matcher, stride: nat, addr: int, k: int)
    requires stride >= 1 && m.Width() >= 1
  {
    var bs := Blocks(reader, r.base, r.size, m.Width() - 1, 0);
    0 <= k < |bs| && addr >= r.base && DeliveredAt(bs[k], m, stride, addr - r.base)
  }

  lemma RegionHitsWereDelivered(reader: Reader, r: Mapping, m: Matcher, stride: nat, addr: int)
    requires stride >= 1 && m.Width() >= 1
    ensures addr in RegionHits(reader, r, m, stride) <==> exists k :: WasDelivered(reader, r, m, stride, addr, k)
  {
    hide Matcher.Width, AllHits, DeliveredAt, Blocks;
    var bs := Blocks(reader, r.base, r.size, m.Width() - 1, 0);
    var hits := AllHits(bs, m, stride);
    if addr in RegionHits(reader, r, m, stride) {
      var i :| 0 <= i < |hits| && RegionHits(reader, r, m, stride)[i] == addr;
      assert hits[i] in hits;
      HitsWereDelivered(bs, m, stride, hits[i]);
      var k :| 0 <= k < |bs| && DeliveredAt(bs[k], m, stride, hits[i]);
      assert WasDelivered(reader, r, m, stride, addr, k);
    }
    if k :| WasDelivered(reader, r, m, stride, addr, k) {
      HitsWereDelivered(bs, m, stride, addr - r.base);
      var i :| 0 <= i < |hits| && hits[i] == addr - r.base;
      assert RegionHits(reader, r, m, stride)[i] == addr;
    }
  }
}
