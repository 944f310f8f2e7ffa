/** Value and text scans: first scans with realignment, next scans, and whole histories of scans. */
module ValueScans {
  import opened Wrappers
  import opened Bytes
  import opened ProcessMemory
  import opened Values
  import opened Chunks
  import opened Scans

  /** The value kept with a new match; text matches keep 0. */
  function LastSeen(m: Matcher, window: seq<byte>): Last {
    if m.Value? && m.vt.ReadF64(window).Some? then m.vt.ReadF64(window).value else Integral(0)
  }

  function MatchAt(base: int, data: seq<byte>, m: Matcher, p: nat): Match
    requires p + m.Width() <= |data|
  {
    Match(base + p, LastSeen(m, data[p..p + m.Width()]))
  }

  ghost predicate AllFit(ps: seq<nat>, data: seq<byte>, m: Matcher) {
    forall k :: 0 <= k < |ps| ==> ps[k] + m.Width() <= |data|
  }

  /** Matches at the given positions of some bytes. */
  function MatchesOf(base: int, data: seq<byte>, m: Matcher, ps: seq<nat>): (r: seq<Match>)
    requires AllFit(ps, data, m)
    ensures |r| == |ps| && forall k :: 0 <= k < |r| ==> r[k] == MatchAt(base, data, m, ps[k])
  {
    if ps == [] then [] else [MatchAt(base, data, m, ps[0])] + MatchesOf(base, data, m, ps[1..])
  }

  /** Matches of a block from position i on. */
  function BlockMatches(base: int, b: Block, m: Matcher, stride: nat, i: nat): seq<Match>
    requires stride >= 1
    decreases |b.data| - i
  {
    if i + m.Width() > |b.data| then [] else
      (if m.Accepts(b.data[i..i + m.Width()]) then [MatchAt(base + b.off, b.data, m, i)] else [])
      + BlockMatches(base, b, m, stride, i + stride)
  }

  function AllMatches(base: int, bs: seq<Block>, m: Matcher, stride: nat): seq<Match>
    requires stride >= 1
  {
    if bs == [] then [] else
      BlockMatches(base, bs[0], m, stride, Realign(bs[0].off, stride)) + AllMatches(base, bs[1..], m, stride)
  }

  function RegionMatches(reader: Reader, r: Mapping, m: Matcher, stride: nat): seq<Match>
    requires stride >= 1 && m.Width() >= 1
  {
    AllMatches(r.base, Blocks(reader, r.base, r.size, m.Width() - 1, 0), m, stride)
  }

  function ScanMatches(reader: Reader, regions: seq<Mapping>, m: Matcher, stride: nat): seq<Match>
    requires stride >= 1 && m.Width() >= 1
  {
    if regions == [] then [] else
      RegionMatches(reader, regions[0], m, stride) + ScanMatches(reader, regions[1..], m, stride)
  }

  // ----- First scans -----

  /** The callback of both first scans: starts at the realigned position, steps, skips addresses not above
      the last one reported. */
  method CollectBlock(base: int, b: Block, m: Matcher, stride: nat, soFar: seq<Match>, lastSoFar: Option<int>)
    returns (found: seq<Match>, last: Option<int>)
    requires stride >= 1 && m.Width() >= 1
    requires lastSoFar.Some? ==> lastSoFar.value < base + b.off
    ensures found == soFar + BlockMatches(base, b, m, stride, Realign(b.off, stride))
    ensures last == lastSoFar || exists h :: h in BlockHits(b, m, stride) && last == Some(base + h)
  {
    hide Hits, Matcher.Accepts, Matcher.Width, BlockMatches, MatchAt, BlockHits, Shift;
    found, last := soFar, lastSoFar;
    var width := m.Width();
    var i := if b.off % stride == 0 then 0 else stride - b.off % stride;
    ghost var all := BlockMatches(base, b, m, stride, Realign(b.off, stride));
    ghost var seen: seq<Match> := [];
    assert [] + all == all && soFar + [] == soFar;
    GridStart(b, m, stride);
    while i + width <= |b.data|
      invariant all == seen + BlockMatches(base, b, m, stride, i)
      invariant found == soFar + seen
      invariant OnGrid(b.off + i, NextAligned(b.off, stride), stride)
      invariant last.Some? ==> last.value < base + b.off + i
      invariant last == lastSoFar || exists h :: h in BlockHits(b, m, stride) && last == Some(base + h)
      decreases |b.data| - i
    {
      MatchPosition(base, b, m, stride, i);
      if m.Accepts(b.data[i..i + width]) {
        var addr := base + b.off + i;
        if last.None? || addr > last.value {
          found := found + [MatchAt(base + b.off, b.data, m, i)];
          seen := seen + [MatchAt(base + b.off, b.data, m, i)];
          last := Some(addr);
          assert last == Some(base + (b.off + i));
        }
      }
      i := i + stride;
    }
    MatchesEnd(base, b, m, stride, i);
    assert seen + [] == seen;
  }

  lemma GridStart(b: Block, m: Matcher, stride: nat)
    requires stride >= 1
    ensures OnGrid(b.off + Realign(b.off, stride), NextAligned(b.off, stride), stride)
  {
    SmallResidue(0, stride);
  }

  lemma MatchPosition(base: int, b: Block, m: Matcher, stride: nat, i: nat)
    requires stride >= 1 && i + m.Width() <= |b.data|
    requires OnGrid(b.off + i, NextAligned(b.off, stride), stride)
    ensures BlockMatches(base, b, m, stride, i)
            == (if m.Accepts(b.data[i..i + m.Width()]) then [MatchAt(base + b.off, b.data, m, i)] else [])
              + BlockMatches(base, b, m, stride, i + stride)
    ensures m.Accepts(b.data[i..i + m.Width()]) ==> b.off + i in BlockHits(b, m, stride)
    ensures OnGrid(b.off + i + stride, NextAligned(b.off, stride), stride)
  {
    hide Matcher.Accepts, Matcher.Width, Hits, Realign, MatchAt;
    BlockHitDelivered(b, m, stride, b.off + i);
    SameResidue(b.off + i + stride - NextAligned(b.off, stride), stride);
  }

  lemma MatchesEnd(base: int, b: Block, m: Matcher, stride: nat, i: nat)
    requires stride >= 1 && i + m.Width() > |b.data|
    ensures BlockMatches(base, b, m, stride, i) == []
  {}

  method CollectRegion(reader: Reader, r: Mapping, m: Matcher, stride: nat,
                       soFar: seq<Match>) returns (found: seq<Match>)
    requires stride >= 1 && m.Width() >= 1
    ensures found == soFar + RegionMatches(reader, r, m, stride)
  {
    hide Hits, Matcher.Width, BlockHits, Blocks, BlockMatches, Realign;
    found := soFar;
    var last: Option<int> := None;
    var blocks := ReadChunked(reader, r.base, r.size, m.Width() - 1);
    HitsIncreaseAcrossBlocks(reader, r.base, r.size, m, stride, 0);
    ghost var all := AllMatches(r.base, blocks, m, stride);
    for k := 0 to |blocks|
      invariant soFar + all == found + AllMatches(r.base, blocks[k..], m, stride)
      invariant last.Some? ==> forall j :: k <= j < |blocks| ==> last.value < r.base + blocks[j].off
    {
      assert blocks[k..][0] == blocks[k] && blocks[k..][1..] == blocks[k + 1..];
      ghost var here, rest := BlockMatches(r.base, blocks[k], m, stride, Realign(blocks[k].off, stride)),
              AllMatches(r.base, blocks[k + 1..], m, stride);
      assert found + (here + rest) == (found + here) + rest;
      found, last := CollectBlock(r.base, blocks[k], m, stride, found, last);
    }
    assert found + [] == found;
  }

  method CollectAll(reader: Reader, regions: seq<Mapping>, m: Matcher, stride: nat,
                    progress: Progress) returns (found: seq<Match>)
    requires stride >= 1 && m.Width() >= 1
    modifies progress
    ensures exists k :: (0 <= k <= |regions| && (!progress.cancelled ==> k == |regions|)
                         && found == ScanMatches(reader, regions[..k], m, stride))
  {
    hide RegionMatches;
    found := [];
    var k := 0;
    while k < |regions|
      invariant 0 <= k <= |regions|
      invariant found == ScanMatches(reader, regions[..k], m, stride)
    {
      var stop := progress.Poll();
      if stop {
        break;
      }
      found := CollectRegion(reader, regions[k], m, stride, found);
      ScanMatchesSnoc(reader, regions[..k], regions[k], m, stride);
      assert regions[..k + 1] == regions[..k] + [regions[k]];
      progress.done := progress.done + 1;
      progress.matches := |found|;
      k := k + 1;
    }
  }

  lemma {:induction false} ScanMatchesSnoc(reader: Reader, regions: seq<Mapping>, r: Mapping, m: Matcher, stride: nat)
    requires stride >= 1 && m.Width() >= 1
    ensures ScanMatches(reader, regions + [r], m, stride)
            == ScanMatches(reader, regions, m, stride) + RegionMatches(reader, r, m, stride)
  {
    hide RegionMatches, Matcher.Width;
    if regions == [] {
      assert [] + [r] == [r] && [r][1..] == [];
    } else {
      assert (regions + [r])[0] == regions[0] && (regions + [r])[1..] == regions[1..] + [r];
      ScanMatchesSnoc(reader, regions[1..], r, m, stride);
    }
  }

  function Stride(vt: ValueType, fast: bool): nat { if fast then vt.Size() else 1 }

  /** First scan for a value; a fast scan only tests multiples of the size. String types find nothing. */
  method FirstScanJob(reader: Reader, regions: seq<Mapping>, floats: Floats, vt: ValueType, fast: bool, cmp: ScanCmp,
                      progress: Progress)
    returns (found: seq<Match>)
    modifies progress
    ensures vt.Size() == 0 ==> found == []
    ensures vt.Size() > 0 ==>
              exists k :: (0 <= k <= |regions| && (!progress.cancelled ==> k == |regions|)
                           && found == ScanMatches(reader, regions[..k], Value(floats, vt, cmp), Stride(vt, fast)))
  {
    if vt.Size() == 0 {
      return [];
    }
    var step := if fast then vt.Size() else 1;
    found := CollectAll(reader, regions, Value(floats, vt, cmp), step, progress);
  }

  /** First scan for a text. */
  method FirstScanStringJob(reader: Reader, regions: seq<Mapping>, text: seq<byte>,
                            progress: Progress) returns (found: seq<Match>)
    modifies progress
    ensures text == [] ==> found == []
    ensures text != [] ==>
              exists k :: (0 <= k <= |regions| && (!progress.cancelled ==> k == |regions|)
                           && found == ScanMatches(reader, regions[..k], Text(text), 1))
  {
    if text == [] {
      return [];
    }
    found := CollectAll(reader, regions, Text(text), 1, progress);
  }

  // ----- First scans on complete reads -----

  /** Blocks that hold the region's own bytes. */
  ghost predicate Faithful(bs: seq<Block>, bytes: seq<byte>) {
    forall k :: 0 <= k < |bs| ==>
      bs[k].off + |bs[k].data| <= |bytes| && bs[k].data == bytes[bs[k].off..bs[k].off + |bs[k].data|]
  }

  lemma {:induction false} CompleteBlocksAreFaithful(reader: Reader, base: int, bytes: seq<byte>, overlap: nat,
                                                     off: nat)
    requires Complete(reader, base, bytes)
    ensures Faithful(Blocks(reader, base, |bytes|, overlap, off), bytes)
    decreases |bytes| - off
  {
    hide Read, StepFor, Blocks, Advance;
    if off < |bytes| {
      var want := Want(|bytes|, off);
      assert ReadsExactly(reader, base, bytes, off, want);
      var r := Read(reader, base + off, want);
      var next := off + Advance(r, want, overlap);
      CompleteBlocksAreFaithful(reader, base, bytes, overlap, next);
      BlocksCases(reader, base, |bytes|, overlap, off);
      FaithfulCons(Block(off, r.bytes), Blocks(reader, base, |bytes|, overlap, next), bytes);
    } else {
      BlocksEnd(reader, base, |bytes|, overlap, off);
    }
  }

  lemma FaithfulCons(b: Block, rest: seq<Block>, bytes: seq<byte>)
    requires Faithful(rest, bytes) && b.off + |b.data| <= |bytes| && b.data == bytes[b.off..b.off + |b.data|]
    ensures Faithful([b] + rest, bytes)
  {}

  lemma HitsFit(data: seq<byte>, m: Matcher, stride: nat, i: nat)
    requires stride >= 1
    ensures AllFit(Hits(data, m, stride, i), data, m)
  {
    HitsIncrease(data, m, stride, i);
  }

  lemma SameMatch(base: int, b: Block, bytes: seq<byte>, m: Matcher, i: nat)
    requires b.off + |b.data| <= |bytes| && b.data == bytes[b.off..b.off + |b.data|] && i + m.Width() <= |b.data|
    ensures MatchAt(base + b.off, b.data, m, i) == MatchAt(base, bytes, m, i + b.off)
  {
    hide Matcher.Width, LastSeen;
    SubWindow(bytes, b.off, b.off + |b.data|, b.off + i, b.off + i + m.Width());
  }

  /** A block's matches are those of the region at the block's hits. */
  lemma {:induction false} BlockMatchesAre(base: int, b: Block, bytes: seq<byte>, m: Matcher, stride: nat, i: nat)
    requires stride >= 1 && b.off + |b.data| <= |bytes| && b.data == bytes[b.off..b.off + |b.data|]
    ensures AllFit(Shift(Hits(b.data, m, stride, i), b.off), bytes, m)
    ensures BlockMatches(base, b, m, stride, i) == MatchesOf(base, bytes, m, Shift(Hits(b.data, m, stride, i), b.off))
    decreases |b.data| - i
  {
    hide Hits, Matcher.Accepts, Matcher.Width, MatchAt, Shift, MatchesOf;
    HitsFit(b.data, m, stride, i);
    if i + m.Width() <= |b.data| {
      BlockMatchesAre(base, b, bytes, m, stride, i + stride);
      HitsStep(b.data, m, stride, i);
      var rest := Hits(b.data, m, stride, i + stride);
      ShiftCons(rest, i, b.off);
      SameMatch(base, b, bytes, m, i);
      var shifted := Shift(rest, b.off);
      assert [i + b.off] + shifted == [i + b.off] + shifted && AllFit([i + b.off] + shifted, bytes, m);
    } else {
      HitsEnd(b.data, m, stride, i);
    }
  }

  lemma {:induction false} AllMatchesAre(base: int, bs: seq<Block>, bytes: seq<byte>, m: Matcher, stride: nat)
    requires stride >= 1 && Faithful(bs, bytes)
    ensures AllFit(AllHits(bs, m, stride), bytes, m)
    ensures AllMatches(base, bs, m, stride) == MatchesOf(base, bytes, m, AllHits(bs, m, stride))
  {
    hide Hits, Matcher.Accepts, Matcher.Width, MatchAt, BlockMatches, Realign, MatchesOf, Shift;
    if bs == [] {
      NoMatches(base, bytes, m);
    } else {
      BlockMatchesAre(base, bs[0], bytes, m, stride, Realign(bs[0].off, stride));
      assert Faithful(bs[1..], bytes);
      AllMatchesAre(base, bs[1..], bytes, m, stride);
      MatchesOfConcat(base, bytes, m, BlockHits(bs[0], m, stride), AllHits(bs[1..], m, stride));
    }
  }

  lemma NoMatches(base: int, bytes: seq<byte>, m: Matcher)
    ensures AllFit([], bytes, m) && MatchesOf(base, bytes, m, []) == []
  {}

  lemma MatchesOfConcat(base: int, bytes: seq<byte>, m: Matcher, ps: seq<nat>, qs: seq<nat>)
    requires AllFit(ps, bytes, m) && AllFit(qs, bytes, m)
    ensures AllFit(ps + qs, bytes, m) && MatchesOf(base, bytes, m, ps + qs)
            == MatchesOf(base, bytes, m, ps) + MatchesOf(base, bytes, m, qs)
  {
    hide Matcher.Width, MatchesOf, MatchAt;
  }

  /** The naive first scan of a region: every accepted window on the grid of the region's base, with its value. */
  function NaiveMatches(base: int, bytes: seq<byte>, m: Matcher, stride: nat): seq<Match>
    requires stride >= 1
  {
    HitsFit(bytes, m, stride, 0);
    MatchesOf(base, bytes, m, NaiveScan(bytes, m, stride))
  }

  /** Although blocks start at offsets that are not multiples of the size, the realigned scan of a completely
      read region is the contiguous one. */
  lemma RegionMatchesAreNaive(reader: Reader, r: Mapping, bytes: seq<byte>, m: Matcher, stride: nat)
    requires stride >= 1 && 1 <= m.Width() <= CHUNK && r.size == |bytes| && Complete(reader, r.base, bytes)
    ensures RegionMatches(reader, r, m, stride) == NaiveMatches(r.base, bytes, m, stride)
  {
    hide Hits, Matcher.Width, AllHits, AllMatches, Blocks, Complete;
    ChunkedIsNaive(reader, r.base, bytes, m, stride);
    CompleteBlocksAreFaithful(reader, r.base, bytes, m.Width() - 1, 0);
    AllMatchesAre(r.base, Blocks(reader, r.base, r.size, m.Width() - 1, 0), bytes, m, stride);
  }

  /** What that means address by address: a match is reported exactly at the accepted windows whose offset
      from the region base is a multiple of the stride, in increasing order, each once. */
  lemma NaiveMatchesExact(base: int, bytes: seq<byte>, m: Matcher, stride: nat, x: Match)
    requires stride >= 1
    ensures var ms := NaiveMatches(base, bytes, m, stride);
            && (forall j, k :: 0 <= j < k < |ms| ==> ms[j].address < ms[k].address)
            && (x in ms <==>
                  && x.address >= base && (x.address - base) % stride == 0 && x.address - base + m.Width() <= |bytes|
                  && m.Accepts(bytes[x.address - base..x.address - base + m.Width()])
                  && x.last == LastSeen(m, bytes[x.address - base..x.address - base + m.Width()]))
  {
    hide Hits, Matcher.Accepts, Matcher.Width, LastSeen, NaiveMatches, NaiveScan;
    NaiveMatchesIncrease(base, bytes, m, stride);
    if x in NaiveMatches(base, bytes, m, stride) {
      NaiveMatchIsAccepted(base, bytes, m, stride, x);
    }
    if x.address >= base && x.address - base + m.Width() <= |bytes| {
      NaiveMatchIsFound(base, bytes, m, stride, x);
    }
  }

  lemma NaiveMatchesIncrease(base: int, bytes: seq<byte>, m: Matcher, stride: nat)
    requires stride >= 1
    ensures var ms := NaiveMatches(base, bytes, m, stride);
            forall j, k :: 0 <= j < k < |ms| ==> ms[j].address < ms[k].address
  {
    hide Matcher.Accepts, Matcher.Width, LastSeen;
    HitsIncrease(bytes, m, stride, 0);
    HitsFit(bytes, m, stride, 0);
    var ms, ps := NaiveMatches(base, bytes, m, stride), NaiveScan(bytes, m, stride);
    assert Increasing(ps);
    assert forall k :: 0 <= k < |ms| ==> ms[k] == MatchAt(base, bytes, m, ps[k]);
    assert forall k :: 0 <= k < |ms| ==> ms[k].address == base + ps[k];
  }

  lemma NaiveMatchIsAccepted(base: int, bytes: seq<byte>, m: Matcher, stride: nat, x: Match)
    requires stride >= 1 && x in NaiveMatches(base, bytes, m, stride)
    ensures x.address >= base && (x.address - base) % stride == 0 && x.address - base + m.Width() <= |bytes|
    ensures m.Accepts(bytes[x.address - base..x.address - base + m.Width()])
    ensures x.last == LastSeen(m, bytes[x.address - base..x.address - base + m.Width()])
  {
    hide Hits, Matcher.Accepts, Matcher.Width, LastSeen;
    var ms, ps := NaiveMatches(base, bytes, m, stride), NaiveScan(bytes, m, stride);
    HitsFit(bytes, m, stride, 0);
    var k :| 0 <= k < |ms| && ms[k] == x;
    assert x == MatchAt(base, bytes, m, ps[k]) && ps[k] in ps;
    HitsExact(bytes, m, stride, 0, ps[k]);
  }

  lemma NaiveMatchIsFound(base: int, bytes: seq<byte>, m: Matcher, stride: nat, x: Match)
    requires stride >= 1 && x.address >= base && x.address - base + m.Width() <= |bytes|
    ensures (x.address - base) % stride == 0
            && m.Accepts(bytes[x.address - base..x.address - base + m.Width()])
            && x.last == LastSeen(m, bytes[x.address - base..x.address - base + m.Width()])
            ==> x in NaiveMatches(base, bytes, m, stride)
  {
    hide Hits, Matcher.Accepts, Matcher.Width, LastSeen;
    var ms, ps := NaiveMatches(base, bytes, m, stride), NaiveScan(bytes, m, stride);
    HitsFit(bytes, m, stride, 0);
    var p := x.address - base;
    HitsExact(bytes, m, stride, 0, p);
    if p in ps {
      var k :| 0 <= k < |ps| && ps[k] == p;
      assert ms[k] == MatchAt(base, bytes, m, p);
    }
  }

  // ----- Next scans -----

  /** One element of a next scan: re-read, compare with the last value, keep the new one. */
  function Rescan(mem: Memory, floats: Floats, vt: ValueType, cmp: ScanCmp, x: Match): Option<Match> {
    var bytes :- ReadInto(mem, x.address, vt.Size());
    if Compare(floats, vt, cmp, bytes, x.last) == Some(true) then
      Some(Match(x.address, if vt.ReadF64(bytes).Some? then vt.ReadF64(bytes).value else x.last))
    else None
  }

  function Rescanned(mem: Memory, floats: Floats, vt: ValueType, cmp: ScanCmp, xs: seq<Match>): seq<Match> {
    if xs == [] then [] else
    (match Rescan(mem, floats, vt, cmp, xs[0]) case Some(y) => [y] case None => [])
      + Rescanned(mem, floats, vt, cmp, xs[1..])
  }

  /** Filters the matches in place; once cancelled, the rest is kept as it is. */
  method NextScanJob(mem: Memory, matches: seq<Match>, floats: Floats, vt: ValueType, cmp: ScanCmp,
                     progress: Progress) returns (kept: seq<Match>)
    modifies progress
    ensures exists k :: (0 <= k <= |matches| && (!progress.cancelled ==> k == |matches|)
                         && kept == Rescanned(mem, floats, vt, cmp, matches[..k]) + matches[k..])
  {
    hide Rescan;
    kept := [];
    var k := 0;
    while k < |matches|
      invariant 0 <= k <= |matches|
      invariant kept == Rescanned(mem, floats, vt, cmp, matches[..k])
    {
      var stop := progress.Poll();
      if stop {
        kept := kept + matches[k..];
        return;
      }
      var y := Rescan(mem, floats, vt, cmp, matches[k]);
      if y.Some? {
        kept := kept + [y.value];
      } else {
        assert kept + [] == kept;
      }
      RescannedSnoc(mem, floats, vt, cmp, matches[..k], matches[k]);
      assert matches[..k + 1] == matches[..k] + [matches[k]];
      k := k + 1;
    }
    assert matches[k..] == [] && kept + [] == kept;
    progress.done, progress.matches := |matches|, |kept|;
  }

  lemma {:induction false} RescannedSnoc(mem: Memory, floats: Floats, vt: ValueType, cmp: ScanCmp, xs: seq<Match>,
                                         x: Match)
    ensures Rescanned(mem, floats, vt, cmp, xs + [x])
            == Rescanned(mem, floats, vt, cmp, xs)
              + (match Rescan(mem, floats, vt, cmp, x) case Some(y) => [y] case None => [])
  {
    hide Rescan;
    if xs == [] {
      assert [] + [x] == [x] && [x][1..] == [];
    } else {
      assert (xs + [x])[0] == xs[0] && (xs + [x])[1..] == xs[1..] + [x];
      RescannedSnoc(mem, floats, vt, cmp, xs[1..], x);
    }
  }

  // ----- Histories of scans -----

  /** A next scan: the memory it saw and its comparison. */
  datatype Next = Next(mem: Memory, cmp: ScanCmp)

  function RunNext(floats: Floats, vt: ValueType, xs: seq<Match>, scans: seq<Next>): seq<Match>
    decreases |scans|
  {
    if scans == [] then xs else RunNext(floats, vt, Rescanned(scans[0].mem, floats, vt, scans[0].cmp, xs), scans[1..])
  }

  /** The value an address held at time k: in the memory of the first scan, then of each next scan. */
  function ValueAt(vt: ValueType, first: Memory, scans: seq<Next>, k: nat, a: int): Option<Last>
    requires k <= |scans|
  {
    var bytes :- ReadInto(if k == 0 then first else scans[k - 1].mem, a, vt.Size());
    vt.ReadF64(bytes)
  }

  /** At next scan k the address was readable and its comparison with the previous value held. */
  predicate HeldAt(floats: Floats, vt: ValueType, first: Memory, scans: seq<Next>, k: nat, a: int)
    requires k < |scans|
  {
    && ReadInto(scans[k].mem, a, vt.Size()).Some? && ValueAt(vt, first, scans, k, a).Some?
    && Compare(floats, vt, scans[k].cmp, ReadInto(scans[k].mem, a, vt.Size()).value,
               ValueAt(vt, first, scans, k, a).value) == Some(true)
  }

  ghost predicate AlwaysHeld(floats: Floats, vt: ValueType, first: Memory, scans: seq<Next>, a: int) {
    forall k :: 0 <= k < |scans| ==> HeldAt(floats, vt, first, scans, k, a)
  }

  /** A match with the value its address held last. */
  function Survivor(floats: Floats, vt: ValueType, first: Memory, scans: seq<Next>, x: Match): Match {
    Match(x.address, ValueAt(vt, first, scans, |scans|, x.address).GetOr(x.last))
  }

  /** The survivors, in order, as the declarative history says. */
  ghost function Survivors(floats: Floats, vt: ValueType, first: Memory, scans: seq<Next>, xs: seq<Match>): seq<Match> {
    if xs == [] then [] else
    (if AlwaysHeld(floats, vt, first, scans, xs[0].address) then [Survivor(floats, vt, first, scans, xs[0])] else [])
    + Survivors(floats, vt, first, scans, xs[1..])
  }

  /** Matches that remember the value of the given memory. */
  ghost predicate Remembers(vt: ValueType, mem: Memory, xs: seq<Match>) {
    forall k :: 0 <= k < |xs| ==>
      ReadInto(mem, xs[k].address, vt.Size()).Some?
        && vt.ReadF64(ReadInto(mem, xs[k].address, vt.Size()).value) == Some(xs[k].last)
  }

  lemma {:induction false} RescannedRemembers(mem: Memory, floats: Floats, vt: ValueType, cmp: ScanCmp, xs: seq<Match>)
    requires vt.Size() > 0
    ensures Remembers(vt, mem, Rescanned(mem, floats, vt, cmp, xs))
  {
    hide Compare;
    if xs != [] {
      RescannedRemembers(mem, floats, vt, cmp, xs[1..]);
    }
  }

  lemma HeldShifts(floats: Floats, vt: ValueType, first: Memory, scans: seq<Next>, k: nat, a: int)
    requires k + 1 < |scans|
    ensures HeldAt(floats, vt, scans[0].mem, scans[1..], k, a) == HeldAt(floats, vt, first, scans, k + 1, a)
  {
    hide Compare, ReadInto;
    assert scans[1..][k] == scans[k + 1];
  }

  lemma FirstHeldIsRescanned(floats: Floats, vt: ValueType, first: Memory, scans: seq<Next>, x: Match)
    requires vt.Size() > 0 && scans != [] && Remembers(vt, first, [x])
    ensures HeldAt(floats, vt, first, scans, 0, x.address) <==> Rescan(scans[0].mem, floats, vt, scans[0].cmp, x).Some?
    ensures HeldAt(floats, vt, first, scans, 0, x.address) ==>
              ValueAt(vt, first, scans, 1, x.address)
                == Some(Rescan(scans[0].mem, floats, vt, scans[0].cmp, x).value.last)
              && Rescan(scans[0].mem, floats, vt, scans[0].cmp, x).value.address == x.address
  {
    hide Compare;
    assert [x][0] == x;
  }

  lemma HistoryStep(floats: Floats, vt: ValueType, first: Memory, scans: seq<Next>, a: int)
    requires scans != []
    ensures AlwaysHeld(floats, vt, first, scans, a) <==>
              HeldAt(floats, vt, first, scans, 0, a) && AlwaysHeld(floats, vt, scans[0].mem, scans[1..], a)
    ensures ValueAt(vt, first, scans, |scans|, a) == ValueAt(vt, scans[0].mem, scans[1..], |scans| - 1, a)
  {
    hide HeldAt, ReadInto;
    forall k | 0 <= k < |scans| - 1
      ensures HeldAt(floats, vt, scans[0].mem, scans[1..], k, a) == HeldAt(floats, vt, first, scans, k + 1, a)
    {
      HeldShifts(floats, vt, first, scans, k, a);
    }
    if AlwaysHeld(floats, vt, scans[0].mem, scans[1..], a) && HeldAt(floats, vt, first, scans, 0, a) {
      forall k | 0 <= k < |scans| ensures HeldAt(floats, vt, first, scans, k, a) {
        if k > 0 {
          assert HeldAt(floats, vt, scans[0].mem, scans[1..], k - 1, a);
        }
      }
    }
  }

  /** An address that always held was readable at the end. */
  lemma HeldHasValue(floats: Floats, vt: ValueType, first: Memory, scans: seq<Next>, a: int)
    requires vt.Size() > 0 && scans != [] && AlwaysHeld(floats, vt, first, scans, a)
    ensures ValueAt(vt, first, scans, |scans|, a).Some?
  {
    assert HeldAt(floats, vt, first, scans, |scans| - 1, a);
  }

  /** One match, one more scan. */
  lemma SurvivorStep(floats: Floats, vt: ValueType, first: Memory, scans: seq<Next>, x: Match)
    requires vt.Size() > 0 && scans != [] && Remembers(vt, first, [x])
    ensures var y := Rescan(scans[0].mem, floats, vt, scans[0].cmp, x);
            && (AlwaysHeld(floats, vt, first, scans, x.address) <==>
                  y.Some? && AlwaysHeld(floats, vt, scans[0].mem, scans[1..], y.value.address))
            && (AlwaysHeld(floats, vt, first, scans, x.address) ==>
                  Survivor(floats, vt, first, scans, x) == Survivor(floats, vt, scans[0].mem, scans[1..], y.value))
  {
    hide HeldAt, ValueAt, Rescan, AlwaysHeld;
    FirstHeldIsRescanned(floats, vt, first, scans, x);
    HistoryStep(floats, vt, first, scans, x.address);
    if AlwaysHeld(floats, vt, first, scans, x.address) {
      HeldHasValue(floats, vt, first, scans, x.address);
    }
  }

  ghost predicate HoldsBytes(mem: Memory, base: int, bytes: seq<byte>) {
    forall k :: base <= k < base + |bytes| ==> k in mem && mem[k] == bytes[k - base]
  }

  lemma WindowIsRead(mem: Memory, base: int, bytes: seq<byte>, p: nat, width: nat)
    requires p + width <= |bytes|
    requires HoldsBytes(mem, base, bytes)
    ensures ReadInto(mem, base + p, width) == Some(bytes[p..p + width])
  {
    var r := ReadInto(mem, base + p, width);
    assert CanRead(mem, base + p, width);
    forall i | 0 <= i < width ensures r.value[i] == bytes[p..p + width][i] {
      assert mem[base + p + i] == bytes[base + p + i - base];
    }
    assert r.value == bytes[p..p + width];
  }

  lemma ValueTypesRead(vt: ValueType, bytes: seq<byte>)
    requires vt.Size() > 0 && |bytes| == vt.Size()
    ensures vt.ReadF64(bytes).Some?
  {}

  lemma RemembersSplits(vt: ValueType, mem: Memory, xs: seq<Match>)
    requires xs != [] && Remembers(vt, mem, xs)
    ensures Remembers(vt, mem, [xs[0]]) && Remembers(vt, mem, xs[1..])
  {
    hide ReadInto, ValueType.ReadF64, ValueType.Size;
  }

  /** One more scan: its survivors are those whose address also holds afterwards. */
  lemma {:induction false} SurvivorsStep(floats: Floats, vt: ValueType, first: Memory, scans: seq<Next>, xs: seq<Match>)
    requires vt.Size() > 0 && scans != [] && Remembers(vt, first, xs)
    ensures Survivors(floats, vt, first, scans, xs)
            == Survivors(floats, vt, scans[0].mem, scans[1..], Rescanned(scans[0].mem, floats, vt, scans[0].cmp, xs))
    decreases |xs|
  {
    hide HeldAt, ValueAt, Rescan, AlwaysHeld, Survivor, Remembers;
    if xs != [] {
      RemembersSplits(vt, first, xs);
      SurvivorsStep(floats, vt, first, scans, xs[1..]);
      SurvivorStep(floats, vt, first, scans, xs[0]);
      var y := Rescan(scans[0].mem, floats, vt, scans[0].cmp, xs[0]);
      var rest := Rescanned(scans[0].mem, floats, vt, scans[0].cmp, xs[1..]);
      if y.Some? {
        assert ([y.value] + rest)[1..] == rest;
      } else {
        assert [] + rest == rest;
        assert [] + Survivors(floats, vt, first, scans, xs[1..]) == Survivors(floats, vt, first, scans, xs[1..]);
      }
    }
  }

  /** Any number of next scans leaves exactly the addresses at which every comparison held, in order, each
      with its latest value. */
  lemma {:induction false} RunKeepsExactlyTheSurvivors(floats: Floats, vt: ValueType, first: Memory, xs: seq<Match>,
                                                       scans: seq<Next>)
    requires vt.Size() > 0 && Remembers(vt, first, xs)
    ensures RunNext(floats, vt, xs, scans) == Survivors(floats, vt, first, scans, xs)
    decreases |scans|
  {
    if scans == [] {
      NoScansNoLoss(floats, vt, first, xs);
    } else {
      var kept := Rescanned(scans[0].mem, floats, vt, scans[0].cmp, xs);
      RescannedRemembers(scans[0].mem, floats, vt, scans[0].cmp, xs);
      RunKeepsExactlyTheSurvivors(floats, vt, scans[0].mem, kept, scans[1..]);
      SurvivorsStep(floats, vt, first, scans, xs);
    }
  }

  lemma {:induction false} NoScansNoLoss(floats: Floats, vt: ValueType, first: Memory, xs: seq<Match>)
    requires Remembers(vt, first, xs)
    ensures Survivors(floats, vt, first, [], xs) == xs
  {
    if xs != [] {
      assert Remembers(vt, first, xs[1..]);
      NoScansNoLoss(floats, vt, first, xs[1..]);
      assert xs == [xs[0]] + xs[1..];
    }
  }
}
