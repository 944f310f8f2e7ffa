/** Scans for an unknown initial value: a snapshot of the writable regions, and its comparison with a later one. */
module UnknownScans {
  import opened Wrappers
  import opened Bytes
  import opened ProcessMemory
  import opened Values
  import opened Chunks
  import opened Scans

  const SNAP_MAX_REGION: nat := 256 * 1024 * 1024
  const SNAP_MAX_TOTAL: nat := 2 * 1024 * 1024 * 1024

  /** The bytes of a region, zero where nothing was delivered. */
  datatype Saved = Saved(base: int, bytes: seq<byte>)

  function Zeros(n: nat): (r: seq<byte>)
    ensures |r| == n
  {
    seq(n, i => 0)
  }

  /** A block copied over a buffer; a block that would not fit is dropped. */
  function Overlay(buf: seq<byte>, b: Block): (r: seq<byte>)
    ensures |r| == |buf|
  {
    if b.off + |b.data| <= |buf| then buf[..b.off] + b.data + buf[b.off + |b.data|..] else buf
  }

  function Assemble(buf: seq<byte>, bs: seq<Block>): (r: seq<byte>)
    ensures |r| == |buf|
    decreases |bs|
  {
    if bs == [] then buf else Assemble(Overlay(buf, bs[0]), bs[1..])
  }

  function Copied(reader: Reader, base: int, size: nat): (r: seq<byte>)
    ensures |r| == size
  {
    Assemble(Zeros(size), Blocks(reader, base, size, 0, 0))
  }

  /** Some delivered block fits the buffer. */
  ghost predicate AnyFits(bs: seq<Block>, size: nat) { exists k :: 0 <= k < |bs| && bs[k].off + |bs[k].data| <= size }

  method CopyBlock(data: array<byte>, b: Block)
    requires b.off + |b.data| <= data.Length
    modifies data
    ensures data[..] == Overlay(old(data[..]), b)
  {
    forall i | 0 <= i < |b.data| {
      data[b.off + i] := b.data[i];
    }
  }

  /** Copies every delivered block into a zeroed buffer; `any` says whether one fitted. */
  method CopyRegion(reader: Reader, base: int, size: nat) returns (data: array<byte>, any: bool)
    ensures fresh(data) && data[..] == Copied(reader, base, size)
    ensures any <==> AnyFits(Blocks(reader, base, size, 0, 0), size)
  {
    hide Blocks, Overlay;
    data := new byte[size](i => 0);
    assert data[..] == Zeros(size);
    any := false;
    var blocks := ReadChunked(reader, base, size, 0);
    for k := 0 to |blocks|
      invariant Assemble(Zeros(size), blocks) == Assemble(data[..], blocks[k..])
      invariant any <==> AnyFits(blocks[..k], size)
    {
      var b := blocks[k];
      assert blocks[k..][0] == b && blocks[k..][1..] == blocks[k + 1..];
      FitsSnoc(blocks, size, k);
      TooLargeIsDropped(data[..], b);
      if b.off + |b.data| <= data.Length {
        CopyBlock(data, b);
        any := true;
      }
    }
    assert blocks[..|blocks|] == blocks;
  }

  lemma FitsSnoc(bs: seq<Block>, size: nat, k: nat)
    requires k < |bs|
    ensures AnyFits(bs[..k + 1], size) <==> AnyFits(bs[..k], size) || bs[k].off + |bs[k].data| <= size
  {
    if AnyFits(bs[..k], size) {
      var j :| 0 <= j < k && bs[..k][j].off + |bs[..k][j].data| <= size;
      assert bs[..k + 1][j] == bs[..k][j];
    }
    if AnyFits(bs[..k + 1], size) {
      var j :| 0 <= j <= k && bs[..k + 1][j].off + |bs[..k + 1][j].data| <= size;
      assert j < k ==> bs[..k][j] == bs[..k + 1][j];
    }
    assert bs[..k + 1][k] == bs[k];
  }

  lemma TooLargeIsDropped(buf: seq<byte>, b: Block)
    ensures b.off + |b.data| > |buf| ==> Overlay(buf, b) == buf
  {}

  /** On complete reads the copy is the region. */
  lemma CopyIsRegion(reader: Reader, base: int, bytes: seq<byte>)
    requires Complete(reader, base, bytes)
    ensures Copied(reader, base, |bytes|) == bytes
  {
    CopyFromIsRegion(reader, base, bytes, 0, Zeros(|bytes|));
  }

  /** The buffer holds the region up to an offset. */
  ghost predicate CopiedUpTo(buf: seq<byte>, bytes: seq<byte>, n: int) {
    |buf| == |bytes| && forall i :: 0 <= i < |bytes| && i < n ==> buf[i] == bytes[i]
  }

  lemma OverlayExtends(buf: seq<byte>, bytes: seq<byte>, off: nat)
    requires off < |bytes| && CopiedUpTo(buf, bytes, off)
    ensures off + Want(|bytes|, off) <= |bytes|
    ensures CopiedUpTo(Overlay(buf, Block(off, bytes[off..off + Want(|bytes|, off)])), bytes, off + CHUNK)
  {}

  lemma {:induction false} CopyFromIsRegion(reader: Reader, base: int, bytes: seq<byte>, off: nat, buf: seq<byte>)
    requires Complete(reader, base, bytes) && CopiedUpTo(buf, bytes, off)
    ensures Assemble(buf, Blocks(reader, base, |bytes|, 0, off)) == bytes
    decreases |bytes| - off
  {
    hide Read, Overlay;
    if off < |bytes| {
      var want := Want(|bytes|, off);
      assert ReadsExactly(reader, base, bytes, off, want);
      BlocksCases(reader, base, |bytes|, 0, off);
      var b := Block(off, bytes[off..off + want]);
      var rest := Blocks(reader, base, |bytes|, 0, off + CHUNK);
      assert ([b] + rest)[1..] == rest;
      OverlayExtends(buf, bytes, off);
      CopyFromIsRegion(reader, base, bytes, off + CHUNK, Overlay(buf, b));
    }
  }

  /** Under arbitrary reads a copied byte is zero or was delivered by some block at that place. */
  lemma {:induction false} CopiedBytesWereDelivered(buf: seq<byte>, bs: seq<Block>, i: nat)
    requires i < |buf|
    ensures Assemble(buf, bs)[i] == buf[i]
            || exists k :: (0 <= k < |bs| && bs[k].off <= i < bs[k].off + |bs[k].data|
                            && bs[k].data[i - bs[k].off] == Assemble(buf, bs)[i])
    decreases |bs|
  {
    if bs != [] {
      var buf' := Overlay(buf, bs[0]);
      CopiedBytesWereDelivered(buf', bs[1..], i);
      if Assemble(buf', bs[1..])[i] == buf'[i] {
        assert buf'[i] == buf[i] || (bs[0].off <= i < bs[0].off + |bs[0].data| && buf'[i] == bs[0].data[i - bs[0].off]);
      } else {
        var k :| 0 <= k < |bs[1..]| && bs[1..][k].off <= i < bs[1..][k].off + |bs[1..][k].data|
                 && bs[1..][k].data[i - bs[1..][k].off] == Assemble(buf', bs[1..])[i];
        assert bs[k + 1] == bs[1..][k];
      }
    }
  }

  // ----- Snapshot -----

  predicate Skipped(r: Mapping) { !r.writable || r.size == 0 || r.size > SNAP_MAX_REGION }

  ghost predicate Delivered(reader: Reader, r: Mapping) { AnyFits(Blocks(reader, r.base, r.size, 0, 0), r.size) }

  /** The regions saved, until one would exceed the total; `total` bytes are already saved. */
  ghost function Snapshot(reader: Reader, regions: seq<Mapping>, total: nat): seq<Saved> {
    if regions == [] then []
    else if Skipped(regions[0]) then Snapshot(reader, regions[1..], total)
    else if total + regions[0].size > SNAP_MAX_TOTAL then []
    else if Delivered(reader, regions[0]) then
      [Saved(regions[0].base, Copied(reader, regions[0].base, regions[0].size))]
        + Snapshot(reader, regions[1..], total + regions[0].size)
    else Snapshot(reader, regions[1..], total)
  }

  method UnknownFirstJob(reader: Reader, regions: seq<Mapping>, progress: Progress) returns (snap: seq<Saved>)
    modifies progress
    ensures !progress.cancelled ==> snap == Snapshot(reader, regions, 0)
    ensures snap <= Snapshot(reader, regions, 0)
  {
    hide *;
    snap := [];
    var total: nat := 0;
    var k := 0;
    ghost var all := Snapshot(reader, regions, 0);
    assert [] + all == all && regions[0..] == regions;
    while k < |regions|
      invariant 0 <= k <= |regions|
      invariant all == snap + Snapshot(reader, regions[k..], total)
    {
      SnapshotStep(snap, reader, regions, k, total);
      var stop := progress.Poll();
      if stop {
        return;
      }
      progress.done := progress.done + 1;
      var r := regions[k];
      k := k + 1;
      if Skipped(r) {
        continue;
      }
      if total + r.size > SNAP_MAX_TOTAL {
        assert snap + [] == snap;
        return;
      }
      var data, any := CopyRegion(reader, r.base, r.size);
      DeliveredIs(reader, r);
      if any {
        total := total + data.Length;
        snap := snap + [Saved(r.base, data[..])];
        progress.matches := |snap|;
      }
    }
    SnapshotEnd(reader, regions, total);
    assert snap + [] == snap;
  }

  lemma SnapshotEnd(reader: Reader, regions: seq<Mapping>, total: nat)
    ensures Snapshot(reader, regions[|regions|..], total) == []
  {}

  lemma SnapshotStep(before: seq<Saved>, reader: Reader, regions: seq<Mapping>, k: nat, total: nat)
    requires k < |regions|
    ensures var r := regions[k];
            before + Snapshot(reader, regions[k..], total)
            == if Skipped(r) then before + Snapshot(reader, regions[k + 1..], total)
               else if total + r.size > SNAP_MAX_TOTAL then before + []
               else if Delivered(reader, r) then
                 (before + [Saved(r.base, Copied(reader, r.base, r.size))])
                   + Snapshot(reader, regions[k + 1..], total + r.size)
               else before + Snapshot(reader, regions[k + 1..], total)
  {
    hide Delivered, Copied;
    var r := regions[k];
    assert regions[k..][0] == r && regions[k..][1..] == regions[k + 1..];
    assert before + ([Saved(r.base, Copied(reader, r.base, r.size))]
                     + Snapshot(reader, regions[k + 1..], total + r.size))
           == (before + [Saved(r.base, Copied(reader, r.base, r.size))])
             + Snapshot(reader, regions[k + 1..], total + r.size);
  }

  lemma DeliveredIs(reader: Reader, r: Mapping)
    ensures Delivered(reader, r) <==> AnyFits(Blocks(reader, r.base, r.size, 0, 0), r.size)
  {}

  /** The regions worth saving: writable, not empty, and of 256 MiB at most. */
  predicate IsWorth(r: Mapping) { r.writable && 0 < r.size <= 0x1000_0000 }

  /** All the regions worth saving from which something could be read. */
  ghost function AllSaved(reader: Reader, regions: seq<Mapping>): (r: seq<Saved>) {
    if regions == [] then []
    else (if IsWorth(regions[0]) && Delivered(reader, regions[0])
          then [Saved(regions[0].base, Copied(reader, regions[0].base, regions[0].size))] else [])
         + AllSaved(reader, regions[1..])
  }

  /** Region k, if it is worth saving, fits into 2 GiB with what is saved of those before it. */
  ghost predicate HasRoom(reader: Reader, regions: seq<Mapping>, total: nat, k: nat)
    requires k < |regions|
  {
    IsWorth(regions[k]) ==> total + SavedBytes(AllSaved(reader, regions[..k])) + regions[k].size <= 0x8000_0000
  }

  /** The snapshot takes every region worth saving, up to the first one without room. */
  lemma {:induction false} SnapshotIsExact(reader: Reader, regions: seq<Mapping>, total: nat, n: nat)
    requires n <= |regions| && forall k :: 0 <= k < n ==> HasRoom(reader, regions, total, k)
    requires n < |regions| ==> !HasRoom(reader, regions, total, n)
    ensures Snapshot(reader, regions, total) == AllSaved(reader, regions[..n])
  {
    hide Delivered, Copied;
    if regions != [] {
      FirstHasRoom(reader, regions, total);
      if n > 0 {
        var r, rest := regions[0], regions[1..];
        var total' := total + if IsWorth(r) && Delivered(reader, r) then r.size else 0;
        forall k | 0 <= k < |rest|
          ensures HasRoom(reader, rest, total', k) <==> HasRoom(reader, regions, total, k + 1)
        {
          RoomShifts(reader, regions, total, k);
        }
        SnapshotIsExact(reader, rest, total', n - 1);
        assert regions[..n][0] == r && regions[..n][1..] == rest[..n - 1];
      }
    }
  }

  lemma FirstHasRoom(reader: Reader, regions: seq<Mapping>, total: nat)
    requires regions != []
    ensures HasRoom(reader, regions, total, 0) <==> Skipped(regions[0]) || total + regions[0].size <= SNAP_MAX_TOTAL
    ensures Skipped(regions[0]) <==> !IsWorth(regions[0])
  {
    assert regions[..0] == [];
  }

  lemma RoomShifts(reader: Reader, regions: seq<Mapping>, total: nat, k: nat)
    requires k < |regions| - 1
    ensures var r := regions[0];
            HasRoom(reader, regions[1..], total + if IsWorth(r) && Delivered(reader, r) then r.size else 0, k)
            <==> HasRoom(reader, regions, total, k + 1)
  {
    hide Delivered, Copied;
    var r := regions[0];
    assert regions[..k + 1][0] == r && regions[..k + 1][1..] == regions[1..][..k];
    var here := if IsWorth(r) && Delivered(reader, r) then [Saved(r.base, Copied(reader, r.base, r.size))] else [];
    assert AllSaved(reader, regions[..k + 1]) == here + AllSaved(reader, regions[1..][..k]);
    if here != [] {
      assert (here + AllSaved(reader, regions[1..][..k]))[1..] == AllSaved(reader, regions[1..][..k]);
    } else {
      assert here + AllSaved(reader, regions[1..][..k]) == AllSaved(reader, regions[1..][..k]);
    }
  }

  /** The snapshot never exceeds its bound. */
  function SavedBytes(snap: seq<Saved>): nat { if snap == [] then 0 else |snap[0].bytes| + SavedBytes(snap[1..]) }

  lemma {:induction false} SnapshotIsBounded(reader: Reader, regions: seq<Mapping>, total: nat)
    requires total <= 0x8000_0000
    ensures total + SavedBytes(Snapshot(reader, regions, total)) <= 0x8000_0000
  {
    hide Delivered, Copied;
    if regions != [] {
      if Skipped(regions[0]) || total + regions[0].size > SNAP_MAX_TOTAL || !Delivered(reader, regions[0]) {
        if Skipped(regions[0]) || total + regions[0].size <= SNAP_MAX_TOTAL {
          SnapshotIsBounded(reader, regions[1..], total);
        }
      } else {
        SnapshotIsBounded(reader, regions[1..], total + regions[0].size);
      }
    }
  }

  // ----- Comparing with a later reading -----

  /** Matches of two readings of the same region from an offset on. */
  function PairMatches(floats: Floats, vt: ValueType, cmp: ScanCmp, base: int, was: seq<byte>, cur: seq<byte>,
                       step: nat, off: nat): seq<Match>
    requires step >= 1 && |was| == |cur|
    decreases |was| - off
  {
    if off + vt.Size() > |was| then [] else
    var o, n := was[off..off + vt.Size()], cur[off..off + vt.Size()];
    (if ComparePair(floats, vt, cmp, o, n) == Some(true) then [Match(base + off, vt.ReadF64(n).GetOr(Integral(0)))]
     else [])
    + PairMatches(floats, vt, cmp, base, was, cur, step, off + step)
  }

  /** A region of the snapshot against what it reads as now. */
  function SavedMatches(reader: Reader, s: Saved, floats: Floats, vt: ValueType, cmp: ScanCmp, step: nat): seq<Match>
    requires step >= 1
  {
    PairMatches(floats, vt, cmp, s.base, s.bytes, Copied(reader, s.base, |s.bytes|), step, 0)
  }

  function SnapshotMatches(reader: Reader, snap: seq<Saved>, floats: Floats, vt: ValueType, cmp: ScanCmp,
                           step: nat): seq<Match>
    requires step >= 1
  {
    if snap == [] then [] else
      SavedMatches(reader, snap[0], floats, vt, cmp, step) + SnapshotMatches(reader, snap[1..], floats, vt, cmp, step)
  }

  method CompareRegion(floats: Floats, vt: ValueType, cmp: ScanCmp, base: int, was: seq<byte>, cur: seq<byte>,
                       step: nat) returns (found: seq<Match>)
    requires step >= 1 && |was| == |cur|
    ensures found == PairMatches(floats, vt, cmp, base, was, cur, step, 0)
  {
    hide *;
    found := [];
    ghost var all := PairMatches(floats, vt, cmp, base, was, cur, step, 0);
    assert [] + all == all;
    var size := vt.Size();
    var off := 0;
    while off + size <= |was|
      invariant all == found + PairMatches(floats, vt, cmp, base, was, cur, step, off)
      decreases |was| - off
    {
      PairMatchesStep(found, floats, vt, cmp, base, was, cur, step, off);
      var o, n := was[off..off + size], cur[off..off + size];
      if ComparePair(floats, vt, cmp, o, n) == Some(true) {
        found := found + [Match(base + off, vt.ReadF64(n).GetOr(Integral(0)))];
      } else {
        assert found + [] == found;
      }
      off := off + step;
    }
    PairMatchesEnd(floats, vt, cmp, base, was, cur, step, off);
    assert found + [] == found;
  }

  lemma PairMatchesStep(before: seq<Match>, floats: Floats, vt: ValueType, cmp: ScanCmp, base: int, was: seq<byte>,
                        cur: seq<byte>, step: nat, off: nat)
    requires step >= 1 && |was| == |cur| && off + vt.Size() <= |was|
    ensures var o, n := was[off..off + vt.Size()], cur[off..off + vt.Size()];
            before + PairMatches(floats, vt, cmp, base, was, cur, step, off)
            == (before + (if ComparePair(floats, vt, cmp, o, n)
                          == Some(true) then [Match(base + off, vt.ReadF64(n).GetOr(Integral(0)))] else []))
               + PairMatches(floats, vt, cmp, base, was, cur, step, off + step)
  {
    hide ComparePair, ValueType.ReadF64;
    var o, n := was[off..off + vt.Size()], cur[off..off + vt.Size()];
    var here := if ComparePair(floats, vt, cmp, o, n)
      == Some(true) then [Match(base + off, vt.ReadF64(n).GetOr(Integral(0)))] else [];
    var rest := PairMatches(floats, vt, cmp, base, was, cur, step, off + step);
    assert before + (here + rest) == (before + here) + rest;
  }

  lemma PairMatchesEnd(floats: Floats, vt: ValueType, cmp: ScanCmp, base: int, was: seq<byte>, cur: seq<byte>,
                       step: nat, off: nat)
    requires step >= 1 && |was| == |cur| && off + vt.Size() > |was|
    ensures PairMatches(floats, vt, cmp, base, was, cur, step, off) == []
  {}

  method UnknownNextJob(reader: Reader, snap: seq<Saved>, floats: Floats, vt: ValueType, fast: bool, cmp: ScanCmp,
                        progress: Progress)
    returns (found: seq<Match>)
    modifies progress
    ensures vt.Size() == 0 ==> found == []
    ensures vt.Size() > 0 ==> found <= SnapshotMatches(reader, snap, floats, vt, cmp, if fast then vt.Size() else 1)
    ensures vt.Size() > 0 && !progress.cancelled
            ==> found == SnapshotMatches(reader, snap, floats, vt, cmp, if fast then vt.Size() else 1)
  {
    found := [];
    if vt.Size() == 0 {
      return;
    }
    var step := if fast then vt.Size() else 1;
    hide *;
    ghost var all := SnapshotMatches(reader, snap, floats, vt, cmp, step);
    assert [] + all == all && snap[0..] == snap;
    var k := 0;
    while k < |snap|
      invariant 0 <= k <= |snap|
      invariant all == found + SnapshotMatches(reader, snap[k..], floats, vt, cmp, step)
    {
      var stop := progress.Poll();
      if stop {
        return;
      }
      var cur, any := CopyRegion(reader, snap[k].base, |snap[k].bytes|);
      var here := CompareRegion(floats, vt, cmp, snap[k].base, snap[k].bytes, cur[..], step);
      SnapshotMatchesStep(found, reader, snap, floats, vt, cmp, step, k);
      found := found + here;
      progress.done := progress.done + 1;
      progress.matches := |found|;
      k := k + 1;
    }
    SnapshotMatchesEnd(reader, snap, floats, vt, cmp, step);
    assert found + [] == found;
  }

  lemma SnapshotMatchesStep(before: seq<Match>, reader: Reader, snap: seq<Saved>, floats: Floats, vt: ValueType,
                            cmp: ScanCmp, step: nat, k: nat)
    requires step >= 1 && k < |snap|
    ensures var here := PairMatches(floats, vt, cmp, snap[k].base, snap[k].bytes,
                                    Copied(reader, snap[k].base, |snap[k].bytes|), step, 0);
            before + SnapshotMatches(reader, snap[k..], floats, vt, cmp, step)
            == (before + here) + SnapshotMatches(reader, snap[k + 1..], floats, vt, cmp, step)
  {
    hide PairMatches, Copied;
    assert snap[k..][0] == snap[k] && snap[k..][1..] == snap[k + 1..];
    var here := SavedMatches(reader, snap[k], floats, vt, cmp, step);
    var rest := SnapshotMatches(reader, snap[k + 1..], floats, vt, cmp, step);
    assert before + (here + rest) == (before + here) + rest;
  }

  lemma SnapshotMatchesEnd(reader: Reader, snap: seq<Saved>, floats: Floats, vt: ValueType, cmp: ScanCmp, step: nat)
    requires step >= 1
    ensures SnapshotMatches(reader, snap[|snap|..], floats, vt, cmp, step) == []
  {}

  /** A match is reported exactly at the offsets on the grid at which the exact comparison of the old and the
      new value holds, with the new value. */
  lemma {:induction false} PairMatchesExact(floats: Floats, vt: ValueType, cmp: ScanCmp, base: int, was: seq<byte>,
                                            cur: seq<byte>, step: nat, off: nat, x: Match)
    requires step >= 1 && |was| == |cur|
    ensures x in PairMatches(floats, vt, cmp, base, was, cur, step, off)
            <==> x.address >= base + off && PairHeld(floats, vt, cmp, base, was, cur, step, off, x.address)
                 && x.last == vt.ReadF64(cur[x.address - base..x.address - base + vt.Size()]).GetOr(Integral(0))
    decreases |was| - off
  {
    hide ComparePair, OnGrid, ValueType.ReadF64;
    GridStep(x.address - base, off, step);
    GridStarts(x.address - base, off, step);
    GridStarts(x.address - base, off + step, step);
    if off + vt.Size() <= |was| {
      PairMatchesExact(floats, vt, cmp, base, was, cur, step, off + step, x);
    }
  }

  /** The address is on the grid, and the comparison of its two values held. */
  predicate PairHeld(floats: Floats, vt: ValueType, cmp: ScanCmp, base: int, was: seq<byte>, cur: seq<byte>, step: nat,
                     off: nat, a: int)
    requires step >= 1 && |was| == |cur|
  {
    var p := a - base;
    && p >= 0 && OnGrid(p, off, step) && p + vt.Size() <= |was|
    && ComparePair(floats, vt, cmp, was[p..p + vt.Size()], cur[p..p + vt.Size()]) == Some(true)
  }

  /** In increasing order, so each once. */
  lemma {:induction false} PairMatchesIncrease(floats: Floats, vt: ValueType, cmp: ScanCmp, base: int, was: seq<byte>,
                                               cur: seq<byte>, step: nat, off: nat)
    requires step >= 1 && |was| == |cur|
    ensures AscendingFrom(PairMatches(floats, vt, cmp, base, was, cur, step, off), base + off)
    decreases |was| - off
  {
    hide ComparePair, ValueType.ReadF64;
    if off + vt.Size() <= |was| {
      PairMatchesIncrease(floats, vt, cmp, base, was, cur, step, off + step);
    }
  }

  ghost predicate AscendingFrom(xs: seq<Match>, lo: int) {
    && (forall k :: 0 <= k < |xs| ==> xs[k].address >= lo)
    && (forall j, k :: 0 <= j < k < |xs| ==> xs[j].address < xs[k].address)
  }

  lemma SnapshotPairIsExact(before: Reader, after: Reader, base: int, was: seq<byte>, cur: seq<byte>, floats: Floats,
                            vt: ValueType, cmp: ScanCmp, step: nat)
    requires step >= 1 && |was| == |cur| && Complete(before, base, was) && Complete(after, base, cur)
    ensures SavedMatches(after, Saved(base, Copied(before, base, |was|)), floats, vt, cmp, step)
            == PairMatches(floats, vt, cmp, base, was, cur, step, 0)
  {
    CopyIsRegion(before, base, was);
    CopyIsRegion(after, base, cur);
  }
}
