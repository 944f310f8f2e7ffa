/** Scans that begin with an unknown value: which of their matches could be read, and what any number of next
    scans leaves of them. */
module UnknownHistories {
  import opened Wrappers
  import opened Bytes
  import opened ProcessMemory
  import opened Values
  import opened Chunks
  import opened Scans
  import opened ValueScans
  import opened FirstScans
  import opened UnknownScans

  // ----- Delivered bytes -----

  predicate Covers(b: Block, i: int) { b.off <= i < b.off + |b.data| }

  /** Some read of the copy loop delivered the byte. */
  ghost predicate ByteDelivered(bs: seq<Block>, i: int) { exists k :: 0 <= k < |bs| && Covers(bs[k], i) }

  /** Every byte of a window of a region was delivered. */
  ghost predicate WindowDelivered(reader: Reader, base: int, size: nat, p: int, width: nat) {
    forall i :: p <= i < p + width ==> ByteDelivered(Blocks(reader, base, size, 0, 0), i)
  }

  /** Every window that a scan with this step tests was delivered. */
  ghost predicate GridDelivered(reader: Reader, s: Saved, width: nat, step: nat)
    requires step >= 1
  {
    forall p :: OnGrid(p, 0, step) && p + width <= |s.bytes| ==> WindowDelivered(reader, s.base, |s.bytes|, p, width)
  }

  lemma BlockDelivers(b: Block, rest: seq<Block>, i: int)
    ensures ByteDelivered([b] + rest, i) <==> Covers(b, i) || ByteDelivered(rest, i)
  {
    var bs := [b] + rest;
    if ByteDelivered(rest, i) {
      var k :| 0 <= k < |rest| && Covers(rest[k], i);
      assert bs[k + 1] == rest[k];
    }
    if Covers(b, i) {
      assert bs[0] == b;
    }
    if k :| 0 <= k < |bs| && Covers(bs[k], i) && k > 0 {
      assert rest[k - 1] == bs[k];
    }
  }

  // ----- When only readable addresses are reported -----

  /** Whatever was saved and whatever could be read, some comparison reports any window on the grid. */
  lemma EveryWindowIsReported(reader: Reader, s: Saved, floats: Floats, vt: ValueType, step: nat, p: nat)
    returns (cmp: ScanCmp, x: Match)
    requires step >= 1 && vt.Size() > 0 && !vt.IsFloat() && OnGrid(p, 0, step) && p + vt.Size() <= |s.bytes|
    ensures x in SavedMatches(reader, s, floats, vt, cmp, step) && x.address == s.base + p
  {
    hide OnGrid, Copied, PairMatches, ValueType.Size;
    var cur := Copied(reader, s.base, |s.bytes|);
    var o, n := s.bytes[p..p + vt.Size()], cur[p..p + vt.Size()];
    ExactHolds(floats, vt, o, n);
    cmp := ScanCmp(Exact, vt.ReadInt(n).value, 0);
    x := Match(s.base + p, vt.ReadF64(n).GetOr(Integral(0)));
    assert x.address - s.base == p;
    PairMatchesExact(floats, vt, cmp, s.base, s.bytes, cur, step, 0, x);
  }

  lemma ExactHolds(floats: Floats, vt: ValueType, o: seq<byte>, n: seq<byte>)
    requires vt.Size() > 0 && !vt.IsFloat() && |o| == |n| == vt.Size()
    ensures vt.ReadInt(n).Some? && ComparePair(floats, vt, ScanCmp(Exact, vt.ReadInt(n).value, 0), o, n) == Some(true)
  {}

  /** Reported addresses lie on the grid and inside the region. */
  lemma ReportedIsOnGrid(reader: Reader, s: Saved, floats: Floats, vt: ValueType, cmp: ScanCmp, step: nat, x: Match)
    requires step >= 1 && x in SavedMatches(reader, s, floats, vt, cmp, step)
    ensures OnGrid(x.address - s.base, 0, step) && x.address - s.base + vt.Size() <= |s.bytes|
  {
    hide OnGrid, Copied, PairMatches, ComparePair;
    PairMatchesExact(floats, vt, cmp, s.base, s.bytes, Copied(reader, s.base, |s.bytes|), step, 0, x);
  }

  /** A comparison scan of a region reports only addresses whose whole window could be read, whatever is
      compared, if and only if every window on its grid could be read. */
  lemma OnlyReadableIsReportedIff(reader: Reader, s: Saved, floats: Floats, vt: ValueType, step: nat)
    requires step >= 1 && vt.Size() > 0 && !vt.IsFloat()
    ensures (forall cmp, x :: x in SavedMatches(reader, s, floats, vt, cmp, step) ==>
                                WindowDelivered(reader, s.base, |s.bytes|, x.address - s.base, vt.Size()))
            <==> GridDelivered(reader, s, vt.Size(), step)
  {
    hide OnGrid, SavedMatches, WindowDelivered, ValueType.Size;
    if GridDelivered(reader, s, vt.Size(), step) {
      forall cmp, x | x in SavedMatches(reader, s, floats, vt, cmp, step)
        ensures WindowDelivered(reader, s.base, |s.bytes|, x.address - s.base, vt.Size())
      {
        ReportedIsOnGrid(reader, s, floats, vt, cmp, step, x);
      }
    }
    if forall cmp, x :: x in SavedMatches(reader, s, floats, vt, cmp, step) ==>
                          WindowDelivered(reader, s.base, |s.bytes|, x.address - s.base, vt.Size())
    {
      forall p | OnGrid(p, 0, step) && p + vt.Size() <= |s.bytes|
        ensures WindowDelivered(reader, s.base, |s.bytes|, p, vt.Size())
      {
        GridStarts(p, 0, step);
        var cmp, x := EveryWindowIsReported(reader, s, floats, vt, step, p);
        assert x.address - s.base == p;
      }
    }
  }

  /** The same for floats, whatever the comparison of floats is. */
  lemma OnlyReadableFloatIsReportedIff(reader: Reader, s: Saved, vt: ValueType, step: nat)
    requires step >= 1 && vt.IsFloat()
    ensures (forall floats: Floats, cmp, x :: x in SavedMatches(reader, s, floats, vt, cmp, step) ==>
                                                WindowDelivered(reader, s.base, |s.bytes|, x.address - s.base,
                                                                vt.Size()))
            <==> GridDelivered(reader, s, vt.Size(), step)
  {
    hide OnGrid, SavedMatches, WindowDelivered, ValueType.Size;
    if GridDelivered(reader, s, vt.Size(), step) {
      forall floats: Floats, cmp, x | x in SavedMatches(reader, s, floats, vt, cmp, step)
        ensures WindowDelivered(reader, s.base, |s.bytes|, x.address - s.base, vt.Size())
      {
        ReportedIsOnGrid(reader, s, floats, vt, cmp, step, x);
      }
    }
    if forall floats: Floats, cmp, x :: x in SavedMatches(reader, s, floats, vt, cmp, step) ==>
                                          WindowDelivered(reader, s.base, |s.bytes|, x.address - s.base, vt.Size())
    {
      forall p | OnGrid(p, 0, step) && p + vt.Size() <= |s.bytes|
        ensures WindowDelivered(reader, s.base, |s.bytes|, p, vt.Size())
      {
        GridStarts(p, 0, step);
        var floats, cmp, x := EveryFloatWindowIsReported(reader, s, vt, step, p);
        assert x.address - s.base == p;
      }
    }
  }

  lemma EveryFloatWindowIsReported(reader: Reader, s: Saved, vt: ValueType, step: nat, p: nat)
    returns (floats: Floats, cmp: ScanCmp, x: Match)
    requires step >= 1 && vt.IsFloat() && OnGrid(p, 0, step) && p + vt.Size() <= |s.bytes|
    ensures x in SavedMatches(reader, s, floats, vt, cmp, step) && x.address == s.base + p
  {
    hide OnGrid, Copied, PairMatches;
    var cur := Copied(reader, s.base, |s.bytes|);
    floats := (t, k, bytes, last) => true;
    cmp := ScanCmp(Exact, 0, 0);
    x := Match(s.base + p, vt.ReadF64(cur[p..p + vt.Size()]).GetOr(Integral(0)));
    assert x.address - s.base == p;
    PairMatchesExact(floats, vt, cmp, s.base, s.bytes, cur, step, 0, x);
  }

  // ----- In terms of the reads -----

  /** Every read of the copy loop from an offset on succeeds and is complete. */
  predicate ReadsComplete(reader: Reader, base: int, size: nat, off: nat)
    decreases size - off
  {
    off >= size
    || (var r := Read(reader, base + off, Want(size, off));
        r.ok && |r.bytes| == Want(size, off) && ReadsComplete(reader, base, size, off + CHUNK))
  }

  lemma {:induction false} BlocksStartFrom(reader: Reader, base: int, size: nat, off: nat, i: int)
    requires i < off
    ensures !ByteDelivered(Blocks(reader, base, size, 0, off), i)
    decreases size - off
  {
    hide Read, Blocks, ByteDelivered;
    if off < size {
      var r := Read(reader, base + off, Want(size, off));
      var next := off + Advance(r, Want(size, off), 0);
      BlocksStartFrom(reader, base, size, next, i);
      BlocksCases(reader, base, size, 0, off);
      BlockDelivers(Block(off, r.bytes), Blocks(reader, base, size, 0, next), i);
    } else {
      BlocksEnd(reader, base, size, 0, off);
      NothingDelivers(i);
    }
  }

  lemma NothingDelivers(i: int)
    ensures !ByteDelivered([], i)
  {}

  /** Every byte from an offset on is delivered by the reads from there on. */
  ghost predicate AllDelivered(reader: Reader, base: int, size: nat, off: nat) {
    forall i :: off <= i < size ==> ByteDelivered(Blocks(reader, base, size, 0, off), i)
  }

  /** Every byte is delivered if and only if every read is complete: a short or failed read leaves out the byte
      after what it copied, for good. */
  lemma {:induction false} AllDeliveredIffComplete(reader: Reader, base: int, size: nat, off: nat)
    ensures AllDelivered(reader, base, size, off) <==> ReadsComplete(reader, base, size, off)
    decreases size - off
  {
    hide Read, Blocks, ByteDelivered;
    if off < size {
      var want := Want(size, off);
      var r := Read(reader, base + off, want);
      var next := off + Advance(r, want, 0);
      var all, rest := Blocks(reader, base, size, 0, off), Blocks(reader, base, size, 0, next);
      BlocksCases(reader, base, size, 0, off);
      forall i
        ensures ByteDelivered(all, i)
                <==> (r.ok && |r.bytes| > 0 && Covers(Block(off, r.bytes), i)) || ByteDelivered(rest, i)
      {
        BlockDelivers(Block(off, r.bytes), rest, i);
      }
      if r.ok && |r.bytes| == want {
        AllDeliveredIffComplete(reader, base, size, next);
        assert forall i :: next <= i < size ==> (ByteDelivered(all, i) <==> ByteDelivered(rest, i));
      } else {
        var missed := if r.ok then off + |r.bytes| else off;
        BlocksStartFrom(reader, base, size, next, missed);
        assert !ByteDelivered(all, missed);
      }
    }
  }

  /** A scan that tests every offset is right if and only if every read was complete. */
  lemma GridDeliveredIffComplete(reader: Reader, s: Saved, width: nat)
    requires 1 <= width <= |s.bytes|
    ensures GridDelivered(reader, s, width, 1) <==> ReadsComplete(reader, s.base, |s.bytes|, 0)
  {
    hide ByteDelivered;
    var size := |s.bytes|;
    AllDeliveredIffComplete(reader, s.base, size, 0);
    if GridDelivered(reader, s, width, 1) {
      forall i | 0 <= i < size ensures ByteDelivered(Blocks(reader, s.base, size, 0, 0), i) {
        var p := if i + width <= size then i else size - width;
        assert OnGrid(p, 0, 1);
        assert WindowDelivered(reader, s.base, size, p, width);
      }
    }
    if AllDelivered(reader, s.base, size, 0) {
      forall p | OnGrid(p, 0, 1) && p + width <= size ensures WindowDelivered(reader, s.base, size, p, width) {
        GridStarts(p, 0, 1);
      }
    }
  }

  /** A concrete case: a region of one byte that holds 1 at the snapshot and cannot be read afterwards. No block
      delivers it, yet the scan for changed values reports it, with the value 0. */
  lemma UnreadableIsReported(floats: Floats)
    ensures var before: Reader := (addr: int, want: nat) => ReadResult(true, seq(want, i => 1));
            var after: Reader := (addr: int, want: nat) => ReadResult(false, []);
            var snap := Snapshot(before, [Region(0, 1, true)], 0);
            && snap == [Saved(0, [1])] && Blocks(after, 0, 1, 0, 0) == []
            && SnapshotMatches(after, snap, floats, I8, ScanCmp(Changed, 0, 0), 1) == [Match(0, Integral(0))]
  {
    var before: Reader := (addr: int, want: nat) => ReadResult(true, seq(want, i => 1));
    var after: Reader := (addr: int, want: nat) => ReadResult(false, []);
    OneByteIsSaved(before);
    NothingIsRead(after);
    OneByteChanged(floats);
    var saved := Saved(0, [1]);
    assert SnapshotMatches(after, [saved], floats, I8, ScanCmp(Changed, 0, 0), 1)
           == SavedMatches(after, saved, floats, I8, ScanCmp(Changed, 0, 0), 1)
              + SnapshotMatches(after, [], floats, I8, ScanCmp(Changed, 0, 0), 1);
  }

  lemma OneByteIsSaved(before: Reader)
    requires before(0, 1) == ReadResult(true, [1])
    ensures Snapshot(before, [Region(0, 1, true)], 0) == [Saved(0, [1])]
  {
    var r: Mapping := Region(0, 1, true);
    assert ReadsExactly(before, 0, [1], 0, 1);
    BlocksEnd(before, 0, 1, 0, 0 + Advance(Read(before, 0, 1), 1, 0));
    BlocksCases(before, 0, 1, 0, 0);
    var b := Block(0, [1]);
    assert Blocks(before, 0, 1, 0, 0) == [b];
    assert Assemble(Overlay(Zeros(1), b), [b][1..]) == [1];
    assert AnyFits([b], 1) by { assert [b][0].off + |[b][0].data| <= 1; }
    assert Snapshot(before, [r][1..], 1) == [];
  }

  lemma NothingIsRead(after: Reader)
    requires !after(0, 1).ok
    ensures Blocks(after, 0, 1, 0, 0) == [] && Copied(after, 0, 1) == [0]
  {
    BlocksEnd(after, 0, 1, 0, 0 + Advance(Read(after, 0, 1), 1, 0));
    BlocksCases(after, 0, 1, 0, 0);
  }

  lemma OneByteChanged(floats: Floats)
    ensures PairMatches(floats, I8, ScanCmp(Changed, 0, 0), 0, [1], [0], 1, 0) == [Match(0, Integral(0))]
  {
    var was: seq<byte>, cur: seq<byte> := [1], [0];
    assert was[0..1] == was && cur[0..1] == cur;
    Pow256Values();
    assert I8.ReadInt(was) == Some(1) by { SignedOne(1); }
    assert I8.ReadInt(cur) == Some(0) by { SignedOne(0); }
    SmallIsRepresentable(0);
    RoundExactIffRepresentable(0);
    assert I8.ReadF64(cur) == Some(Integral(0));
    hide ValueType.ReadInt, ValueType.ReadF64;
  }

  lemma SignedOne(v: byte)
    requires v < 0x80
    ensures I8.ReadInt([v]) == Some(v)
  {
    Pow256Values();
    assert [v][..1] == [v] && [v][1..] == [];
    assert FromLittleEndian([v]) == v + 0x100 * FromLittleEndian([v][1..]);
  }

  // ----- Delivered windows hold what memory held -----

  lemma {:induction false} DeliveredByteIsCopied(buf: seq<byte>, bs: seq<Block>, i: nat)
    requires i < |buf| && ByteDelivered(bs, i) && forall k :: 0 <= k < |bs| ==> bs[k].off + |bs[k].data| <= |buf|
    ensures exists k :: 0 <= k < |bs| && Covers(bs[k], i) && bs[k].data[i - bs[k].off] == Assemble(buf, bs)[i]
    decreases |bs|
  {
    var next := Overlay(buf, bs[0]);
    var rest := bs[1..];
    assert forall k :: 0 <= k < |rest| ==> rest[k] == bs[k + 1];
    if ByteDelivered(rest, i) {
      DeliveredByteIsCopied(next, rest, i);
      var k :| 0 <= k < |rest| && Covers(rest[k], i) && rest[k].data[i - rest[k].off] == Assemble(next, rest)[i];
      assert bs[k + 1] == rest[k];
    } else {
      UncoveredByteStays(next, rest, i);
      assert bs == [bs[0]] + rest;
      BlockDelivers(bs[0], rest, i);
      assert next[i] == bs[0].data[i - bs[0].off];
    }
  }

  lemma {:induction false} UncoveredByteStays(buf: seq<byte>, bs: seq<Block>, i: nat)
    requires i < |buf| && !ByteDelivered(bs, i)
    ensures Assemble(buf, bs)[i] == buf[i]
    decreases |bs|
  {
    if bs != [] {
      assert bs == [bs[0]] + bs[1..];
      BlockDelivers(bs[0], bs[1..], i);
      UncoveredByteStays(Overlay(buf, bs[0]), bs[1..], i);
    }
  }

  /** What is reported for a window that could be read is what the memory held there. */
  lemma DeliveredWindowIsMemory(reader: Reader, mem: Memory, r: Mapping, p: nat, width: nat)
    requires Honest(reader, mem) && p + width <= r.size && WindowDelivered(reader, r.base, r.size, p, width)
    ensures ReadInto(mem, r.base + p, width) == Some(Copied(reader, r.base, r.size)[p..p + width])
  {
    hide Copied, Honest, Blocks, ByteDelivered;
    var copy := Copied(reader, r.base, r.size);
    forall k | r.base + p <= k < r.base + p + width ensures k in mem && mem[k] == copy[k - r.base] {
      DeliveredByteIsMemory(reader, mem, r, k - r.base);
    }
    var got := ReadInto(mem, r.base + p, width).value;
    forall j | 0 <= j < width ensures got[j] == copy[p..p + width][j] {
      assert mem[r.base + p + j] == copy[r.base + p + j - r.base];
    }
    assert got == copy[p..p + width];
  }

  lemma DeliveredByteIsMemory(reader: Reader, mem: Memory, r: Mapping, i: nat)
    requires Honest(reader, mem) && i < r.size && ByteDelivered(Blocks(reader, r.base, r.size, 0, 0), i)
    ensures r.base + i in mem && mem[r.base + i] == Copied(reader, r.base, r.size)[i]
  {
    hide Read, Want, Honest, Assemble;
    var bs := Blocks(reader, r.base, r.size, 0, 0);
    BlocksWereRead(reader, r.base, r.size, 0, 0);
    forall k | 0 <= k < |bs| ensures bs[k].off + |bs[k].data| <= r.size {
      BlockFits(reader, r.base, r.size, bs[k]);
    }
    DeliveredByteIsCopied(Zeros(r.size), bs, i);
    var k :| 0 <= k < |bs| && Covers(bs[k], i) && bs[k].data[i - bs[k].off] == Assemble(Zeros(r.size), bs)[i];
    ReadIsHeld(reader, r, mem, bs[k]);
  }

  lemma BlockFits(reader: Reader, base: int, size: nat, b: Block)
    requires WasRead(reader, base, size, b)
    ensures b.off + |b.data| <= size
  {}

  // ----- The memory as copied -----

  predicate SavedApart(s: Saved, t: Saved) { s.base + |s.bytes| <= t.base || t.base + |t.bytes| <= s.base }

  ghost predicate AllApart(snap: seq<Saved>) { forall i, j :: 0 <= i < j < |snap| ==> SavedApart(snap[i], snap[j]) }

  /** What the comparison scan takes for the memory of the saved regions: what it could read, and zero elsewhere. */
  function AsCopied(reader: Reader, snap: seq<Saved>): Memory {
    if snap == [] then map[] else AsCopied(reader, snap[1..]) + CopyOf(reader, snap[0])
  }

  function CopyOf(reader: Reader, s: Saved): Memory {
    var cur := Copied(reader, s.base, |s.bytes|);
    map k: int | s.base <= k < s.base + |s.bytes| && InSaved(s, k) :: cur[k - s.base]
  }

  predicate InSaved(s: Saved, k: int) { s.base <= k < s.base + |s.bytes| }

  lemma {:induction false} AsCopiedHolds(reader: Reader, snap: seq<Saved>, i: nat)
    requires AllApart(snap) && i < |snap|
    ensures HoldsBytes(AsCopied(reader, snap), snap[i].base, Copied(reader, snap[i].base, |snap[i].bytes|))
  {
    hide Copied;
    if i > 0 {
      assert AllApart(snap[1..]) by {
        forall j, k | 0 <= j < k < |snap[1..]| ensures SavedApart(snap[1..][j], snap[1..][k]) {
          assert SavedApart(snap[j + 1], snap[k + 1]);
        }
      }
      AsCopiedHolds(reader, snap[1..], i - 1);
      assert SavedApart(snap[0], snap[i]);
    }
  }

  // ----- Histories -----

  lemma PairMatchesRemember(mem: Memory, floats: Floats, vt: ValueType, cmp: ScanCmp, base: int, was: seq<byte>,
                            cur: seq<byte>, step: nat)
    requires step >= 1 && vt.Size() > 0 && |was| == |cur| && HoldsBytes(mem, base, cur)
    ensures Remembers(vt, mem, PairMatches(floats, vt, cmp, base, was, cur, step, 0))
  {
    var xs := PairMatches(floats, vt, cmp, base, was, cur, step, 0);
    forall k | 0 <= k < |xs|
      ensures ReadInto(mem, xs[k].address, vt.Size()).Some?
      ensures vt.ReadF64(ReadInto(mem, xs[k].address, vt.Size()).value) == Some(xs[k].last)
    {
      hide PairMatches, ReadInto, ValueType.ReadF64, ValueType.Size, HoldsBytes;
      assert xs[k] in xs;
      PairMatchRemembers(mem, floats, vt, cmp, base, was, cur, step, xs[k]);
    }
  }

  lemma PairMatchRemembers(mem: Memory, floats: Floats, vt: ValueType, cmp: ScanCmp, base: int, was: seq<byte>,
                           cur: seq<byte>, step: nat, x: Match)
    requires step >= 1 && vt.Size() > 0 && |was| == |cur| && HoldsBytes(mem, base, cur)
    requires x in PairMatches(floats, vt, cmp, base, was, cur, step, 0)
    ensures ReadInto(mem, x.address, vt.Size()).Some?
    ensures vt.ReadF64(ReadInto(mem, x.address, vt.Size()).value) == Some(x.last)
  {
    hide PairMatches, ReadInto, ValueType.ReadF64, ValueType.Size, HoldsBytes, OnGrid, ComparePair;
    PairMatchesExact(floats, vt, cmp, base, was, cur, step, 0, x);
    var p := x.address - base;
    WindowIsRead(mem, base, cur, p, vt.Size());
    ValueTypesRead(vt, cur[p..p + vt.Size()]);
  }

  /** A memory that holds the copies of all saved regions. */
  ghost predicate HoldsCopies(reader: Reader, mem: Memory, snap: seq<Saved>) {
    forall k :: 0 <= k < |snap| ==> HoldsBytes(mem, snap[k].base, Copied(reader, snap[k].base, |snap[k].bytes|))
  }

  lemma {:induction false} SnapshotMatchesRemember(reader: Reader, mem: Memory, snap: seq<Saved>, floats: Floats,
                                                   vt: ValueType, cmp: ScanCmp, step: nat)
    requires step >= 1 && vt.Size() > 0 && HoldsCopies(reader, mem, snap)
    ensures Remembers(vt, mem, SnapshotMatches(reader, snap, floats, vt, cmp, step))
  {
    hide PairMatches, ReadInto, ValueType.ReadF64, ValueType.Size, HoldsBytes, Copied;
    if snap != [] {
      PairMatchesRemember(mem, floats, vt, cmp, snap[0].base, snap[0].bytes,
                          Copied(reader, snap[0].base, |snap[0].bytes|), step);
      assert HoldsCopies(reader, mem, snap[1..]);
      SnapshotMatchesRemember(reader, mem, snap[1..], floats, vt, cmp, step);
      RemembersJoins(vt, mem, SavedMatches(reader, snap[0], floats, vt, cmp, step),
                     SnapshotMatches(reader, snap[1..], floats, vt, cmp, step));
    }
  }

  lemma RemembersJoins(vt: ValueType, mem: Memory, a: seq<Match>, b: seq<Match>)
    requires Remembers(vt, mem, a) && Remembers(vt, mem, b)
    ensures Remembers(vt, mem, a + b)
  {
    hide ReadInto, ValueType.ReadF64, ValueType.Size;
  }

  /** An unknown first scan, its comparison scan, whatever it could read, and any number of next scans leave, in
      order, exactly the matches of the comparison scan at whose addresses every later comparison held, the
      first of them with the value as copied. */
  lemma UnknownHistoryKeepsExactlyTheSurvivors(reader: Reader, snap: seq<Saved>, floats: Floats, vt: ValueType,
                                               cmp: ScanCmp, step: nat, scans: seq<Next>)
    requires step >= 1 && vt.Size() > 0 && AllApart(snap)
    ensures var xs := SnapshotMatches(reader, snap, floats, vt, cmp, step);
            RunNext(floats, vt, xs, scans) == Survivors(floats, vt, AsCopied(reader, snap), scans, xs)
  {
    hide AsCopied, HoldsBytes, Copied;
    forall k | 0 <= k < |snap|
      ensures HoldsBytes(AsCopied(reader, snap), snap[k].base, Copied(reader, snap[k].base, |snap[k].bytes|))
    {
      AsCopiedHolds(reader, snap, k);
    }
    SnapshotMatchesRemember(reader, AsCopied(reader, snap), snap, floats, vt, cmp, step);
    RunKeepsExactlyTheSurvivors(floats, vt, AsCopied(reader, snap),
                                SnapshotMatches(reader, snap, floats, vt, cmp, step), scans);
  }

  // ----- From the snapshot on, address by address -----

  /** A region that the snapshot may hold, and what it then holds of it. */
  ghost predicate IsSaved(before: Reader, r: Mapping, s: Saved) {
    !Skipped(r) && Delivered(before, r) && s == Saved(r.base, Copied(before, r.base, r.size))
  }

  /** Everything saved is the copy of a region that is writable, not too large and was delivered at all. */
  lemma {:induction false} SavedIsRegion(before: Reader, regions: seq<Mapping>, total: nat, s: Saved) returns (i: nat)
    requires s in Snapshot(before, regions, total)
    ensures i < |regions| && IsSaved(before, regions[i], s)
  {
    hide Delivered, Copied, Skipped;
    if IsSaved(before, regions[0], s) {
      i := 0;
    } else {
      var more := if Skipped(regions[0]) || !Delivered(before, regions[0]) then total else total + regions[0].size;
      i := SavedIsRegion(before, regions[1..], more, s);
      i := i + 1;
    }
  }

  /** Bytes of the regions that may be saved. */
  function EligibleBytes(regions: seq<Mapping>): nat {
    if regions == [] then 0 else (if Skipped(regions[0]) then 0 else regions[0].size) + EligibleBytes(regions[1..])
  }

  /** While the limit is not reached, everything that may be saved is. */
  lemma {:induction false} RegionIsSaved(before: Reader, regions: seq<Mapping>, total: nat, i: nat, s: Saved)
    requires i < |regions| && IsSaved(before, regions[i], s) && total + EligibleBytes(regions) <= SNAP_MAX_TOTAL
    ensures s in Snapshot(before, regions, total)
  {
    hide Delivered, Copied, Skipped;
    if i > 0 {
      var more := if Skipped(regions[0]) || !Delivered(before, regions[0]) then total else total + regions[0].size;
      RegionIsSaved(before, regions[1..], more, i - 1, s);
    }
  }

  predicate MappingsApart(r: Mapping, s: Mapping) { r.base + r.size <= s.base || s.base + s.size <= r.base }

  ghost predicate RegionsDisjoint(regions: seq<Mapping>) {
    forall i, j :: 0 <= i < j < |regions| ==> MappingsApart(regions[i], regions[j])
  }

  lemma {:induction false} SnapshotIsApart(before: Reader, regions: seq<Mapping>, total: nat)
    requires RegionsDisjoint(regions)
    ensures AllApart(Snapshot(before, regions, total))
  {
    hide Delivered, Copied, Skipped;
    if regions != [] {
      var rest := regions[1..];
      assert RegionsDisjoint(rest) by {
        forall i, j | 0 <= i < j < |rest| ensures MappingsApart(rest[i], rest[j]) {
          assert MappingsApart(regions[i + 1], regions[j + 1]);
        }
      }
      var r := regions[0];
      var more := if Skipped(r) || !Delivered(before, r) then total else total + r.size;
      SnapshotIsApart(before, rest, more);
      var others := Snapshot(before, rest, more);
      forall k | 0 <= k < |others| ensures SavedApart(Saved(r.base, Copied(before, r.base, r.size)), others[k]) {
        assert others[k] in others;
        var i := SavedIsRegion(before, rest, more, others[k]);
        assert MappingsApart(regions[0], regions[i + 1]);
      }
    }
  }

  lemma {:induction false} SnapshotAddressesExact(reader: Reader, snap: seq<Saved>, floats: Floats, vt: ValueType,
                                                  cmp: ScanCmp, step: nat, a: int)
    requires step >= 1
    ensures a in AddressesOf(SnapshotMatches(reader, snap, floats, vt, cmp, step))
            <==> exists i :: 0 <= i < |snap| && SavedHeld(reader, snap[i], floats, vt, cmp, step, a)
  {
    hide SavedMatches, SavedHeld;
    if snap != [] {
      SavedAddressesExact(reader, snap[0], floats, vt, cmp, step, a);
      SnapshotAddressesExact(reader, snap[1..], floats, vt, cmp, step, a);
      AddressesOfConcat(SavedMatches(reader, snap[0], floats, vt, cmp, step),
                        SnapshotMatches(reader, snap[1..], floats, vt, cmp, step));
      if i :| 0 <= i < |snap[1..]| && SavedHeld(reader, snap[1..][i], floats, vt, cmp, step, a) {
        assert snap[i + 1] == snap[1..][i];
      }
      if i :| 0 <= i < |snap| && SavedHeld(reader, snap[i], floats, vt, cmp, step, a) && i > 0 {
        assert snap[1..][i - 1] == snap[i];
      }
    }
  }

  /** The comparison of what was saved with what was copied now held at the address. */
  predicate SavedHeld(reader: Reader, s: Saved, floats: Floats, vt: ValueType, cmp: ScanCmp, step: nat, a: int)
    requires step >= 1
  {
    PairHeld(floats, vt, cmp, s.base, s.bytes, Copied(reader, s.base, |s.bytes|), step, 0, a)
  }

  lemma SavedAddressesExact(reader: Reader, s: Saved, floats: Floats, vt: ValueType, cmp: ScanCmp, step: nat, a: int)
    requires step >= 1
    ensures a in AddressesOf(SavedMatches(reader, s, floats, vt, cmp, step))
            <==> SavedHeld(reader, s, floats, vt, cmp, step, a)
  {
    hide Copied, PairMatches, ComparePair, OnGrid, ValueType.ReadF64;
    var cur := Copied(reader, s.base, |s.bytes|);
    var xs := SavedMatches(reader, s, floats, vt, cmp, step);
    if a in AddressesOf(xs) {
      var k :| 0 <= k < |xs| && AddressesOf(xs)[k] == a;
      assert xs[k] in xs;
      PairMatchesExact(floats, vt, cmp, s.base, s.bytes, cur, step, 0, xs[k]);
    }
    if SavedHeld(reader, s, floats, vt, cmp, step, a) {
      var x := Match(a, vt.ReadF64(cur[a - s.base..a - s.base + vt.Size()]).GetOr(Integral(0)));
      PairMatchesExact(floats, vt, cmp, s.base, s.bytes, cur, step, 0, x);
      var k :| 0 <= k < |xs| && xs[k] == x;
      assert AddressesOf(xs)[k] == a;
    }
  }

  /** The whole history from the snapshot of disjoint regions on, address by address and whatever could be read:
      an address is left if and only if the comparison scan held there, on what was copied before and after, and
      every later scan could read it and held. */
  lemma UnknownHistoryIsExact(before: Reader, after: Reader, regions: seq<Mapping>, floats: Floats, vt: ValueType,
                              cmp: ScanCmp, step: nat, scans: seq<Next>, a: int)
    requires step >= 1 && vt.Size() > 0 && RegionsDisjoint(regions)
    ensures var snap := Snapshot(before, regions, 0);
            a in AddressesOf(RunNext(floats, vt, SnapshotMatches(after, snap, floats, vt, cmp, step), scans))
            <==> (exists i :: 0 <= i < |snap| && SavedHeld(after, snap[i], floats, vt, cmp, step, a))
                 && AlwaysHeld(floats, vt, AsCopied(after, snap), scans, a)
  {
    hide Snapshot, SnapshotMatches, RunNext, Survivors, AlwaysHeld, SavedHeld, AsCopied, AllApart;
    var snap := Snapshot(before, regions, 0);
    SnapshotIsApart(before, regions, 0);
    UnknownHistoryKeepsExactlyTheSurvivors(after, snap, floats, vt, cmp, step, scans);
    SurvivorAddresses(floats, vt, AsCopied(after, snap), scans, SnapshotMatches(after, snap, floats, vt, cmp, step), a);
    SnapshotAddressesExact(after, snap, floats, vt, cmp, step, a);
  }

  /** When both readings of every region were complete and the limit was not reached, the comparison scan is
      exact on the values memory held both times. */
  lemma CompleteComparisonIsExact(before: Reader, after: Reader, regions: seq<Mapping>, olds: seq<seq<byte>>,
                                  news: seq<seq<byte>>, floats: Floats, vt: ValueType, cmp: ScanCmp, step: nat, a: int)
    requires step >= 1 && vt.Size() > 0
    requires AllComplete(before, regions, olds) && AllComplete(after, regions, news)
             && EligibleBytes(regions) <= SNAP_MAX_TOTAL
    ensures a in AddressesOf(SnapshotMatches(after, Snapshot(before, regions, 0), floats, vt, cmp, step))
            <==> exists i :: 0 <= i < |regions| && !Skipped(regions[i])
                             && PairHeld(floats, vt, cmp, regions[i].base, olds[i], news[i], step, 0, a)
  {
    hide Snapshot, SnapshotMatches, PairHeld, Complete, Copied;
    var snap := Snapshot(before, regions, 0);
    SnapshotAddressesExact(after, snap, floats, vt, cmp, step, a);
    if k :| 0 <= k < |snap| && SavedHeld(after, snap[k], floats, vt, cmp, step, a) {
      assert snap[k] in snap;
      var i := SavedIsRegion(before, regions, 0, snap[k]);
      CopyIsRegion(before, regions[i].base, olds[i]);
      CopyIsRegion(after, regions[i].base, news[i]);
    }
    if i :| (0 <= i < |regions| && !Skipped(regions[i])
             && PairHeld(floats, vt, cmp, regions[i].base, olds[i], news[i], step, 0, a))
    {
      CopyIsRegion(before, regions[i].base, olds[i]);
      CopyIsRegion(after, regions[i].base, news[i]);
      CompleteIsDelivered(before, regions[i], olds[i]);
      var s := Saved(regions[i].base, olds[i]);
      RegionIsSaved(before, regions, 0, i, s);
      var k :| 0 <= k < |snap| && snap[k] == s;
      assert SavedHeld(after, snap[k], floats, vt, cmp, step, a);
    }
  }

  lemma CompleteIsDelivered(reader: Reader, r: Mapping, bytes: seq<byte>)
    requires |bytes| == r.size > 0 && Complete(reader, r.base, bytes)
    ensures Delivered(reader, r)
  {
    hide Read, Blocks;
    assert ReadsExactly(reader, r.base, bytes, 0, Want(r.size, 0));
    BlocksCases(reader, r.base, r.size, 0, 0);
    var bs := Blocks(reader, r.base, r.size, 0, 0);
    assert bs[0].off + |bs[0].data| <= r.size;
  }
}
