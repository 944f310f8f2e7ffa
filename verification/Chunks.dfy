/** Reading a region in overlapping blocks, and why scanning the blocks equals scanning the region. */
module Chunks {
  import opened Wrappers
  import opened Bytes
  import opened ProcessMemory
  import opened Values

  const CHUNK: nat := 0x10_0000

  /** A region that ends inside the address space. */
  type Mapping = r: Region | r.base + r.size <= TWO64 witness Region(0, 0, false)

  /** One ReadProcessMemory call: its success flag and the bytes it copied, however many. */
  datatype ReadResult = ReadResult(ok: bool, bytes: seq<byte>)

  /** What reading `want` bytes at an address returns; it may fail or come short, differently at each address. */
  type Reader = (int, nat) -> ReadResult

  /** The bytes copied never exceed the request. */
  function Read(reader: Reader, addr: int, want: nat): (r: ReadResult)
    ensures |r.bytes| <= want
  {
    var r := reader(addr, want);
    if |r.bytes| <= want then r else ReadResult(r.ok, r.bytes[..want])
  }

  /** One invocation of the callback: where the block starts in the region, and its bytes. */
  datatype Block = Block(off: nat, data: seq<byte>)

  function StepFor(overlap: nat): nat { if CHUNK > overlap + 1 then CHUNK - overlap else 1 }

  function Want(size: nat, off: nat): nat
    requires off < size
  {
    if size - off < CHUNK then size - off else CHUNK
  }

  /** How far the offset moves after a read: by the step when complete, else past the unreadable page. */
  function Advance(r: ReadResult, want: nat, overlap: nat): (n: nat)
    ensures n >= 1
  {
    if r.ok && |r.bytes| == want then StepFor(overlap) else (if |r.bytes| > 1 then |r.bytes| else 1) + 0x1000
  }

  /** The blocks delivered from an offset on. */
  function Blocks(reader: Reader, base: int, size: nat, overlap: nat, off: nat): seq<Block>
    decreases size - off
  {
    if off >= size then [] else
    var r := Read(reader, base + off, Want(size, off));
    (if r.ok && |r.bytes| > 0 then [Block(off, r.bytes)] else [])
    + Blocks(reader, base, size, overlap, off + Advance(r, Want(size, off), overlap))
  }

  /** The read loop; the callback invocations, in order, are returned as a list. */
  method ReadChunked(reader: Reader, base: int, size: nat, overlap: nat) returns (blocks: seq<Block>)
    ensures blocks == Blocks(reader, base, size, overlap, 0)
  {
    blocks := [];
    if size == 0 {
      return;
    }
    var step := StepFor(overlap);
    var off := 0;
    ghost var all := Blocks(reader, base, size, overlap, 0);
    assert [] + all == all;
    while off < size
      invariant all == blocks + Blocks(reader, base, size, overlap, off)
      decreases size - off
    {
      var want := if size - off < CHUNK then size - off else CHUNK;
      var r := Read(reader, base + off, want);
      BlocksStep(blocks, reader, base, size, overlap, off);
      if r.ok && |r.bytes| > 0 {
        blocks := blocks + [Block(off, r.bytes)];
      } else {
        assert blocks + [] == blocks;
      }
      if r.ok && |r.bytes| == want {
        off := off + step;
      } else {
        off := off + (if |r.bytes| > 1 then |r.bytes| else 1) + 0x1000;
      }
    }
    assert blocks + [] == blocks;
  }

  lemma BlocksStep(before: seq<Block>, reader: Reader, base: int, size: nat, overlap: nat, off: nat)
    requires off < size
    ensures var r := Read(reader, base + off, Want(size, off));
            before + Blocks(reader, base, size, overlap, off)
            == (before + (if r.ok && |r.bytes| > 0 then [Block(off, r.bytes)] else []))
               + Blocks(reader, base, size, overlap, off + Advance(r, Want(size, off), overlap))
  {
    hide *;
    BlocksCases(reader, base, size, overlap, off);
    var r := Read(reader, base + off, Want(size, off));
    ConcatThree(before, [Block(off, r.bytes)],
                Blocks(reader, base, size, overlap, off + Advance(r, Want(size, off), overlap)));
  }

  lemma ConcatThree<T>(a: seq<T>, b: seq<T>, c: seq<T>)
    ensures (a + b) + c == a + (b + c)
    ensures (a + []) + c == a + c && [] + (b + c) == b + c
  {}

  /** A delivered block and the rest, or just the rest. */
  lemma BlocksCases(reader: Reader, base: int, size: nat, overlap: nat, off: nat)
    requires off < size
    ensures var r := Read(reader, base + off, Want(size, off));
            var rest := Blocks(reader, base, size, overlap, off + Advance(r, Want(size, off), overlap));
            Blocks(reader, base, size, overlap, off)
              == if r.ok && |r.bytes| > 0 then [Block(off, r.bytes)] + rest else rest
  {
    var r := Read(reader, base + off, Want(size, off));
    var rest := Blocks(reader, base, size, overlap, off + Advance(r, Want(size, off), overlap));
    assert [] + rest == rest;
  }

  // ----- Matching windows -----

  /** What a scan looks for at a position. */
  datatype Matcher =
    | Pattern(pattern: seq<Option<byte>>)
    | Text(text: seq<byte>)
    | Value(floats: Floats, vt: ValueType, cmp: ScanCmp)
  {
    function Width(): nat {
      match this
      case Pattern(p) => |p|
      case Text(t) => |t|
      case Value(_, vt, _) => vt.Size()
    }

    predicate Accepts(window: seq<byte>) {
      match this
      case Pattern(p) => MatchesAt(window, p)
      case Text(t) => window == t
      case Value(floats, vt, cmp) => Compare(floats, vt, cmp, window, NotANumber) == Some(true)
    }
  }

  /** Every byte of the pattern matches, wildcards matching anything. */
  predicate MatchesAt(hay: seq<byte>, pattern: seq<Option<byte>>) {
    |hay| >= |pattern| && forall k :: 0 <= k < |pattern| && pattern[k].Some? ==> pattern[k].value == hay[k]
  }

  /** Matching positions i, i + stride, ... of some bytes. */
  function Hits(data: seq<byte>, m: Matcher, stride: nat, i: nat): seq<nat>
    requires stride >= 1
    decreases |data| - i
  {
    if i + m.Width() > |data| then []
    else (if m.Accepts(data[i..i + m.Width()]) then [i] else []) + Hits(data, m, stride, i + stride)
  }

  /** Distance from an offset to the next multiple of the stride: where a realigned block starts. */
  function Realign(off: nat, stride: nat): nat
    requires stride >= 1
  {
    if off % stride == 0 then 0 else stride - off % stride
  }

  function Shift(ps: seq<nat>, d: nat): (r: seq<nat>)
    ensures |r| == |ps| && forall k :: 0 <= k < |r| ==> r[k] == ps[k] + d
  {
    if ps == [] then [] else [ps[0] + d] + Shift(ps[1..], d)
  }

  /** Matches of a block, as offsets in the region. */
  function BlockHits(b: Block, m: Matcher, stride: nat): seq<nat>
    requires stride >= 1
  {
    Shift(Hits(b.data, m, stride, Realign(b.off, stride)), b.off)
  }

  function AllHits(bs: seq<Block>, m: Matcher, stride: nat): seq<nat>
    requires stride >= 1
  {
    if bs == [] then [] else BlockHits(bs[0], m, stride) + AllHits(bs[1..], m, stride)
  }

  /** The naive scan of a region's bytes. */
  function NaiveScan(bytes: seq<byte>, m: Matcher, stride: nat): seq<nat>
    requires stride >= 1
  {
    Hits(bytes, m, stride, 0)
  }

  /** Position p is i plus a multiple of the stride. */
  predicate OnGrid(p: int, i: int, stride: nat)
    requires stride >= 1
  {
    p >= i && (p - i) % stride == 0
  }

  lemma GridStep(p: int, i: int, stride: nat)
    requires stride >= 1
    ensures OnGrid(p, i, stride) <==> p == i || OnGrid(p, i + stride, stride)
  {
    if p >= i + stride {
      SameResidue(p - i, stride);
    } else if p > i {
      SmallResidue(p - i, stride);
    } else if p == i {
      SmallResidue(0, stride);
    }
  }

  lemma HitsStep(data: seq<byte>, m: Matcher, stride: nat, i: nat)
    requires stride >= 1 && i + m.Width() <= |data|
    ensures Hits(data, m, stride, i) == (if m.Accepts(data[i..i + m.Width()]) then [i] else [])
            + Hits(data, m, stride, i + stride)
  {}

  lemma HitsEnd(data: seq<byte>, m: Matcher, stride: nat, i: nat)
    requires stride >= 1 && i + m.Width() > |data|
    ensures Hits(data, m, stride, i) == []
  {}

  /** A position is a hit exactly when it is on the grid, fits and is accepted. */
  lemma {:induction false} HitsExact(data: seq<byte>, m: Matcher, stride: nat, i: nat, p: nat)
    requires stride >= 1
    ensures p in Hits(data, m, stride, i) <==>
              OnGrid(p, i, stride) && p + m.Width() <= |data| && m.Accepts(data[p..p + m.Width()])
    decreases |data| - i
  {
    hide Hits, Matcher.Accepts, Matcher.Width, OnGrid;
    GridStep(p, i, stride);
    if i + m.Width() <= |data| {
      HitsExact(data, m, stride, i + stride, p);
      HitsStep(data, m, stride, i);
    } else {
      HitsEnd(data, m, stride, i);
      GridStarts(p, i, stride);
    }
  }

  lemma GridStarts(p: int, i: int, stride: nat)
    requires stride >= 1
    ensures OnGrid(p, i, stride) ==> p >= i
  {}

  lemma SameResidue(d: nat, stride: nat)
    requires 1 <= stride <= d
    ensures d % stride == (d - stride) % stride
  {
    var q, r := (d - stride) / stride, (d - stride) % stride;
    assert d == stride * (q + 1) + r;
    DivisionIsUnique(d, stride, q + 1, r);
  }

  lemma SmallResidue(d: nat, stride: nat)
    requires d < stride
    ensures d % stride == d
  {
    DivisionIsUnique(d, stride, 0, d);
  }

  predicate Increasing(ps: seq<nat>) { forall j, k :: 0 <= j < k < |ps| ==> ps[j] < ps[k] }

  lemma {:induction false} HitsIncrease(data: seq<byte>, m: Matcher, stride: nat, i: nat)
    requires stride >= 1
    ensures forall k :: 0 <= k < |Hits(data, m, stride, i)| ==>
                          i <= Hits(data, m, stride, i)[k] && Hits(data, m, stride, i)[k] + m.Width() <= |data|
    ensures Increasing(Hits(data, m, stride, i))
    decreases |data| - i
  {
    hide Hits, Matcher.Accepts, Matcher.Width;
    if i + m.Width() <= |data| {
      HitsIncrease(data, m, stride, i + stride);
      HitsStep(data, m, stride, i);
    } else {
      HitsEnd(data, m, stride, i);
    }
  }

  // ----- Complete reads -----

  /** Every read of the region returns exactly its bytes. */
  ghost predicate Complete(reader: Reader, base: int, bytes: seq<byte>) {
    forall off, n :: 0 <= off && 0 <= n && off + n <= |bytes| ==> ReadsExactly(reader, base, bytes, off, n)
  }

  predicate ReadsExactly(reader: Reader, base: int, bytes: seq<byte>, off: nat, n: nat)
    requires off + n <= |bytes|
  {
    Read(reader, base + off, n) == ReadResult(true, bytes[off..off + n])
  }

  /** Start of the next block's positions. */
  function NextAligned(off: nat, stride: nat): nat
    requires stride >= 1
  {
    off + Realign(off, stride)
  }

  lemma RealignIsAligned(off: nat, stride: nat)
    requires stride >= 1
    ensures NextAligned(off, stride) % stride == 0 && off <= NextAligned(off, stride) < off + stride
  {
    var q, r := off / stride, off % stride;
    assert off == stride * q + r;
    if r == 0 {
    } else {
      assert NextAligned(off, stride) == stride * (q + 1);
      DivisionIsUnique(NextAligned(off, stride), stride, q + 1, 0);
    }
  }

  /** An aligned position below an aligned bound is at least a stride below it. */
  lemma AlignedGap(p: nat, bound: nat, stride: nat)
    requires stride >= 1 && p % stride == 0 && bound % stride == 0 && p < bound
    ensures p + stride <= bound && (p + stride) % stride == 0
  {
    var a, b := p / stride, bound / stride;
    assert p == stride * a && bound == stride * b;
    MultiplesApart(stride, a, b);
    assert p + stride == stride * (a + 1) + 0;
    DivisionIsUnique(p + stride, stride, a + 1, 0);
  }

  lemma MultiplesApart(d: nat, a: nat, b: nat)
    requires d * a < d * b
    ensures d * a + d <= d * b
  {
    if a >= b {
      assert d * a == d * b + d * (a - b);
    } else {
      assert d * b == d * a + d + d * (b - a - 1);
    }
  }

  /** A window starting before the next block fits the block exactly when it fits the region. */
  lemma WindowFits(off: nat, size: nat, width: nat, p: nat)
    requires 1 <= width <= CHUNK && off < size && off <= p
    ensures var len := Want(size, off);
            && off + len <= size
            && (p >= off + StepFor(width - 1) ==> p - off + width > len)
            && (p < off + StepFor(width - 1) ==> (p - off + width <= len <==> p + width <= size))
  {}

  /** From an aligned position of a block on, the region's matches are the block's, then those from the
      first position of the next block on. */
  lemma {:induction false} BlockCovers(bytes: seq<byte>, m: Matcher, stride: nat, off: nat, len: nat, p: nat)
    requires stride >= 1 && 1 <= m.Width() <= CHUNK && off < |bytes| && len == Want(|bytes|, off)
    requires off <= p && p % stride == 0
    requires p <= NextAligned(off + StepFor(m.Width() - 1), stride)
    ensures Hits(bytes, m, stride, p)
            == Shift(Hits(bytes[off..off + len], m, stride, p - off), off)
               + Hits(bytes, m, stride, NextAligned(off + StepFor(m.Width() - 1), stride))
    decreases |bytes| + CHUNK - p
  {
    hide Matcher.Accepts, Matcher.Width, Hits, NextAligned, StepFor, Want;
    var width := m.Width();
    WindowFits(off, |bytes|, width, p);
    var next := off + StepFor(width - 1);
    var bound := NextAligned(next, stride);
    var data := bytes[off..off + len];
    RealignIsAligned(next, stride);
    if p >= next {
      AlignedBetween(p, next, stride);
      HitsEnd(data, m, stride, p - off);
      assert [] + Hits(bytes, m, stride, bound) == Hits(bytes, m, stride, bound);
    } else if p + width > |bytes| {
      HitsEnd(data, m, stride, p - off);
      HitsEnd(bytes, m, stride, p);
      HitsEnd(bytes, m, stride, bound);
    } else {
      AlignedGap(p, bound, stride);
      BlockCovers(bytes, m, stride, off, len, p + stride);
      SubWindow(bytes, off, off + len, p, p + width);
      SamePosition(bytes, data, m, stride, off, p, Hits(bytes, m, stride, bound));
    }
  }

  /** One position, seen in the region and in the block. */
  lemma SamePosition(bytes: seq<byte>, data: seq<byte>, m: Matcher, stride: nat, off: nat, p: nat, tail: seq<nat>)
    requires stride >= 1 && off <= p && p + m.Width() <= |bytes| && p - off + m.Width() <= |data|
    requires data[p - off..p - off + m.Width()] == bytes[p..p + m.Width()]
    requires Hits(bytes, m, stride, p + stride) == Shift(Hits(data, m, stride, p + stride - off), off) + tail
    ensures Hits(bytes, m, stride, p) == Shift(Hits(data, m, stride, p - off), off) + tail
  {
    hide Hits, Matcher.Accepts, Matcher.Width, Shift;
    HitsStep(bytes, m, stride, p);
    HitsStep(data, m, stride, p - off);
    var rest := Hits(data, m, stride, p - off + stride);
    ShiftCons(rest, p - off, off);
    ConcatThree([p], Shift(rest, off), tail);
  }

  lemma SubWindow(s: seq<byte>, lo: nat, hi: nat, a: nat, b: nat)
    requires lo <= a <= b <= hi <= |s|
    ensures s[lo..hi][a - lo..b - lo] == s[a..b]
  {
    var t := s[lo..hi];
    forall k | 0 <= k < b - a ensures t[a - lo..b - lo][k] == s[a..b][k] {
      assert t[a - lo + k] == s[a + k];
    }
  }

  lemma ShiftCons(ps: seq<nat>, p: nat, d: nat)
    ensures Shift([p] + ps, d) == [p + d] + Shift(ps, d)
    ensures Shift([] + ps, d) == Shift(ps, d)
  {
    assert ([p] + ps)[1..] == ps && [] + ps == ps;
  }

  lemma AlignedBetween(p: nat, next: nat, stride: nat)
    requires stride >= 1 && p % stride == 0 && next <= p <= NextAligned(next, stride)
    ensures p == NextAligned(next, stride)
  {
    RealignIsAligned(next, stride);
    if p < NextAligned(next, stride) {
      AlignedGap(p, NextAligned(next, stride), stride);
    }
  }

  /** Chunked equals naive, from any block on. */
  lemma {:induction false} ChunkedFromIsNaive(reader: Reader, base: int, bytes: seq<byte>, m: Matcher, stride: nat,
                                              off: nat)
    requires stride >= 1 && 1 <= m.Width() <= CHUNK && Complete(reader, base, bytes)
    ensures AllHits(Blocks(reader, base, |bytes|, m.Width() - 1, off), m, stride)
            == Hits(bytes, m, stride, NextAligned(off, stride))
    decreases |bytes| - off
  {
    hide Hits, Matcher.Width, Realign, Read, Shift;
    RealignIsAligned(off, stride);
    if off >= |bytes| {
      HitsEnd(bytes, m, stride, NextAligned(off, stride));
    } else {
      var want := Want(|bytes|, off);
      var next := off + StepFor(m.Width() - 1);
      assert ReadsExactly(reader, base, bytes, off, want);
      ChunkedFromIsNaive(reader, base, bytes, m, stride, next);
      var b := Block(off, bytes[off..off + want]);
      var rest := Blocks(reader, base, |bytes|, m.Width() - 1, next);
      assert Blocks(reader, base, |bytes|, m.Width() - 1, off) == [b] + rest;
      assert ([b] + rest)[1..] == rest;
      BlockStartsBelow(off, m.Width(), stride);
      BlockCovers(bytes, m, stride, off, want, NextAligned(off, stride));
    }
  }

  lemma BlockStartsBelow(off: nat, width: nat, stride: nat)
    requires stride >= 1 && 1 <= width <= CHUNK
    ensures NextAligned(off, stride) <= NextAligned(off + StepFor(width - 1), stride)
  {
    var next := off + StepFor(width - 1);
    RealignIsAligned(off, stride);
    RealignIsAligned(next, stride);
    if NextAligned(next, stride) < NextAligned(off, stride) {
      AlignedGap(NextAligned(next, stride), NextAligned(off, stride), stride);
    }
  }

  /** When every read is complete and the window fits a block, scanning the overlapping, realigned blocks
      finds exactly what scanning the whole region finds: in order, each once, nothing lost at a border. */
  lemma ChunkedIsNaive(reader: Reader, base: int, bytes: seq<byte>, m: Matcher, stride: nat)
    requires stride >= 1 && 1 <= m.Width() <= CHUNK && Complete(reader, base, bytes)
    ensures AllHits(Blocks(reader, base, |bytes|, m.Width() - 1, 0), m, stride) == NaiveScan(bytes, m, stride)
  {
    SmallResidue(0, stride);
    ChunkedFromIsNaive(reader, base, bytes, m, stride, 0);
  }

  /** A window wider than a block is never found, wherever it occurs. */
  lemma {:induction false} TooWideFindsNothing(reader: Reader, base: int, size: nat, m: Matcher, stride: nat,
                                               overlap: nat, off: nat)
    requires stride >= 1 && m.Width() > CHUNK
    ensures AllHits(Blocks(reader, base, size, overlap, off), m, stride) == []
    decreases size - off
  {
    hide Hits, Matcher.Width, Realign, Read, StepFor;
    if off < size {
      var r := Read(reader, base + off, Want(size, off));
      TooWideFindsNothing(reader, base, size, m, stride, overlap, off + Advance(r, Want(size, off), overlap));
      BlocksCases(reader, base, size, overlap, off);
      if r.ok && |r.bytes| > 0 {
        var rest := Blocks(reader, base, size, overlap, off + Advance(r, Want(size, off), overlap));
        assert ([Block(off, r.bytes)] + rest)[1..] == rest;
        HitsEnd(r.bytes, m, stride, Realign(off, stride));
      }
    }
  }

  /** So, on complete reads, the chunked scan of a non-empty pattern is the naive one if and only if the
      pattern fits a block or does not occur. */
  lemma ChunkedIsNaiveIff(reader: Reader, base: int, bytes: seq<byte>, m: Matcher, stride: nat)
    requires stride >= 1 && m.Width() >= 1 && Complete(reader, base, bytes)
    ensures AllHits(Blocks(reader, base, |bytes|, m.Width() - 1, 0), m, stride) == NaiveScan(bytes, m, stride)
            <==> m.Width() <= 0x10_0000 || NaiveScan(bytes, m, stride) == []
  {
    hide Hits, Blocks, AllHits, Matcher.Width;
    if m.Width() <= CHUNK {
      ChunkedIsNaive(reader, base, bytes, m, stride);
    } else {
      TooWideFindsNothing(reader, base, |bytes|, m, stride, m.Width() - 1, 0);
    }
  }

  // ----- Arbitrary reads -----

  /** Blocks start from `lo` on inside the region, and the matches of each lie below the start of all later ones. */
  ghost predicate Ascending(bs: seq<Block>, m: Matcher, stride: nat, lo: nat, size: nat)
    requires stride >= 1
  {
    && (forall k :: 0 <= k < |bs| ==> bs[k].off >= lo && bs[k].off < size)
    && (forall j, k, h :: 0 <= j < k < |bs| && h in BlockHits(bs[j], m, stride) ==> h < bs[k].off)
  }

  lemma AscendingCons(b: Block, rest: seq<Block>, m: Matcher, stride: nat, next: nat, size: nat)
    requires stride >= 1 && b.off < size && b.off <= next
    requires Ascending(rest, m, stride, next, size)
    requires forall h :: h in BlockHits(b, m, stride) ==> h < next
    ensures Ascending([b] + rest, m, stride, b.off, size)
  {
    hide BlockHits;
  }

  /** Whatever the reads return, matches increase from block to block: positions of a block lie below the
      start of the next one, so the duplicate guard never rejects anything. */
  lemma {:induction false} HitsIncreaseAcrossBlocks(reader: Reader, base: int, size: nat, m: Matcher, stride: nat,
                                                    off: nat)
    requires stride >= 1 && m.Width() >= 1
    ensures Ascending(Blocks(reader, base, size, m.Width() - 1, off), m, stride, off, size)
    decreases size - off
  {
    hide Hits, Realign, Read, BlockHits, Advance, StepFor, Matcher.Width, Blocks;
    if off < size {
      var want := Want(size, off);
      var r := Read(reader, base + off, want);
      var next := off + Advance(r, want, m.Width() - 1);
      HitsIncreaseAcrossBlocks(reader, base, size, m, stride, next);
      BlocksCases(reader, base, size, m.Width() - 1, off);
      if r.ok && |r.bytes| > 0 {
        var b := Block(off, r.bytes);
        forall h | h in BlockHits(b, m, stride) ensures h < next {
          BlockEndsBelow(off, r, want, m, stride, h);
        }
        AscendingCons(b, Blocks(reader, base, size, m.Width() - 1, next), m, stride, next, size);
      }
    } else {
      BlocksEnd(reader, base, size, m.Width() - 1, off);
    }
  }

  lemma BlocksEnd(reader: Reader, base: int, size: nat, overlap: nat, off: nat)
    requires off >= size
    ensures Blocks(reader, base, size, overlap, off) == []
  {}

  /** A match of a block lies below the start of the next one. */
  lemma BlockEndsBelow(off: nat, r: ReadResult, want: nat, m: Matcher, stride: nat, h: nat)
    requires stride >= 1 && m.Width() >= 1 && r.ok && |r.bytes| <= want <= CHUNK
    requires h in BlockHits(Block(off, r.bytes), m, stride)
    ensures h < off + Advance(r, want, m.Width() - 1)
  {
    hide Hits, Realign, Matcher.Width, Matcher.Accepts;
    var b := Block(off, r.bytes);
    var i := Realign(off, stride);
    HitsIncrease(r.bytes, m, stride, i);
    var k :| 0 <= k < |BlockHits(b, m, stride)| && BlockHits(b, m, stride)[k] == h;
    var hits := Hits(b.data, m, stride, Realign(b.off, stride));
    assert 0 <= k < |hits| && h == hits[k] + off;
    assert hits == Hits(r.bytes, m, stride, i);
    assert hits[k] + m.Width() <= |r.bytes|;
  }

  /** Every reported offset was matched in delivered bytes. */
  lemma {:induction false} HitsWereDelivered(bs: seq<Block>, m: Matcher, stride: nat, h: nat)
    requires stride >= 1
    ensures h in AllHits(bs, m, stride) <==>
              exists k :: 0 <= k < |bs| && DeliveredAt(bs[k], m, stride, h)
  {
    if bs != [] {
      HitsWereDelivered(bs[1..], m, stride, h);
      BlockHitDelivered(bs[0], m, stride, h);
      if h in AllHits(bs[1..], m, stride) {
        var k :| 0 <= k < |bs[1..]| && DeliveredAt(bs[1..][k], m, stride, h);
        assert bs[k + 1] == bs[1..][k];
      }
      if k :| 0 <= k < |bs| && DeliveredAt(bs[k], m, stride, h) && k > 0 {
        assert bs[1..][k - 1] == bs[k];
      }
    }
  }

  /** The bytes of the block at that offset are accepted, and the offset is aligned. */
  predicate DeliveredAt(b: Block, m: Matcher, stride: nat, h: nat)
    requires stride >= 1
  {
    && OnGrid(h, NextAligned(b.off, stride), stride)
    && h - b.off + m.Width() <= |b.data| && m.Accepts(b.data[h - b.off..h - b.off + m.Width()])
  }

  lemma BlockHitDelivered(b: Block, m: Matcher, stride: nat, h: nat)
    requires stride >= 1
    ensures h in BlockHits(b, m, stride) <==> DeliveredAt(b, m, stride, h)
  {
    hide BlockHits, DeliveredAt;
    if h in BlockHits(b, m, stride) {
      HitWasDelivered(b, m, stride, h);
    }
    if DeliveredAt(b, m, stride, h) {
      DeliveredIsHit(b, m, stride, h);
    }
  }

  lemma HitWasDelivered(b: Block, m: Matcher, stride: nat, h: nat)
    requires stride >= 1 && h in BlockHits(b, m, stride)
    ensures DeliveredAt(b, m, stride, h)
  {
    hide Hits, Realign, Matcher.Accepts, Matcher.Width;
    var i := Realign(b.off, stride);
    var hits := Hits(b.data, m, stride, i);
    var k :| 0 <= k < |hits| && BlockHits(b, m, stride)[k] == h;
    assert hits[k] in hits;
    HitsExact(b.data, m, stride, i, h - b.off);
  }

  lemma DeliveredIsHit(b: Block, m: Matcher, stride: nat, h: nat)
    requires stride >= 1 && DeliveredAt(b, m, stride, h)
    ensures h in BlockHits(b, m, stride)
  {
    hide Hits, Realign, Matcher.Accepts, Matcher.Width;
    var i := Realign(b.off, stride);
    var hits := Hits(b.data, m, stride, i);
    HitsExact(b.data, m, stride, i, h - b.off);
    var k :| 0 <= k < |hits| && hits[k] == h - b.off;
    assert BlockHits(b, m, stride)[k] == h;
  }
}
