/** What a first scan over all regions returns, under any reads and under complete ones, and what any number
    of next scans then leaves of it. */
module FirstScans {
  import opened Wrappers
  import opened Bytes
  import opened ProcessMemory
  import opened Values
  import opened Chunks
  import opened Scans
  import opened ValueScans
  import opened TextScans

  // ----- Addresses, under any reads -----

  function AddressesOf(xs: seq<Match>): (r: seq<int>)
    ensures |r| == |xs| && forall k :: 0 <= k < |r| ==> r[k] == xs[k].address
  {
    seq(|xs|, k requires 0 <= k < |xs| => xs[k].address)
  }

  lemma AddressesOfConcat(a: seq<Match>, b: seq<Match>)
    ensures AddressesOf(a + b) == AddressesOf(a) + AddressesOf(b)
  {}

  lemma {:induction false} BlockMatchAddresses(base: int, b: Block, m: Matcher, stride: nat, i: nat)
    requires stride >= 1
    ensures AddressesOf(BlockMatches(base, b, m, stride, i))
            == Addresses(base, Shift(Hits(b.data, m, stride, i), b.off))
    decreases |b.data| - i
  {
    hide Matcher.Accepts, Matcher.Width, Hits, Addresses, Shift;
    if i + m.Width() <= |b.data| {
      BlockMatchAddresses(base, b, m, stride, i + stride);
      HitsStep(b.data, m, stride, i);
      ShiftCons(Hits(b.data, m, stride, i + stride), i, b.off);
      var rest := Shift(Hits(b.data, m, stride, i + stride), b.off);
      AddressesConcat(base, [i + b.off], rest);
      AddressesConcat(base, [], rest);
    } else {
      HitsEnd(b.data, m, stride, i);
    }
  }

  lemma {:induction false} AllMatchAddresses(base: int, bs: seq<Block>, m: Matcher, stride: nat)
    requires stride >= 1
    ensures AddressesOf(AllMatches(base, bs, m, stride)) == Addresses(base, AllHits(bs, m, stride))
  {
    hide Addresses, BlockMatches, Hits, Shift, Realign;
    if bs != [] {
      BlockMatchAddresses(base, bs[0], m, stride, Realign(bs[0].off, stride));
      AllMatchAddresses(base, bs[1..], m, stride);
      AddressesConcat(base, BlockHits(bs[0], m, stride), AllHits(bs[1..], m, stride));
      AddressesOfConcat(BlockMatches(base, bs[0], m, stride, Realign(bs[0].off, stride)),
                        AllMatches(base, bs[1..], m, stride));
    }
  }

  /** Under any reads the value and text scans report the addresses of the hits, as the pattern scan does. */
  lemma {:induction false} ScanMatchAddresses(reader: Reader, regions: seq<Mapping>, m: Matcher, stride: nat)
    requires stride >= 1 && m.Width() >= 1
    ensures AddressesOf(ScanMatches(reader, regions, m, stride)) == ScanHits(reader, regions, m, stride)
  {
    hide AllMatches, AllHits, Blocks, Addresses, Matcher.Width;
    if regions != [] {
      AllMatchAddresses(regions[0].base, Blocks(reader, regions[0].base, regions[0].size, m.Width() - 1, 0), m, stride);
      ScanMatchAddresses(reader, regions[1..], m, stride);
      AddressesOfConcat(RegionMatches(reader, regions[0], m, stride), ScanMatches(reader, regions[1..], m, stride));
    }
  }

  // ----- Matches with their values, under any reads -----

  /** A block matches at the address, and the match keeps the value it delivered there. */
  predicate MatchesBlock(base: int, b: Block, m: Matcher, stride: nat, x: Match)
    requires stride >= 1
  {
    var h := x.address - base;
    && h >= b.off && DeliveredAt(b, m, stride, h)
    && x.last == LastSeen(m, b.data[h - b.off..h - b.off + m.Width()])
  }

  lemma {:induction false} BlockMatchesExact(base: int, b: Block, m: Matcher, stride: nat, i: nat, x: Match)
    requires stride >= 1
    ensures var p := x.address - base - b.off;
            x in BlockMatches(base, b, m, stride, i) <==>
              OnGrid(p, i, stride) && p + m.Width() <= |b.data| && m.Accepts(b.data[p..p + m.Width()])
              && x.last == LastSeen(m, b.data[p..p + m.Width()])
    decreases |b.data| - i
  {
    hide Matcher.Accepts, Matcher.Width, OnGrid, LastSeen;
    var p := x.address - base - b.off;
    GridStep(p, i, stride);
    GridStarts(p, i, stride);
    if i + m.Width() <= |b.data| {
      BlockMatchesExact(base, b, m, stride, i + stride, x);
    }
  }

  lemma BlockMatchesAreDelivered(base: int, b: Block, m: Matcher, stride: nat, x: Match)
    requires stride >= 1
    ensures x in BlockMatches(base, b, m, stride, Realign(b.off, stride)) <==> MatchesBlock(base, b, m, stride, x)
  {
    hide Matcher.Accepts, Matcher.Width, LastSeen, BlockMatches, Realign;
    BlockMatchesExact(base, b, m, stride, Realign(b.off, stride), x);
  }

  lemma {:induction false} AllMatchesWereDelivered(base: int, bs: seq<Block>, m: Matcher, stride: nat, x: Match)
    requires stride >= 1
    ensures x in AllMatches(base, bs, m, stride)
            <==> exists k :: 0 <= k < |bs| && MatchesBlock(base, bs[k], m, stride, x)
  {
    hide BlockMatches, MatchesBlock, Realign;
    if bs != [] {
      AllMatchesWereDelivered(base, bs[1..], m, stride, x);
      BlockMatchesAreDelivered(base, bs[0], m, stride, x);
      if x in AllMatches(base, bs[1..], m, stride) {
        var k :| 0 <= k < |bs[1..]| && MatchesBlock(base, bs[1..][k], m, stride, x);
        assert bs[k + 1] == bs[1..][k];
      }
      if k :| 0 <= k < |bs| && MatchesBlock(base, bs[k], m, stride, x) && k > 0 {
        assert bs[1..][k - 1] == bs[k];
      }
    }
  }

  /** Block k of the region was delivered by a successful read, and matches. */
  ghost predicate MatchWasDelivered(reader: Reader, r: Mapping, m: Matcher, stride: nat, x: Match, k: int)
    requires stride >= 1 && m.Width() >= 1
  {
    var bs := Blocks(reader, r.base, r.size, m.Width() - 1, 0);
    0 <= k < |bs| && WasRead(reader, r.base, r.size, bs[k]) && MatchesBlock(r.base, bs[k], m, stride, x)
  }

  predicate WasRead(reader: Reader, base: int, size: nat, b: Block) {
    b.off < size && Read(reader, base + b.off, Want(size, b.off)) == ReadResult(true, b.data)
  }

  ghost predicate AllRead(reader: Reader, base: int, size: nat, bs: seq<Block>) {
    forall k :: 0 <= k < |bs| ==> WasRead(reader, base, size, bs[k])
  }

  lemma {:induction false} BlocksWereRead(reader: Reader, base: int, size: nat, overlap: nat, off: nat)
    ensures AllRead(reader, base, size, Blocks(reader, base, size, overlap, off))
    decreases size - off
  {
    hide Read, Advance, Blocks;
    if off < size {
      BlocksCases(reader, base, size, overlap, off);
      BlocksWereRead(reader, base, size, overlap,
                     off + Advance(Read(reader, base + off, Want(size, off)), Want(size, off), overlap));
    } else {
      BlocksEnd(reader, base, size, overlap, off);
    }
  }

  /** Under arbitrary short and failed reads the first scans report a match if and only if a read delivered
      bytes that match there; the value kept is the one delivered. */
  lemma {:induction false} ScanMatchesWereDelivered(reader: Reader, regions: seq<Mapping>, m: Matcher, stride: nat,
                                                    x: Match)
    requires stride >= 1 && m.Width() >= 1
    ensures x in ScanMatches(reader, regions, m, stride)
            <==> exists i, k :: 0 <= i < |regions| && MatchWasDelivered(reader, regions[i], m, stride, x, k)
  {
    hide Matcher.Width, RegionMatches, MatchWasDelivered;
    if regions != [] {
      RegionMatchesWereDelivered(reader, regions[0], m, stride, x);
      ScanMatchesWereDelivered(reader, regions[1..], m, stride, x);
      if x in RegionMatches(reader, regions[0], m, stride) {
        var k :| MatchWasDelivered(reader, regions[0], m, stride, x, k);
      } else if x in ScanMatches(reader, regions, m, stride) {
        var i, k :| 0 <= i < |regions[1..]| && MatchWasDelivered(reader, regions[1..][i], m, stride, x, k);
        assert regions[1..][i] == regions[i + 1];
      }
      if i, k :| 0 <= i < |regions| && MatchWasDelivered(reader, regions[i], m, stride, x, k) && i > 0 {
        assert regions[1..][i - 1] == regions[i];
      }
    }
  }

  lemma RegionMatchesWereDelivered(reader: Reader, r: Mapping, m: Matcher, stride: nat, x: Match)
    requires stride >= 1 && m.Width() >= 1
    ensures x in RegionMatches(reader, r, m, stride) <==> exists k :: MatchWasDelivered(reader, r, m, stride, x, k)
  {
    hide Matcher.Width, AllMatches, MatchesBlock, WasRead;
    var bs := Blocks(reader, r.base, r.size, m.Width() - 1, 0);
    AllMatchesWereDelivered(r.base, bs, m, stride, x);
    BlocksWereRead(reader, r.base, r.size, m.Width() - 1, 0);
    if x in RegionMatches(reader, r, m, stride) {
      var k :| 0 <= k < |bs| && MatchesBlock(r.base, bs[k], m, stride, x);
      assert MatchWasDelivered(reader, r, m, stride, x, k);
    }
  }

  // ----- Complete reads -----

  /** The naive first scan of all regions. */
  function NaiveMatchesAll(contents: seq<seq<byte>>, regions: seq<Mapping>, m: Matcher, stride: nat): seq<Match>
    requires stride >= 1 && |contents| == |regions|
  {
    if regions == [] then [] else
      NaiveMatches(regions[0].base, contents[0], m, stride) + NaiveMatchesAll(contents[1..], regions[1..], m, stride)
  }

  /** On complete reads the first scans, for values and for text, are the naive ones, region by region. */
  lemma {:induction false} ScanMatchesAreNaive(reader: Reader, regions: seq<Mapping>, contents: seq<seq<byte>>,
                                               m: Matcher, stride: nat)
    requires stride >= 1 && 1 <= m.Width() <= CHUNK && AllComplete(reader, regions, contents)
    ensures ScanMatches(reader, regions, m, stride) == NaiveMatchesAll(contents, regions, m, stride)
  {
    hide Matcher.Width, Complete, RegionMatches, NaiveMatches;
    if regions != [] {
      RegionMatchesAreNaive(reader, regions[0], contents[0], m, stride);
      assert AllComplete(reader, regions[1..], contents[1..]);
      ScanMatchesAreNaive(reader, regions[1..], contents[1..], m, stride);
    }
  }

  /** The window at an address of a region is accepted, and its offset is a multiple of the stride. */
  ghost predicate Occurs(r: Mapping, bytes: seq<byte>, m: Matcher, stride: nat, a: int)
    requires stride >= 1
  {
    && a >= r.base && (a - r.base) % stride == 0 && a - r.base + m.Width() <= |bytes|
    && m.Accepts(bytes[a - r.base..a - r.base + m.Width()])
  }

  /** Address by address: an address is reported if and only if its window in some region is accepted. */
  lemma {:induction false} NaiveMatchesAllExact(contents: seq<seq<byte>>, regions: seq<Mapping>, m: Matcher,
                                                stride: nat, a: int)
    requires stride >= 1 && |contents| == |regions|
    ensures a in AddressesOf(NaiveMatchesAll(contents, regions, m, stride))
            <==> exists i :: 0 <= i < |regions| && Occurs(regions[i], contents[i], m, stride, a)
  {
    hide NaiveMatches, Occurs;
    if regions != [] {
      var here, rest := NaiveMatches(regions[0].base, contents[0], m, stride),
              NaiveMatchesAll(contents[1..], regions[1..], m, stride);
      AddressesOfConcat(here, rest);
      NaiveAddressesExact(regions[0], contents[0], m, stride, a);
      NaiveMatchesAllExact(contents[1..], regions[1..], m, stride, a);
      if a in AddressesOf(rest) {
        var i :| 0 <= i < |regions[1..]| && Occurs(regions[1..][i], contents[1..][i], m, stride, a);
        assert regions[1..][i] == regions[i + 1] && contents[1..][i] == contents[i + 1];
      }
      if i :| 0 <= i < |regions| && Occurs(regions[i], contents[i], m, stride, a) && i > 0 {
        assert regions[1..][i - 1] == regions[i] && contents[1..][i - 1] == contents[i];
      }
    }
  }

  lemma NaiveAddressesExact(r: Mapping, bytes: seq<byte>, m: Matcher, stride: nat, a: int)
    requires stride >= 1
    ensures a in AddressesOf(NaiveMatches(r.base, bytes, m, stride)) <==> Occurs(r, bytes, m, stride, a)
  {
    hide NaiveMatches, Matcher.Accepts, Matcher.Width, LastSeen;
    var ms := NaiveMatches(r.base, bytes, m, stride);
    if a in AddressesOf(ms) {
      var k :| 0 <= k < |ms| && AddressesOf(ms)[k] == a;
      assert ms[k] in ms;
      NaiveMatchesExact(r.base, bytes, m, stride, ms[k]);
    }
    if Occurs(r, bytes, m, stride, a) {
      var x := Match(a, LastSeen(m, bytes[a - r.base..a - r.base + m.Width()]));
      NaiveMatchesExact(r.base, bytes, m, stride, x);
      var k :| 0 <= k < |ms| && ms[k] == x;
      assert AddressesOf(ms)[k] == a;
    }
  }

  // ----- Histories from the first scan on -----

  /** Successful reads deliver the bytes of the memory, though perhaps not all that were asked for. */
  ghost predicate Honest(reader: Reader, mem: Memory) {
    forall addr: int, want: nat :: DeliversOf(Read(reader, addr, want), mem, addr)
  }

  predicate DeliversOf(r: ReadResult, mem: Memory, addr: int) {
    r.ok ==> forall i :: 0 <= i < |r.bytes| ==> addr + i in mem && mem[addr + i] == r.bytes[i]
  }

  /** Whatever could be read, the matches of a first scan over all regions remember the memory. */
  lemma FirstScanRemembers(reader: Reader, regions: seq<Mapping>, mem: Memory, floats: Floats, vt: ValueType,
                           cmp: ScanCmp, stride: nat)
    requires stride >= 1 && vt.Size() > 0 && Honest(reader, mem)
    ensures Remembers(vt, mem, ScanMatches(reader, regions, Value(floats, vt, cmp), stride))
  {
    var m := Value(floats, vt, cmp);
    var xs := ScanMatches(reader, regions, m, stride);
    forall k | 0 <= k < |xs|
      ensures ReadInto(mem, xs[k].address, vt.Size()).Some?
      ensures vt.ReadF64(ReadInto(mem, xs[k].address, vt.Size()).value) == Some(xs[k].last)
    {
      hide ScanMatches, ReadInto, ValueType.ReadF64, ValueType.Size, MatchWasDelivered, Honest;
      assert xs[k] in xs;
      ScanMatchesWereDelivered(reader, regions, m, stride, xs[k]);
      var i, j :| 0 <= i < |regions| && MatchWasDelivered(reader, regions[i], m, stride, xs[k], j);
      DeliveredIsRemembered(reader, regions[i], mem, floats, vt, cmp, stride, xs[k], j);
    }
  }

  lemma DeliveredIsRemembered(reader: Reader, r: Mapping, mem: Memory, floats: Floats, vt: ValueType, cmp: ScanCmp,
                              stride: nat, x: Match, k: int)
    requires stride >= 1 && vt.Size() > 0 && Honest(reader, mem)
    requires MatchWasDelivered(reader, r, Value(floats, vt, cmp), stride, x, k)
    ensures ReadInto(mem, x.address, vt.Size()).Some?
    ensures vt.ReadF64(ReadInto(mem, x.address, vt.Size()).value) == Some(x.last)
  {
    hide Read, ReadInto, ValueType.ReadF64, ValueType.Size, Matcher.Accepts, OnGrid, HoldsBytes, Honest;
    var b := Blocks(reader, r.base, r.size, vt.Size() - 1, 0)[k];
    var h := x.address - r.base - b.off;
    assert WasRead(reader, r.base, r.size, b);
    ReadIsHeld(reader, r, mem, b);
    WindowIsRead(mem, r.base + b.off, b.data, h, vt.Size());
    ValueTypesRead(vt, b.data[h..h + vt.Size()]);
  }

  lemma ReadIsHeld(reader: Reader, r: Mapping, mem: Memory, b: Block)
    requires Honest(reader, mem) && WasRead(reader, r.base, r.size, b)
    ensures HoldsBytes(mem, r.base + b.off, b.data)
  {
    hide Read, Want;
    var start := r.base + b.off;
    var got := Read(reader, start, Want(r.size, b.off));
    assert got.bytes == b.data;
    assert DeliversOf(got, mem, start);
    forall i | start <= i < start + |b.data| ensures i in mem && mem[i] == b.data[i - start] {
      assert got.bytes[i - start] == b.data[i - start];
    }
  }

  /** From the first scan over all regions through any next scans, whatever could be read: what is left are, in
      order, exactly the first matches whose address was readable and whose comparison held every time. */
  lemma HistoryKeepsExactlyTheSurvivors(reader: Reader, regions: seq<Mapping>, first: Memory, floats: Floats,
                                        vt: ValueType, cmp: ScanCmp, stride: nat, scans: seq<Next>)
    requires stride >= 1 && vt.Size() > 0 && Honest(reader, first)
    ensures var xs := ScanMatches(reader, regions, Value(floats, vt, cmp), stride);
            RunNext(floats, vt, xs, scans) == Survivors(floats, vt, first, scans, xs)
  {
    FirstScanRemembers(reader, regions, first, floats, vt, cmp, stride);
    RunKeepsExactlyTheSurvivors(floats, vt, first, ScanMatches(reader, regions, Value(floats, vt, cmp), stride), scans);
  }

  lemma {:induction false} SurvivorAddresses(floats: Floats, vt: ValueType, first: Memory, scans: seq<Next>,
                                             xs: seq<Match>, a: int)
    ensures a in AddressesOf(Survivors(floats, vt, first, scans, xs))
            <==> a in AddressesOf(xs) && AlwaysHeld(floats, vt, first, scans, a)
  {
    hide AlwaysHeld, Survivor, AddressesOf;
    if xs != [] {
      var rest := Survivors(floats, vt, first, scans, xs[1..]);
      var x := Survivor(floats, vt, first, scans, xs[0]);
      assert x.address == xs[0].address by { SurvivorKeepsAddress(floats, vt, first, scans, xs[0]); }
      SurvivorAddresses(floats, vt, first, scans, xs[1..], a);
      assert xs == [xs[0]] + xs[1..];
      AddressOfCons(xs[0], xs[1..], a);
      AddressOfCons(x, rest, a);
      assert [] + rest == rest;
    }
  }

  lemma SurvivorKeepsAddress(floats: Floats, vt: ValueType, first: Memory, scans: seq<Next>, x: Match)
    ensures Survivor(floats, vt, first, scans, x).address == x.address
  {}

  lemma AddressOfCons(x: Match, xs: seq<Match>, a: int)
    ensures a in AddressesOf([x] + xs) <==> a == x.address || a in AddressesOf(xs)
  {
    AddressesOfConcat([x], xs);
    assert AddressesOf([x]) == [x.address];
    hide AddressesOf;
  }

  /** The whole history, address by address, when the first scan could read everything: an address is left if
      and only if it was accepted by the first scan and readable and accepted by every later one. */
  lemma HistoryIsExact(reader: Reader, regions: seq<Mapping>, contents: seq<seq<byte>>, first: Memory, floats: Floats,
                       vt: ValueType, cmp: ScanCmp, stride: nat, scans: seq<Next>, a: int)
    requires stride >= 1 && vt.Size() > 0 && Honest(reader, first) && AllComplete(reader, regions, contents)
    ensures var m := Value(floats, vt, cmp);
            a in AddressesOf(RunNext(floats, vt, ScanMatches(reader, regions, m, stride), scans))
            <==> && (exists i :: 0 <= i < |regions| && Occurs(regions[i], contents[i], m, stride, a))
                 && AlwaysHeld(floats, vt, first, scans, a)
  {
    hide ScanMatches, NaiveMatchesAll, RunNext, Survivors, AlwaysHeld, Occurs, Complete, Honest;
    var m := Value(floats, vt, cmp);
    HistoryKeepsExactlyTheSurvivors(reader, regions, first, floats, vt, cmp, stride, scans);
    ScanMatchesAreNaive(reader, regions, contents, m, stride);
    SurvivorAddresses(floats, vt, first, scans, ScanMatches(reader, regions, m, stride), a);
    NaiveMatchesAllExact(contents, regions, m, stride, a);
  }

  // ----- Exact integers -----

  /** The integer an address held at time k. */
  function IntAt(vt: ValueType, first: Memory, scans: seq<Next>, k: nat, a: int): Option<int>
    requires k <= |scans|
  {
    var bytes :- ReadInto(if k == 0 then first else scans[k - 1].mem, a, vt.Size());
    vt.ReadInt(bytes)
  }

  /** At next scan k the integers before and after could be read, and their exact comparison held. */
  predicate HeldExactly(vt: ValueType, first: Memory, scans: seq<Next>, k: nat, a: int)
    requires k < |scans|
  {
    var was, now := IntAt(vt, first, scans, k, a), IntAt(vt, first, scans, k + 1, a);
    was.Some? && now.Some? && HoldsInt(scans[k].cmp, now.value, was.value)
  }

  /** What the address held at time k, if it could be read, is kept by an f64. */
  predicate KeptAt(vt: ValueType, first: Memory, scans: seq<Next>, k: nat, a: int)
    requires k <= |scans|
  {
    IntAt(vt, first, scans, k, a).Some? ==> Representable(IntAt(vt, first, scans, k, a).value)
  }

  /** A next scan of a kept integer compares exactly. */
  lemma HeldIsExact(floats: Floats, vt: ValueType, first: Memory, scans: seq<Next>, k: nat, a: int)
    requires vt.Size() > 0 && !vt.IsFloat() && k < |scans| && KeptAt(vt, first, scans, k, a)
    ensures HeldAt(floats, vt, first, scans, k, a) <==> HeldExactly(vt, first, scans, k, a)
  {
    hide ReadInto, RoundF64, Representable, HoldsInt;
    var was := IntAt(vt, first, scans, k, a);
    if was.Some? {
      RoundExactIffRepresentable(was.value);
    }
  }

  /** While an address holds integers that an f64 keeps, the whole history of scans is exact on them. */
  lemma IntegerHistoryIsExact(reader: Reader, regions: seq<Mapping>, contents: seq<seq<byte>>, first: Memory,
                              floats: Floats, vt: ValueType, cmp: ScanCmp, stride: nat, scans: seq<Next>, a: int)
    requires stride >= 1 && vt.Size() > 0 && !vt.IsFloat()
    requires Honest(reader, first) && AllComplete(reader, regions, contents)
    requires forall k :: 0 <= k < |scans| ==> KeptAt(vt, first, scans, k, a)
    ensures var m := Value(floats, vt, cmp);
            a in AddressesOf(RunNext(floats, vt, ScanMatches(reader, regions, m, stride), scans))
            <==> (exists i :: 0 <= i < |regions| && Occurs(regions[i], contents[i], m, stride, a))
                 && forall k :: 0 <= k < |scans| ==> HeldExactly(vt, first, scans, k, a)
  {
    hide RunNext, ScanMatches, Occurs, Honest, Complete, HeldAt, HeldExactly, KeptAt;
    HistoryIsExact(reader, regions, contents, first, floats, vt, cmp, stride, scans, a);
    forall k | 0 <= k < |scans|
      ensures HeldAt(floats, vt, first, scans, k, a) <==> HeldExactly(vt, first, scans, k, a)
    {
      HeldIsExact(floats, vt, first, scans, k, a);
    }
  }

  /** For types of up to four bytes it always is. */
  lemma NarrowHistoryIsExact(reader: Reader, regions: seq<Mapping>, contents: seq<seq<byte>>, first: Memory,
                             floats: Floats, vt: ValueType, cmp: ScanCmp, stride: nat, scans: seq<Next>, a: int)
    requires stride >= 1 && 0 < vt.Size() <= 4 && !vt.IsFloat()
    requires Honest(reader, first) && AllComplete(reader, regions, contents)
    ensures var m := Value(floats, vt, cmp);
            a in AddressesOf(RunNext(floats, vt, ScanMatches(reader, regions, m, stride), scans))
            <==> (exists i :: 0 <= i < |regions| && Occurs(regions[i], contents[i], m, stride, a))
                 && forall k :: 0 <= k < |scans| ==> HeldExactly(vt, first, scans, k, a)
  {
    hide RunNext, ScanMatches, Occurs, Honest, Complete, HeldExactly;
    forall k | 0 <= k < |scans| ensures KeptAt(vt, first, scans, k, a) {
      NarrowIsKept(vt, first, scans, k, a);
    }
    IntegerHistoryIsExact(reader, regions, contents, first, floats, vt, cmp, stride, scans, a);
  }

  lemma NarrowIsKept(vt: ValueType, first: Memory, scans: seq<Next>, k: nat, a: int)
    requires 0 < vt.Size() <= 4 && !vt.IsFloat() && k <= |scans|
    ensures KeptAt(vt, first, scans, k, a)
  {
    hide ReadInto, Representable, ValueType.ReadInt;
    var bytes := ReadInto(if k == 0 then first else scans[k - 1].mem, a, vt.Size());
    if bytes.Some? {
      NarrowTypesAreExact(vt, bytes.value);
    }
  }

  // ----- Histories of text scans -----

  lemma {:induction false} AlwaysThereAddresses(mems: seq<Memory>, text: seq<byte>, xs: seq<Match>, a: int)
    ensures a in AddressesOf(AlwaysThereOf(mems, text, xs)) <==> a in AddressesOf(xs) && AlwaysThere(mems, text, a)
  {
    hide AlwaysThere, AddressesOf;
    if xs != [] {
      var rest := AlwaysThereOf(mems, text, xs[1..]);
      AlwaysThereAddresses(mems, text, xs[1..], a);
      assert xs == [xs[0]] + xs[1..];
      AddressOfCons(xs[0], xs[1..], a);
      AddressOfCons(xs[0], rest, a);
      assert [] + rest == rest;
    }
  }

  /** From the first text scan over all regions through any next scans, address by address: an address is left
      if and only if the text occurred there in the first scan and was there every later time. */
  lemma TextHistoryIsExact(reader: Reader, regions: seq<Mapping>, contents: seq<seq<byte>>, text: seq<byte>,
                           mems: seq<Memory>, a: int)
    requires 1 <= |text| <= CHUNK && AllComplete(reader, regions, contents)
    ensures RunText(text, ScanMatches(reader, regions, Text(text), 1), mems)
            == AlwaysThereOf(mems, text, NaiveMatchesAll(contents, regions, Text(text), 1))
    ensures a in AddressesOf(RunText(text, ScanMatches(reader, regions, Text(text), 1), mems))
            <==> && (exists i :: 0 <= i < |regions| && Occurs(regions[i], contents[i], Text(text), 1, a))
                 && AlwaysThere(mems, text, a)
  {
    hide ScanMatches, NaiveMatchesAll, RunText, AlwaysThere, AlwaysThereOf, Occurs, Complete;
    ScanMatchesAreNaive(reader, regions, contents, Text(text), 1);
    RunTextKeepsExactlyThose(text, ScanMatches(reader, regions, Text(text), 1), mems);
    AlwaysThereAddresses(mems, text, NaiveMatchesAll(contents, regions, Text(text), 1), a);
    NaiveMatchesAllExact(contents, regions, Text(text), 1, a);
  }
}
