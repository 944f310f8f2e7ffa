/** The traffic capture: conversations, their counters and a ring of recent packets each. */
module Capture {
  import opened Wrappers
  import opened Bytes
  import opened Sequences
  import opened Packets
  import opened Numbers

  const MAX_CONVS := 4000
  const MAX_PKTS_PER_CONV := 200
  const MAX_PKT_BYTES := 1600

  /** Identifies a conversation. */
  datatype Key = Key(proto: byte, localPort: u16, remoteIp: Ip, remotePort: u16)

  /** The process that owns a socket; pid 0 is "not known yet". */
  datatype Owner = Owner(pid: u32, process: string)

  datatype Conversation = Conversation(key: Key, owner: Owner, packets: u64, bytes: u64, lastMs: u64)

  /** A stored packet: its addressing, the length its header claims, and its first bytes. */
  datatype Record = Record(ms: u64, outbound: bool, proto: byte, src: Ip, dst: Ip, srcPort: u16, dstPort: u16,
                           totalLen: u16, data: seq<byte>)

  /** The operating system's socket tables and process names. */
  datatype ProcIndex = ProcIndex(tcp: map<(u16, Ip, u16), u32>, tcpByPort: map<u16, u32>, udpByPort: map<u16, u32>,
                                 names: map<u32, string>)

  /** One received packet, when it came, and the process tables at that moment. */
  datatype Arrival = Arrival(packet: seq<byte>, ms: u64, index: ProcIndex)

  datatype State = State(convs: seq<Conversation>, packets: map<Key, seq<Record>>, totalPackets: u64, totalBytes: u64)

  const EMPTY := State([], map[], 0, 0)

  // ----- Dissection -----

  /** A packet that counts: its conversation, what is stored of it, and the owner found for its socket. */
  datatype Seen = Seen(key: Key, record: Record, owner: Option<Owner>)

  function LookupPid(index: ProcIndex, key: Key): Option<Owner> {
    var pid :- if key.proto == TCP then
                 if (key.localPort, key.remoteIp, key.remotePort) in index.tcp
                 then Some(index.tcp[(key.localPort, key.remoteIp, key.remotePort)])
                 else if key.localPort in index.tcpByPort then Some(index.tcpByPort[key.localPort]) else None
               else if key.proto == UDP && key.localPort in index.udpByPort then Some(index.udpByPort[key.localPort])
               else None;
    Some(Owner(pid, if pid in index.names then index.names[pid] else "pid " + Numeral(pid, 10)))
  }

  predicate IsIpv4(p: seq<byte>) { |p| >= 20 && p[0] / 0x10 == 4 && 20 <= HeaderLength(p) <= |p| }

  /** The source and destination ports, both zero where the protocol or the length gives none. */
  function Ports(p: seq<byte>): (u16, u16)
    requires IsIpv4(p)
  {
    var ihl := HeaderLength(p);
    if p[9] in {TCP, UDP} && |p| >= ihl + 4 then (Field16(p, ihl), Field16(p, ihl + 2)) else (0, 0)
  }

  function Dissect(iface: Ip, a: Arrival): Option<Seen> {
    var p := a.packet;
    if !IsIpv4(p) then None else
    var (src, dst, (srcPort, dstPort)) := (p[12..16], p[16..20], Ports(p));
    var key := if src != iface && dst == iface then Key(p[9], dstPort, src, srcPort)
               else Key(p[9], srcPort, dst, dstPort);
    var data := p[..if |p| <= MAX_PKT_BYTES then |p| else MAX_PKT_BYTES];
    Some(Seen(key, Record(a.ms, src == iface, p[9], src, dst, srcPort, dstPort, Field16(p, 2), data),
              LookupPid(a.index, key)))
  }

  /** The two directions of a connection of this machine fall into one conversation, except when the machine
      talks to itself between different ports. */
  lemma DirectionsShareConversation(iface: Ip, out: Arrival, back: Arrival)
    requires IsIpv4(out.packet) && IsIpv4(back.packet)
    requires out.packet[9] == back.packet[9]
    requires out.packet[12..16] == iface == back.packet[16..20] && out.packet[16..20] == back.packet[12..16]
    requires Ports(out.packet).0 == Ports(back.packet).1 && Ports(out.packet).1 == Ports(back.packet).0
    ensures Dissect(iface, out).value.key == Dissect(iface, back).value.key
            <==> (out.packet[16..20] != iface || Ports(out.packet).0 == Ports(out.packet).1)
  {
    hide Ports, IsIpv4;
  }

  // ----- One packet as a function -----

  /** Index of the first conversation with a key, or their number. */
  function Find(convs: seq<Conversation>, key: Key): (i: nat)
    ensures i <= |convs| && (i < |convs| ==> convs[i].key == key)
    ensures forall j :: 0 <= j < i ==> convs[j].key != key
  {
    if convs == [] || convs[0].key == key then 0 else 1 + Find(convs[1..], key)
  }

  function Bump(c: Conversation, s: Seen): Conversation {
    Conversation(c.key, if c.owner.pid == 0 then s.owner.GetOr(c.owner) else c.owner,
                 AsU64(c.packets + 1), AsU64(c.bytes + s.record.totalLen), s.record.ms)
  }

  function Opened(s: Seen): Conversation {
    Conversation(s.key, s.owner.GetOr(Owner(0, "")), 1, s.record.totalLen, s.record.ms)
  }

  function Push(ring: seq<Record>, r: Record): seq<Record> {
    (if |ring| >= MAX_PKTS_PER_CONV then ring[1..] else ring) + [r]
  }

  function Stored(packets: map<Key, seq<Record>>, s: Seen): map<Key, seq<Record>> {
    packets[s.key := Push(if s.key in packets then packets[s.key] else [], s.record)]
  }

  function Count(st: State, s: Seen): State {
    var totalPackets, totalBytes := AsU64(st.totalPackets + 1), AsU64(st.totalBytes + s.record.totalLen);
    var i := Find(st.convs, s.key);
    if i < |st.convs| then
      State(st.convs[i := Bump(st.convs[i], s)], Stored(st.packets, s), totalPackets, totalBytes)
    else if |st.convs| < MAX_CONVS then
      State(st.convs + [Opened(s)], Stored(st.packets, s), totalPackets, totalBytes)
    else
      State(st.convs, st.packets, totalPackets, totalBytes)
  }

  function Step(iface: Ip, st: State, a: Arrival): State {
    match Dissect(iface, a)
    case None => st
    case Some(s) => Count(st, s)
  }

  lemma NotCounted(iface: Ip, st: State, a: Arrival)
    requires !IsIpv4(a.packet)
    ensures Step(iface, st, a) == st
  {}

  lemma Counted(iface: Ip, st: State, a: Arrival, srcPort: u16, dstPort: u16, s: Seen)
    requires var p := a.packet;
             && IsIpv4(p) && Ports(p) == (srcPort, dstPort)
             && s.key == (if p[12..16] != iface && p[16..20] == iface then Key(p[9], dstPort, p[12..16], srcPort)
                          else Key(p[9], srcPort, p[16..20], dstPort))
             && s.record == Record(a.ms, p[12..16] == iface, p[9], p[12..16], p[16..20], srcPort, dstPort,
                                   Field16(p, 2),
                                   p[..if |p| <= MAX_PKT_BYTES then |p| else MAX_PKT_BYTES])
             && s.owner == LookupPid(a.index, s.key)
    ensures Step(iface, st, a) == Count(st, s)
  {
    hide Count, Ports, LookupPid, Field16;
  }

  // ----- One packet in place -----

  class Shared {
    var convs: seq<Conversation>
    var packets: map<Key, seq<Record>>
    var totalPackets: u64
    var totalBytes: u64

    constructor ()
      ensures Value() == EMPTY
    {
      convs, packets, totalPackets, totalBytes := [], map[], 0, 0;
    }

    function Value(): State
      reads this
    {
      State(convs, packets, totalPackets, totalBytes)
    }

    method Ingest(iface: Ip, pkt: seq<byte>, ms: u64, index: ProcIndex)
      modifies this
      ensures Value() == Step(iface, old(Value()), Arrival(pkt, ms, index))
    {
      hide LookupPid, Bump, Opened, Stored, Find, Field16, Dissect, Step, AsU64;
      ghost var a := Arrival(pkt, ms, index);
      if !IsIpv4(pkt) {
        NotCounted(iface, Value(), a);
      }
      if |pkt| < 20 || pkt[0] / 0x10 != 4 {
        return;
      }
      var ihl := HeaderLength(pkt);
      if ihl < 20 || |pkt| < ihl {
        return;
      }
      var proto := pkt[9];
      var src: Ip, dst: Ip := pkt[12..16], pkt[16..20];
      var totalLen := Field16(pkt, 2);
      var srcPort: u16, dstPort: u16 := 0, 0;
      if (proto == TCP || proto == UDP) && |pkt| >= ihl + 4 {
        srcPort := Field16(pkt, ihl);
        dstPort := Field16(pkt, ihl + 2);
      }
      assert Ports(pkt) == (srcPort, dstPort);
      var outbound := src == iface;
      var key := if !outbound && dst == iface then Key(proto, dstPort, src, srcPort)
                 else Key(proto, srcPort, dst, dstPort);
      ghost var before := Value();
      totalPackets := AsU64(totalPackets + 1);
      totalBytes := AsU64(totalBytes + totalLen);
      var take := if |pkt| <= MAX_PKT_BYTES then |pkt| else MAX_PKT_BYTES;
      var rec := Record(ms, outbound, proto, src, dst, srcPort, dstPort, totalLen, pkt[..take]);
      ghost var seen := Seen(key, rec, LookupPid(index, key));
      Counted(iface, before, a, srcPort, dstPort, seen);
      var store := UpdateConversation(key, totalLen, ms, index, seen);
      if store {
        AppendRecord(key, rec, seen);
      }
    }

    /** Updates or opens the conversation; tells whether the packet is to be stored. */
    method UpdateConversation(key: Key, totalLen: u16, ms: u64, index: ProcIndex, ghost seen: Seen)
      returns (store: bool)
      requires seen.key == key && seen.record.totalLen == totalLen && seen.record.ms == ms
               && seen.owner == LookupPid(index, key)
      modifies this`convs
      ensures var i := Find(old(convs), key);
              && store == (i < |old(convs)| || |old(convs)| < MAX_CONVS)
              && convs == (if i < |old(convs)| then old(convs)[i := Bump(old(convs)[i], seen)]
                           else if store then old(convs) + [Opened(seen)] else old(convs))
    {
      hide LookupPid;
      var i := 0;
      while i < |convs| && convs[i].key != key
        invariant i <= |convs| && Find(convs, key) == i + Find(convs[i..], key)
      {
        assert convs[i..][0] == convs[i] && convs[i..][1..] == convs[i + 1..];
        i := i + 1;
      }
      store := true;
      if i < |convs| {
        assert convs[i..][0] == convs[i];
        var c := convs[i];
        c := c.(packets := AsU64(c.packets + 1), bytes := AsU64(c.bytes + totalLen), lastMs := ms);
        if c.owner.pid == 0 {
          var found := LookupPid(index, key);
          if found.Some? {
            c := c.(owner := found.value);
          }
        }
        convs := convs[i := c];
      } else if |convs| < MAX_CONVS {
        var found := LookupPid(index, key);
        convs := convs + [Conversation(key, found.GetOr(Owner(0, "")), 1, totalLen, ms)];
      } else {
        store := false;
      }
    }

    method AppendRecord(key: Key, rec: Record, ghost seen: Seen)
      requires seen.key == key && seen.record == rec
      modifies this`packets
      ensures packets == Stored(old(packets), seen)
    {
      var buf := if key in packets then packets[key] else [];
      if |buf| >= MAX_PKTS_PER_CONV {
        buf := buf[1..];
      }
      packets := packets[key := buf + [rec]];
    }
  }

  // ----- The history -----

  function Run(iface: Ip, arrivals: seq<Arrival>, st: State): State {
    if arrivals == [] then st else Run(iface, arrivals[1..], Step(iface, st, arrivals[0]))
  }

  /** The packets of a history that count. */
  function History(iface: Ip, arrivals: seq<Arrival>): seq<Seen> {
    if arrivals == [] then [] else
    (match Dissect(iface, arrivals[0]) case None => [] case Some(s) => [s]) + History(iface, arrivals[1..])
  }

  /** The distinct conversations of a history, in order of their first packet. */
  function DistinctKeys(h: seq<Seen>): seq<Key>
    decreases |h|
  {
    if h == [] then [] else
    var before, key := DistinctKeys(h[..|h| - 1]), h[|h| - 1].key;
    if key in before then before else before + [key]
  }

  /** The records of one conversation, oldest first. */
  function RecordsOf(h: seq<Seen>, key: Key): seq<Record> {
    if h == [] then [] else (if h[0].key == key then [h[0].record] else []) + RecordsOf(h[1..], key)
  }

  function LastOf<T>(s: seq<T>, n: nat): seq<T> { if |s| <= n then s else s[|s| - n..] }

  function KeysOf(convs: seq<Conversation>): (keys: seq<Key>)
    ensures |keys| == |convs| && forall i :: 0 <= i < |convs| ==> keys[i] == convs[i].key
  {
    seq(|convs|, i requires 0 <= i < |convs| => convs[i].key)
  }

  /** The two counters the capture keeps everywhere. */
  datatype Measure = PacketCount | ByteCount {
    function OfRecord(r: Record): nat { if PacketCount? then 1 else r.totalLen }
    function OfConversation(c: Conversation): nat { if PacketCount? then c.packets else c.bytes }
    function OfState(st: State): nat { if PacketCount? then st.totalPackets else st.totalBytes }
  }

  function Volume(m: Measure, records: seq<Record>): nat {
    if records == [] then 0 else m.OfRecord(records[0]) + Volume(m, records[1..])
  }

  function AllRecords(h: seq<Seen>): seq<Record> { seq(|h|, i requires 0 <= i < |h| => h[i].record) }

  /** The packets whose conversation is not in the table. */
  function RefusedOf(h: seq<Seen>, kept: seq<Key>): seq<Record> {
    if h == [] then [] else (if h[0].key in kept then [] else [h[0].record]) + RefusedOf(h[1..], kept)
  }

  function SumOver(m: Measure, convs: seq<Conversation>): nat {
    if convs == [] then 0 else m.OfConversation(convs[0]) + SumOver(m, convs[1..])
  }

  // ----- What every state agrees on with its history -----

  predicate KeysAgree(st: State, h: seq<Seen>) { KeysOf(st.convs) == Take(DistinctKeys(h), MAX_CONVS) }

  ghost predicate RingsAgree(st: State, h: seq<Seen>) {
    && (forall k :: k in st.packets <==> k in KeysOf(st.convs))
    && (forall k :: k in st.packets ==> st.packets[k] == LastOf(RecordsOf(h, k), MAX_PKTS_PER_CONV))
  }

  predicate CountersAgree(st: State, h: seq<Seen>, m: Measure) {
    && (forall i :: 0 <= i < |st.convs| ==>
      m.OfConversation(st.convs[i]) == Volume(m, RecordsOf(h, st.convs[i].key)) % TWO64)
    && m.OfState(st) == Volume(m, AllRecords(h)) % TWO64
    && m.OfState(st) == (SumOver(m, st.convs) + Volume(m, RefusedOf(h, KeysOf(st.convs)))) % TWO64
  }

  /** After any packets: the conversations are the first 4000 distinct ones of the history, each once and in
      order; the rings belong to exactly these and hold their last 200 records. */
  lemma {:induction false} TablesMatchHistory(iface: Ip, arrivals: seq<Arrival>)
    ensures var st, h := Run(iface, arrivals, EMPTY), History(iface, arrivals);
            && KeysAgree(st, h) && RingsAgree(st, h) && NoRepeats(KeysOf(st.convs)) && |st.convs| <= 4000
            && KeysOf(st.convs) == Take(DistinctKeys(h), 4000)
            && (forall k :: k in st.packets ==> st.packets[k] == LastOf(RecordsOf(h, k), 200))
    decreases |arrivals|
  {
    hide Step, Dissect, Count;
    if arrivals == [] {
      assert KeysOf([]) == [];
    } else {
      var k := |arrivals| - 1;
      TablesMatchHistory(iface, arrivals[..k]);
      LastArrival(iface, arrivals);
      var st, h := Run(iface, arrivals[..k], EMPTY), History(iface, arrivals[..k]);
      match Dissect(iface, arrivals[k])
      case None =>
      case Some(s) =>
        KeysStep(st, h, s);
        RingsStep(st, h, s);
    }
    DistinctNoRepeats(History(iface, arrivals));
  }

  /** After any packets: a conversation's counters are the volume of its whole history, the totals are the
      volume of all packets, and the totals are the conversations' counters plus the packets the full table
      refused, all as 64-bit counters. */
  lemma {:induction false} CountersMatchHistory(iface: Ip, arrivals: seq<Arrival>, m: Measure)
    ensures CountersAgree(Run(iface, arrivals, EMPTY), History(iface, arrivals), m)
    decreases |arrivals|
  {
    hide Step, Dissect, Count, KeysAgree, RingsAgree, NoRepeats;
    if arrivals != [] {
      var k := |arrivals| - 1;
      CountersMatchHistory(iface, arrivals[..k], m);
      TablesMatchHistory(iface, arrivals[..k]);
      LastArrival(iface, arrivals);
      var st, h := Run(iface, arrivals[..k], EMPTY), History(iface, arrivals[..k]);
      match Dissect(iface, arrivals[k])
      case None =>
      case Some(s) => CountersStep(st, h, s, m);
    }
  }

  lemma LastArrival(iface: Ip, arrivals: seq<Arrival>)
    requires arrivals != []
    ensures var k := |arrivals| - 1;
            var st, h := Run(iface, arrivals[..k], EMPTY), History(iface, arrivals[..k]);
            && Run(iface, arrivals, EMPTY) == Step(iface, st, arrivals[k])
            && History(iface, arrivals) == (match Dissect(iface, arrivals[k]) case None => h case Some(s) => h + [s])
            && (Dissect(iface, arrivals[k]).Some?
                ==> Step(iface, st, arrivals[k]) == Count(st, Dissect(iface, arrivals[k]).value))
            && (Dissect(iface, arrivals[k]).None? ==> Step(iface, st, arrivals[k]) == st)
  {
    var k := |arrivals| - 1;
    assert arrivals == arrivals[..k] + [arrivals[k]];
    RunSnoc(iface, arrivals[..k], arrivals[k], EMPTY);
    hide Dissect, Count;
  }

  lemma {:induction false} RunSnoc(iface: Ip, arrivals: seq<Arrival>, a: Arrival, st: State)
    ensures Run(iface, arrivals + [a], st) == Step(iface, Run(iface, arrivals, st), a)
    ensures History(iface, arrivals + [a]) == History(iface, arrivals)
            + (match Dissect(iface, a) case None => [] case Some(s) => [s])
    decreases |arrivals|
  {
    hide Step, Dissect;
    if arrivals == [] {
      assert [] + [a] == [a] && [a][1..] == [];
      assert Run(iface, [a], st) == Run(iface, [a][1..], Step(iface, st, a));
      assert History(iface, [a]) == (match Dissect(iface, a) case None => [] case Some(s) => [s])
             + History(iface, [a][1..]);
    } else {
      assert (arrivals + [a])[0] == arrivals[0] && (arrivals + [a])[1..] == arrivals[1..] + [a];
      RunSnoc(iface, arrivals[1..], a, Step(iface, st, arrivals[0]));
    }
  }

  // ----- Keys -----

  lemma {:induction false} DistinctNoRepeats(h: seq<Seen>)
    ensures NoRepeats(DistinctKeys(h))
    decreases |h|
  {
    if h != [] {
      DistinctNoRepeats(h[..|h| - 1]);
    }
  }

  lemma {:induction false} DistinctCovers(h: seq<Seen>, i: nat)
    requires i < |h|
    ensures h[i].key in DistinctKeys(h)
    decreases |h|
  {
    if i < |h| - 1 {
      DistinctCovers(h[..|h| - 1], i);
    }
  }

  lemma DistinctSnoc(h: seq<Seen>, s: Seen)
    ensures DistinctKeys(h + [s]) == if s.key in DistinctKeys(h) then DistinctKeys(h) else DistinctKeys(h) + [s.key]
  {
    assert (h + [s])[..|h + [s]| - 1] == h;
  }

  lemma FindFinds(convs: seq<Conversation>, key: Key)
    ensures Find(convs, key) < |convs| <==> key in KeysOf(convs)
  {
    var keys := KeysOf(convs);
    if key in keys {
      var i :| 0 <= i < |keys| && keys[i] == key;
      assert convs[i].key == key;
    }
  }

  lemma KeysStep(st: State, h: seq<Seen>, s: Seen)
    requires KeysAgree(st, h)
    ensures KeysAgree(Count(st, s), h + [s])
  {
    hide Stored, DistinctKeys, Find;
    DistinctSnoc(h, s);
    FindFinds(st.convs, s.key);
    var i := Find(st.convs, s.key);
    if i < |st.convs| {
      assert KeysOf(Count(st, s).convs) == KeysOf(st.convs);
    } else if |st.convs| < MAX_CONVS {
      assert KeysOf(Count(st, s).convs) == KeysOf(st.convs) + [s.key];
    }
  }

  // ----- Rings -----

  lemma {:induction false} RecordsSnoc(h: seq<Seen>, s: Seen, key: Key)
    ensures RecordsOf(h + [s], key) == RecordsOf(h, key) + if s.key == key then [s.record] else []
    decreases |h|
  {
    if h == [] {
      assert [] + [s] == [s] && [s][1..] == [];
    } else {
      assert (h + [s])[0] == h[0] && (h + [s])[1..] == h[1..] + [s];
      RecordsSnoc(h[1..], s, key);
    }
  }

  lemma {:induction false} NoRecordsOfNew(h: seq<Seen>, key: Key)
    requires forall i :: 0 <= i < |h| ==> h[i].key != key
    ensures RecordsOf(h, key) == []
  {
    if h != [] {
      NoRecordsOfNew(h[1..], key);
    }
  }

  lemma PushKeepsLast(all: seq<Record>, r: Record)
    ensures Push(LastOf(all, MAX_PKTS_PER_CONV), r) == LastOf(all + [r], MAX_PKTS_PER_CONV)
  {}

  /** A key outside the table is new to the whole history while the table is not full. */
  lemma NewKeyIsNew(st: State, h: seq<Seen>, key: Key)
    requires KeysAgree(st, h) && key !in KeysOf(st.convs) && |st.convs| < MAX_CONVS
    ensures forall i :: 0 <= i < |h| ==> h[i].key != key
    ensures forall i :: 0 <= i < |h| ==> h[i].key in KeysOf(st.convs)
  {
    forall i | 0 <= i < |h| ensures h[i].key in KeysOf(st.convs) {
      DistinctCovers(h, i);
    }
  }

  lemma RingsStep(st: State, h: seq<Seen>, s: Seen)
    requires KeysAgree(st, h) && RingsAgree(st, h)
    ensures RingsAgree(Count(st, s), h + [s])
  {
    hide DistinctKeys, Find, Push, LastOf, RecordsOf;
    var st' := Count(st, s);
    KeysStep(st, h, s);
    FindFinds(st.convs, s.key);
    if Find(st.convs, s.key) < |st.convs| {
      assert KeysOf(st'.convs) == KeysOf(st.convs);
    } else if |st.convs| < MAX_CONVS {
      assert KeysOf(st'.convs) == KeysOf(st.convs) + [s.key];
      NewKeyIsNew(st, h, s.key);
      NoRecordsOfNew(h, s.key);
    }
    forall k | k in st'.packets ensures st'.packets[k] == LastOf(RecordsOf(h + [s], k), MAX_PKTS_PER_CONV) {
      RecordsSnoc(h, s, k);
      PushKeepsLast(RecordsOf(h, k), s.record);
      assert RecordsOf(h, k) + [] == RecordsOf(h, k);
      assert RecordsOf(h, k) == [] ==> LastOf(RecordsOf(h, k), MAX_PKTS_PER_CONV) == [] by { LastOfNone<Record>(); }
    }
  }

  lemma LastOfNone<T>()
    ensures LastOf<T>([], MAX_PKTS_PER_CONV) == []
  {}

  // ----- Counters -----

  lemma {:induction false} VolumeSnoc(m: Measure, records: seq<Record>, r: Record)
    ensures Volume(m, records + [r]) == Volume(m, records) + m.OfRecord(r)
  {
    if records == [] {
      assert [] + [r] == [r];
      assert Volume(m, [r][1..]) == 0;
    } else {
      assert (records + [r])[0] == records[0] && (records + [r])[1..] == records[1..] + [r];
      VolumeSnoc(m, records[1..], r);
    }
  }

  lemma {:induction false} SumUpdate(m: Measure, convs: seq<Conversation>, i: nat, c: Conversation)
    requires i < |convs|
    ensures SumOver(m, convs[i := c]) == SumOver(m, convs) - m.OfConversation(convs[i]) + m.OfConversation(c)
  {
    if i == 0 {
      assert convs[0 := c][1..] == convs[1..];
    } else {
      assert convs[i := c][0] == convs[0] && convs[i := c][1..] == convs[1..][i - 1 := c];
      SumUpdate(m, convs[1..], i - 1, c);
    }
  }

  lemma {:induction false} SumSnoc(m: Measure, convs: seq<Conversation>, c: Conversation)
    ensures SumOver(m, convs + [c]) == SumOver(m, convs) + m.OfConversation(c)
  {
    if convs == [] {
      assert [] + [c] == [c];
      assert SumOver(m, [c][1..]) == 0;
    } else {
      assert (convs + [c])[0] == convs[0] && (convs + [c])[1..] == convs[1..] + [c];
      SumSnoc(m, convs[1..], c);
    }
  }

  lemma {:induction false} RefusedSnoc(h: seq<Seen>, s: Seen, kept: seq<Key>)
    ensures RefusedOf(h + [s], kept) == RefusedOf(h, kept) + if s.key in kept then [] else [s.record]
    decreases |h|
  {
    if h == [] {
      assert [] + [s] == [s] && [s][1..] == [];
    } else {
      assert (h + [s])[0] == h[0] && (h + [s])[1..] == h[1..] + [s];
      RefusedSnoc(h[1..], s, kept);
    }
  }

  lemma {:induction false} NothingRefused(h: seq<Seen>, kept: seq<Key>)
    requires forall i :: 0 <= i < |h| ==> h[i].key in kept
    ensures RefusedOf(h, kept) == []
  {
    if h != [] {
      NothingRefused(h[1..], kept);
    }
  }

  /** Adding to two counters that agree modulo 2^64 keeps them so. */
  lemma CountersMove(total: int, x: int, c: int, w: nat)
    requires total == x % TWO64
    ensures AsU64(total + w) == (x + w) % TWO64
    ensures AsU64(total + w) == (x - c + AsU64(c + w)) % TWO64
  {
    var a := AsU64(c + w);
    var q := (c + w) / TWO64;
    assert a == c + w - TWO64 * q;
    assert x == TWO64 * (x / TWO64) + total;
    ModShift(total + w, x / TWO64);
    ModShift(total + w, x / TWO64 - q);
  }

  lemma ModShift(x: int, q: int)
    ensures (x + TWO64 * q) % TWO64 == x % TWO64
  {}

  lemma CountersStep(st: State, h: seq<Seen>, s: Seen, m: Measure)
    requires KeysAgree(st, h) && NoRepeats(KeysOf(st.convs)) && CountersAgree(st, h, m)
    ensures CountersAgree(Count(st, s), h + [s], m)
  {
    ConversationsStep(st, h, s, m);
    TotalsStep(st, h, s, m);
  }

  lemma ConversationsStep(st: State, h: seq<Seen>, s: Seen, m: Measure)
    requires KeysAgree(st, h) && NoRepeats(KeysOf(st.convs)) && CountersAgree(st, h, m)
    ensures var convs := Count(st, s).convs;
            forall i :: 0 <= i < |convs| ==>
              m.OfConversation(convs[i]) == Volume(m, RecordsOf(h + [s], convs[i].key)) % TWO64
  {
    hide Stored, DistinctKeys, Find, RecordsOf, RefusedOf, AllRecords, SumOver;
    var convs := Count(st, s).convs;
    FindFinds(st.convs, s.key);
    forall i | 0 <= i < |convs|
      ensures m.OfConversation(convs[i]) == Volume(m, RecordsOf(h + [s], convs[i].key)) % TWO64
    {
      var key := convs[i].key;
      RecordsSnoc(h, s, key);
      var records := RecordsOf(h, key);
      VolumeSnoc(m, records, s.record);
      assert records + [] == records;
      if i == |st.convs| {
        NewKeyIsNew(st, h, s.key);
        NoRecordsOfNew(h, s.key);
        assert Volume(m, records) == 0;
      } else {
        assert m.OfConversation(st.convs[i]) == Volume(m, records) % TWO64;
        CountersMove(m.OfConversation(st.convs[i]), Volume(m, records), 0, m.OfRecord(s.record));
        assert s.key == key <==> i == Find(st.convs, s.key) by {
          assert KeysOf(st.convs)[i] == key;
        }
      }
    }
  }

  lemma MeasuresMove(m: Measure, st: State, s: Seen, c: Conversation)
    ensures m.OfState(Count(st, s)) == AsU64(m.OfState(st) + m.OfRecord(s.record))
    ensures m.OfConversation(Bump(c, s)) == AsU64(m.OfConversation(c) + m.OfRecord(s.record))
    ensures m.OfConversation(Opened(s)) == m.OfRecord(s.record)
  {
    hide Stored, Find;
  }

  lemma TotalsStep(st: State, h: seq<Seen>, s: Seen, m: Measure)
    requires KeysAgree(st, h) && CountersAgree(st, h, m)
    ensures var st' := Count(st, s);
            && m.OfState(st') == Volume(m, AllRecords(h + [s])) % TWO64
            && m.OfState(st') == (SumOver(m, st'.convs) + Volume(m, RefusedOf(h + [s], KeysOf(st'.convs)))) % TWO64
  {
    hide RefusedOf, SumOver, KeysAgree, Count, AsU64, KeysOf, Measure.OfRecord, Measure.OfConversation, Measure.OfState;
    var st' := Count(st, s);
    var w := m.OfRecord(s.record);
    var total := m.OfState(st);
    MeasuresMove(m, st, s, Opened(s));
    assert AllRecords(h + [s]) == AllRecords(h) + [s.record];
    VolumeSnoc(m, AllRecords(h), s.record);
    CountersMove(total, Volume(m, AllRecords(h)), 0, w);
    TableGrows(st, h, s, m);
    hide *;
  }

  /** One packet moves either a conversation's counter or the volume of the refused packets. */
  lemma TableGrows(st: State, h: seq<Seen>, s: Seen, m: Measure)
    requires KeysAgree(st, h) && CountersAgree(st, h, m)
    ensures var st' := Count(st, s);
            AsU64(m.OfState(st) + m.OfRecord(s.record))
            == (SumOver(m, st'.convs) + Volume(m, RefusedOf(h + [s], KeysOf(st'.convs)))) % TWO64
  {
    hide Stored, DistinctKeys, Find, RecordsOf, RefusedOf, SumOver, Volume, AllRecords, Bump, Opened, AsU64;
    hide Measure.OfRecord, Measure.OfConversation, Measure.OfState;
    var w := m.OfRecord(s.record);
    var total, kept := m.OfState(st), KeysOf(st.convs);
    var sum, refused := SumOver(m, st.convs), RefusedOf(h, kept);
    var i := Find(st.convs, s.key);
    FindFinds(st.convs, s.key);
    var st' := Count(st, s);
    if i < |st.convs| {
      var c := st.convs[i];
      KeysAfter(st, s);
      assert kept + [] == kept;
      RefusedSnoc(h, s, kept);
      assert refused + [] == refused;
      SumUpdate(m, st.convs, i, Bump(c, s));
      MeasuresMove(m, st, s, c);
      CountersMove(total, sum + Volume(m, refused), m.OfConversation(c), w);
    } else if |st.convs| < MAX_CONVS {
      KeysAfter(st, s);
      NewKeyIsNew(st, h, s.key);
      NothingRefused(h, kept);
      RefusedSnoc(h, s, kept + [s.key]);
      NothingRefused(h, kept + [s.key]);
      SumSnoc(m, st.convs, Opened(s));
      MeasuresMove(m, st, s, Opened(s));
      CountersMove(total, sum + Volume(m, refused), 0, w);
    } else {
      RefusedSnoc(h, s, kept);
      VolumeSnoc(m, refused, s.record);
      CountersMove(total, sum + Volume(m, refused), 0, w);
    }
  }

  lemma KeysAfter(st: State, s: Seen)
    ensures KeysOf(Count(st, s).convs)
            == KeysOf(st.convs) + if Find(st.convs, s.key) == |st.convs| < MAX_CONVS then [s.key] else []
  {
    hide Stored;
  }

  // ----- Owners -----

  /** The owners found for the packets of one conversation. */
  function OwnersFound(h: seq<Seen>, key: Key): seq<Owner> {
    if h == [] then [] else
    (if h[0].key == key && h[0].owner.Some? then [h[0].owner.value] else []) + OwnersFound(h[1..], key)
  }

  function FirstKnown(owners: seq<Owner>): (o: Option<Owner>)
    ensures o.None? ==> forall i :: 0 <= i < |owners| ==> owners[i].pid == 0
    ensures o.Some? ==> exists i :: (0 <= i < |owners| && owners[i] == o.value && o.value.pid != 0
                                    && forall j :: 0 <= j < i ==> owners[j].pid == 0)
  {
    if owners == [] then None
    else if owners[0].pid != 0 then
      assert owners[0].pid != 0;
      Some(owners[0])
    else
      var o := FirstKnown(owners[1..]);
      assert o.Some? ==> exists i :: (0 <= i < |owners| && owners[i] == o.value && o.value.pid != 0
                                      && forall j :: 0 <= j < i ==> owners[j].pid == 0) by {
        FirstKnownShifts(owners, o);
      }
      o
  }

  lemma FirstKnownShifts(owners: seq<Owner>, o: Option<Owner>)
    requires owners != [] && owners[0].pid == 0
    requires o.Some? ==> exists i :: (0 <= i < |owners[1..]| && owners[1..][i] == o.value && o.value.pid != 0
                                     && forall j :: 0 <= j < i ==> owners[1..][j].pid == 0)
    ensures o.Some? ==> exists i :: (0 <= i < |owners| && owners[i] == o.value && o.value.pid != 0
                                    && forall j :: 0 <= j < i ==> owners[j].pid == 0)
  {
    if o.Some? {
      var i :| (0 <= i < |owners[1..]| && owners[1..][i] == o.value && o.value.pid != 0
                && forall j :: 0 <= j < i ==> owners[1..][j].pid == 0);
      assert owners[i + 1] == o.value;
      forall j | 0 <= j < i + 1 ensures owners[j].pid == 0 {
        assert j > 0 ==> owners[1..][j - 1] == owners[j];
      }
    }
  }

  /** The first owner with a pid; failing that the last one found; failing that nobody. */
  function SettledOwner(owners: seq<Owner>): Owner {
    FirstKnown(owners).GetOr(if owners == [] then Owner(0, "") else owners[|owners| - 1])
  }

  lemma {:induction false} OwnersSnoc(h: seq<Seen>, s: Seen, key: Key)
    ensures OwnersFound(h + [s], key)
            == OwnersFound(h, key) + if s.key == key && s.owner.Some? then [s.owner.value] else []
    decreases |h|
  {
    if h == [] {
      assert [] + [s] == [s] && [s][1..] == [];
    } else {
      assert (h + [s])[0] == h[0] && (h + [s])[1..] == h[1..] + [s];
      OwnersSnoc(h[1..], s, key);
    }
  }

  lemma {:induction false} NoOwnersOfNew(h: seq<Seen>, key: Key)
    requires forall i :: 0 <= i < |h| ==> h[i].key != key
    ensures OwnersFound(h, key) == []
  {
    if h != [] {
      NoOwnersOfNew(h[1..], key);
    }
  }

  lemma {:induction false} FirstKnownSnoc(owners: seq<Owner>, o: Owner)
    ensures FirstKnown(owners + [o])
            == if FirstKnown(owners).Some? then FirstKnown(owners) else if o.pid != 0 then Some(o) else None
  {
    if owners == [] {
      assert [] + [o] == [o];
      assert FirstKnown([o][1..]) == None;
    } else {
      assert (owners + [o])[0] == owners[0] && (owners + [o])[1..] == owners[1..] + [o];
      FirstKnownSnoc(owners[1..], o);
    }
  }

  /** A settled owner stays, an unsettled one is replaced by whatever is found. */
  lemma SettledSnoc(owners: seq<Owner>, o: Owner)
    ensures SettledOwner(owners + [o]) == if SettledOwner(owners).pid != 0 then SettledOwner(owners) else o
  {
    FirstKnownSnoc(owners, o);
  }

  predicate OwnersAgree(st: State, h: seq<Seen>) {
    forall i :: 0 <= i < |st.convs| ==> st.convs[i].owner == SettledOwner(OwnersFound(h, st.convs[i].key))
  }

  /** After any packets every conversation is attributed to the first process found for it. */
  lemma {:induction false} OwnersMatchHistory(iface: Ip, arrivals: seq<Arrival>)
    ensures OwnersAgree(Run(iface, arrivals, EMPTY), History(iface, arrivals))
    decreases |arrivals|
  {
    hide Step, Dissect, Count, KeysAgree, RingsAgree, NoRepeats;
    if arrivals != [] {
      var k := |arrivals| - 1;
      OwnersMatchHistory(iface, arrivals[..k]);
      TablesMatchHistory(iface, arrivals[..k]);
      LastArrival(iface, arrivals);
      var st, h := Run(iface, arrivals[..k], EMPTY), History(iface, arrivals[..k]);
      match Dissect(iface, arrivals[k])
      case None =>
      case Some(s) => OwnersStep(st, h, s);
    }
  }

  lemma OwnersStep(st: State, h: seq<Seen>, s: Seen)
    requires KeysAgree(st, h) && NoRepeats(KeysOf(st.convs)) && OwnersAgree(st, h)
    ensures OwnersAgree(Count(st, s), h + [s])
  {
    hide Stored, DistinctKeys, Find, OwnersFound, SettledOwner;
    var convs := Count(st, s).convs;
    FindFinds(st.convs, s.key);
    forall i | 0 <= i < |convs|
      ensures convs[i].owner == SettledOwner(OwnersFound(h + [s], convs[i].key))
    {
      var key := convs[i].key;
      OwnersSnoc(h, s, key);
      var owners := OwnersFound(h, key);
      assert owners + [] == owners;
      SettledSnoc(owners, s.owner.GetOr(Owner(0, "")));
      if i == |st.convs| {
        NewKeyIsNew(st, h, s.key);
        NoOwnersOfNew(h, s.key);
        NobodySettled();
      } else {
        assert s.key == key <==> i == Find(st.convs, s.key) by {
          assert KeysOf(st.convs)[i] == key;
        }
      }
    }
  }

  lemma NobodySettled()
    ensures SettledOwner([]) == Owner(0, "")
  {}
}
