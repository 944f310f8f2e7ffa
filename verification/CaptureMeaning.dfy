/** What the capture makes of a packet, in terms of the fields its sender wrote. */
module CaptureMeaning {
  import opened Wrappers
  import opened Bytes
  import opened Sequences
  import opened Packets
  import opened Numbers
  import opened Datagrams
  import opened Capture

  /** The conversation of a packet: the port of this machine, then the other machine's address and port. What goes
      neither out nor in through the interface counts as outbound. */
  function KeyFor(iface: Ip, d: Datagram, srcPort: u16, dstPort: u16): Key {
    if d.src == iface || d.dst != iface then Key(d.proto, srcPort, d.dst, dstPort)
    else Key(d.proto, dstPort, d.src, srcPort)
  }

  predicate IsSeenAs(s: Option<Seen>, iface: Ip, d: Datagram, srcPort: u16, dstPort: u16, ms: u64, index: ProcIndex)
    requires IsLegal(d)
  {
    s == Some(Seen(KeyFor(iface, d, srcPort, dstPort),
                   Record(ms, d.src == iface, d.proto, d.src, d.dst, srcPort, dstPort, d.length, Take(Wire(d), 1600)),
                   LookupPid(index, KeyFor(iface, d, srcPort, dstPort))))
  }

  /** A TCP or UDP packet is seen with the ports its sender wrote. Outbound packets belong to the conversation of
      the sender's port, inbound ones to that of the receiver's. */
  lemma SegmentIsSeen(iface: Ip, d: Datagram, srcPort: u16, dstPort: u16, rest: seq<byte>, ms: u64, index: ProcIndex)
    requires IsLegal(d) && d.proto in {6, 17} && d.payload == Segment(srcPort, dstPort, rest)
    ensures IsSeenAs(Dissect(iface, Arrival(Wire(d), ms, index)), iface, d, srcPort, dstPort, ms, index)
  {
    FieldsOnWire(d);
    PortsOnWire(d, srcPort, dstPort, rest);
    hide Wire, Field16, LookupPid, HeaderLength;
    assert Wire(d)[..|Wire(d)|] == Wire(d);
  }

  /** Packets of other protocols, and those too short for ports, are seen with ports 0. */
  lemma OthersAreSeen(iface: Ip, d: Datagram, ms: u64, index: ProcIndex)
    requires IsLegal(d) && (d.proto !in {6, 17} || |d.payload| < 4)
    ensures IsSeenAs(Dissect(iface, Arrival(Wire(d), ms, index)), iface, d, 0, 0, ms, index)
  {
    FieldsOnWire(d);
    hide Wire, Field16, LookupPid, HeaderLength;
    assert Wire(d)[..|Wire(d)|] == Wire(d);
  }

  /** Only IPv4 packets with a whole header are seen. */
  lemma OnlyDatagramsAreSeen(iface: Ip, a: Arrival)
    ensures Dissect(iface, a).Some? <==> exists d: Datagram :: IsLegal(d) && Wire(d) == a.packet
  {
    EveryPacketHasFields(a.packet);
    hide Wire, Ports, LookupPid;
  }

  /** A request of this machine and its answer fall into one conversation, that of the local port. */
  lemma AnswerJoinsRequest(iface: Ip, request: Datagram, answer: Datagram, local: u16, remote: u16)
    requires request.proto == answer.proto && request.src == iface == answer.dst && request.dst == answer.src != iface
    ensures KeyFor(iface, request, local, remote) == Key(request.proto, local, request.dst, remote)
            == KeyFor(iface, answer, remote, local)
  {}

  // ----- Owners -----

  /** The process of a key: for TCP the one of the whole tuple, else the one of the local port; for UDP the one of
      the local port; for other protocols nobody. */
  predicate Owns(index: ProcIndex, key: Key, pid: u32) {
    var whole := (key.localPort, key.remoteIp, key.remotePort);
    || (key.proto == 6 && whole in index.tcp && index.tcp[whole] == pid)
    || (key.proto == 6 && whole !in index.tcp && key.localPort in index.tcpByPort
        && index.tcpByPort[key.localPort] == pid)
    || (key.proto == 17 && key.localPort in index.udpByPort && index.udpByPort[key.localPort] == pid)
  }

  lemma OwnerIsFound(index: ProcIndex, key: Key, pid: u32)
    ensures Owns(index, key, pid) <==> LookupPid(index, key).Some? && LookupPid(index, key).value.pid == pid
    ensures Owns(index, key, pid) && pid in index.names ==> LookupPid(index, key).value.process == index.names[pid]
    ensures Owns(index, key, pid) && pid !in index.names ==>
              LookupPid(index, key).value.process == "pid " + Numeral(pid, 10)
  {}

  // ----- The time of the last packet -----

  predicate TimesAgree(st: State, h: seq<Seen>) {
    forall i :: 0 <= i < |st.convs| ==>
      var records := RecordsOf(h, st.convs[i].key);
      records != [] && st.convs[i].lastMs == records[|records| - 1].ms
  }

  /** After any packets every conversation shows the time of its last packet. */
  lemma {:induction false} TimesMatchHistory(iface: Ip, arrivals: seq<Arrival>)
    ensures TimesAgree(Run(iface, arrivals, EMPTY), History(iface, arrivals))
    decreases |arrivals|
  {
    hide Step, Dissect, Count, KeysAgree, RingsAgree, NoRepeats;
    if arrivals != [] {
      var k := |arrivals| - 1;
      TimesMatchHistory(iface, arrivals[..k]);
      TablesMatchHistory(iface, arrivals[..k]);
      LastArrival(iface, arrivals);
      var st, h := Run(iface, arrivals[..k], EMPTY), History(iface, arrivals[..k]);
      match Dissect(iface, arrivals[k])
      case None =>
      case Some(s) => TimesStep(st, h, s);
    }
  }

  lemma TimesStep(st: State, h: seq<Seen>, s: Seen)
    requires NoRepeats(KeysOf(st.convs)) && TimesAgree(st, h)
    ensures TimesAgree(Count(st, s), h + [s])
  {
    hide Stored, Find, RecordsOf;
    var convs := Count(st, s).convs;
    FindFinds(st.convs, s.key);
    forall i | 0 <= i < |convs|
      ensures var records := RecordsOf(h + [s], convs[i].key);
              records != [] && convs[i].lastMs == records[|records| - 1].ms
    {
      RecordsSnoc(h, s, convs[i].key);
      if i < |st.convs| {
        assert KeysOf(st.convs)[i] == convs[i].key;
        assert s.key == convs[i].key <==> i == Find(st.convs, s.key);
      }
    }
  }
}
