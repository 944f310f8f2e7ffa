/** What the redirection makes of a packet, in terms of the fields its sender wrote. */
module RedirectMeaning {
  import opened Wrappers
  import opened Bytes
  import opened Packets
  import opened Datagrams
  import opened Redirect

  /** A TCP packet: its header is there, 20 bytes at least of which the ports are the first four. */
  predicate IsTcpDatagram(d: Datagram, srcPort: u16, dstPort: u16, rest: seq<byte>) {
    IsLegal(d) && d.proto == 6 && d.payload == Segment(srcPort, dstPort, rest) && |rest| >= 16
  }

  lemma FlowOnWire(d: Datagram, srcPort: u16, dstPort: u16, rest: seq<byte>)
    requires IsTcpDatagram(d, srcPort, dstPort, rest)
    ensures IsTcp(Wire(d)) && HeaderLength(Wire(d)) == 20 + |d.options|
    ensures FlowOf(Wire(d)) == Flow(Endpoint(d.src, srcPort), Endpoint(d.dst, dstPort))
  {
    FieldsOnWire(d);
    PortsOnWire(d, srcPort, dstPort, rest);
    hide Wire, Field16, HeaderLength;
  }

  /** A packet of the target to another machine goes to the listener at the sender's own address, with every other
      byte as it was. Its destination is remembered for its port. */
  lemma TargetPacketGoesToListener(n: Nat, d: Datagram, srcPort: u16, dstPort: u16, rest: seq<byte>, flags: u32,
                                   targets: set<u16>, listen: u16)
    requires IsTcpDatagram(d, srcPort, dstPort, rest)
    requires srcPort != listen && srcPort in targets && d.dst[0] != 127
    ensures Rewrite(n, Event(Wire(d), flags, targets), listen)
            == Outcome(Nat(n.table[srcPort := Endpoint(d.dst, dstPort)], (n.redirected + 1) % 0x1_0000_0000_0000_0000),
                       Wire(d.(dst := d.src, payload := Segment(srcPort, listen, rest))), flags, true)
  {
    FlowOnWire(d, srcPort, dstPort, rest);
    DestinationOnWire(d, srcPort, dstPort, rest, d.src, listen);
    hide Wire, Put, FlowOf, IsTcp, HeaderLength;
  }

  /** A reply of the listener comes out as an inbound packet from the remembered endpoint, with every other byte as
      it was. */
  lemma ListenerPacketComesFromServer(n: Nat, d: Datagram, dstPort: u16, rest: seq<byte>, flags: u32,
                                      targets: set<u16>, listen: u16)
    requires IsTcpDatagram(d, listen, dstPort, rest) && dstPort in n.table
    ensures var server := n.table[dstPort];
            Rewrite(n, Event(Wire(d), flags, targets), listen)
            == Outcome(n, Wire(d.(src := server.ip, payload := Segment(server.port, dstPort, rest))),
                       Inbound(flags), true)
  {
    FlowOnWire(d, listen, dstPort, rest);
    SourceOnWire(d, listen, dstPort, rest, n.table[dstPort].ip, n.table[dstPort].port);
    hide Wire, Put, FlowOf, IsTcp, HeaderLength, Inbound;
  }

  /** Every other packet goes on as it is, and nothing is remembered. */
  lemma OthersPassUnchanged(n: Nat, d: Datagram, flags: u32, targets: set<u16>, listen: u16)
    requires IsLegal(d)
    ensures d.proto != 6 || |d.payload| < 20
            ==> Rewrite(n, Event(Wire(d), flags, targets), listen) == Outcome(n, Wire(d), flags, false)
    ensures forall srcPort: u16, dstPort: u16, rest: seq<byte> | IsTcpDatagram(d, srcPort, dstPort, rest) ::
              (if srcPort == listen then dstPort !in n.table else srcPort !in targets || d.dst[0] == 127)
              ==> Rewrite(n, Event(Wire(d), flags, targets), listen) == Outcome(n, Wire(d), flags, false)
  {
    FieldsOnWire(d);
    hide Wire, Put, Field16, HeaderLength;
    forall srcPort: u16, dstPort: u16, rest: seq<byte> | IsTcpDatagram(d, srcPort, dstPort, rest)
      ensures (if srcPort == listen then dstPort !in n.table else srcPort !in targets || d.dst[0] == 127)
              ==> Rewrite(n, Event(Wire(d), flags, targets), listen) == Outcome(n, Wire(d), flags, false)
    {
      FlowOnWire(d, srcPort, dstPort, rest);
    }
  }

  lemma DestinationOnWire(d: Datagram, srcPort: u16, dstPort: u16, rest: seq<byte>, ip: Ip, port: u16)
    requires IsLegal(d) && d.payload == Segment(srcPort, dstPort, rest)
    ensures Put(Put(Wire(d), 16, ip), 20 + |d.options| + 2, PortBytes(port))
            == Wire(d.(dst := ip, payload := Segment(srcPort, port, rest)))
  {
    var d' := d.(dst := ip, payload := Segment(srcPort, port, rest));
    assert FixedHeader(d') == FixedHeader(d)[..16] + ip;
    hide FixedHeader;
  }

  lemma SourceOnWire(d: Datagram, srcPort: u16, dstPort: u16, rest: seq<byte>, ip: Ip, port: u16)
    requires IsLegal(d) && d.payload == Segment(srcPort, dstPort, rest)
    ensures Put(Put(Wire(d), 12, ip), 20 + |d.options|, PortBytes(port))
            == Wire(d.(src := ip, payload := Segment(port, dstPort, rest)))
  {
    var d' := d.(src := ip, payload := Segment(port, dstPort, rest));
    assert FixedHeader(d') == FixedHeader(d)[..12] + ip + FixedHeader(d)[16..];
    hide FixedHeader;
  }
}
