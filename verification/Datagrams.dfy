/** IPv4 packets written field by field, as RFC 791, section 3.1 lays them out, and what the readers see of them. */
module Datagrams {
  import opened Bytes
  import opened Packets

  /** The fields of a packet; `length` is what the header claims. */
  datatype Datagram = Datagram(service: byte, length: u16, id: u16, fragment: u16, ttl: byte, proto: byte,
                               checksum: u16, src: Ip, dst: Ip, options: seq<byte>, payload: seq<byte>)

  /** Options fill whole 32-bit words, ten at most. */
  predicate IsLegal(d: Datagram) { |d.options| % 4 == 0 && |d.options| <= 40 }

  /** 16 bits, high byte first. */
  function BigEndian16(n: u16): (s: seq<byte>)
    ensures |s| == 2
  {
    [n / 0x100, n % 0x100]
  }

  /** The part of the header every packet has: version 4 and the number of header words come first. */
  function FixedHeader(d: Datagram): (s: seq<byte>)
    requires IsLegal(d)
    ensures |s| == 20
  {
    [0x40 + (5 + |d.options| / 4), d.service] + BigEndian16(d.length)
    + BigEndian16(d.id) + BigEndian16(d.fragment)
    + [d.ttl, d.proto] + BigEndian16(d.checksum)
    + d.src
    + d.dst
  }

  function Wire(d: Datagram): (s: seq<byte>)
    requires IsLegal(d)
    ensures |s| == 20 + |d.options| + |d.payload|
  {
    FixedHeader(d) + d.options + d.payload
  }

  /** The start of a TCP or UDP segment: source port, then destination port. */
  function Segment(srcPort: u16, dstPort: u16, rest: seq<byte>): (s: seq<byte>)
    ensures |s| == 4 + |rest|
  {
    BigEndian16(srcPort) + BigEndian16(dstPort) + rest
  }

  lemma FixedFields(d: Datagram)
    requires IsLegal(d)
    ensures var h := FixedHeader(d);
            && h[0] == 0x45 + |d.options| / 4 && h[1] == d.service
            && h[2] == d.length / 0x100 && h[3] == d.length % 0x100
            && h[4] == d.id / 0x100 && h[5] == d.id % 0x100
            && h[6] == d.fragment / 0x100 && h[7] == d.fragment % 0x100
            && h[8] == d.ttl && h[9] == d.proto
            && h[10] == d.checksum / 0x100 && h[11] == d.checksum % 0x100
            && h[12..16] == d.src && h[16..20] == d.dst
  {}

  /** Where the readers find the fields. */
  lemma FieldsOnWire(d: Datagram)
    requires IsLegal(d)
    ensures var p := Wire(d);
            && p[0] / 0x10 == 4 && HeaderLength(p) == 20 + |d.options|
            && p[9] == d.proto && p[12..16] == d.src && p[16..20] == d.dst
            && Field16(p, 2) == d.length
            && p[20..20 + |d.options|] == d.options && p[20 + |d.options|..] == d.payload
  {
    FixedFields(d);
    var p, h := Wire(d), FixedHeader(d);
    assert forall i :: 0 <= i < 20 ==> p[i] == h[i];
    assert p[12..16] == h[12..16] && p[16..20] == h[16..20];
    assert p[0] == 0x10 * 4 + (5 + |d.options| / 4);
    hide FixedHeader;
  }

  /** The ports of a segment, read where the header ends. */
  lemma PortsOnWire(d: Datagram, srcPort: u16, dstPort: u16, rest: seq<byte>)
    requires IsLegal(d) && d.payload == Segment(srcPort, dstPort, rest)
    ensures var p := Wire(d);
            var n := 20 + |d.options|;
            Field16(p, n) == srcPort && Field16(p, n + 2) == dstPort
  {
    var p, n := Wire(d), 20 + |d.options|;
    assert p[n..] == d.payload by {
      FieldsOnWire(d);
    }
    hide Wire;
    var s := d.payload;
    assert p[n] == p[n..][0] && p[n + 1] == p[n..][1] && p[n + 2] == p[n..][2] && p[n + 3] == p[n..][3];
    assert s[0] == srcPort / 0x100 && s[1] == srcPort % 0x100 && s[2] == dstPort / 0x100 && s[3] == dstPort % 0x100;
  }

  /** What starts with version 4 and a header of a legal length that is all there is such a packet. */
  lemma EveryPacketHasFields(p: seq<byte>)
    ensures (|p| >= 20 && p[0] / 0x10 == 4 && 5 <= p[0] % 0x10 && |p| >= p[0] % 0x10 * 4)
            <==> exists d: Datagram :: IsLegal(d) && Wire(d) == p
  {
    if |p| >= 20 && p[0] / 0x10 == 4 && 5 <= p[0] % 0x10 && |p| >= p[0] % 0x10 * 4 {
      var n: nat := p[0] % 0x10 * 4;
      var d := Datagram(p[1], Field16(p, 2), Field16(p, 4), Field16(p, 6), p[8], p[9], Field16(p, 10),
                        p[12..16], p[16..20], p[20..n], p[n..]);
      FixedFields(d);
      FromOctets(p, d);
      hide Field16, Wire;
    }
    if d: Datagram :| IsLegal(d) && Wire(d) == p {
      FieldsOnWire(d);
      hide Wire;
    }
  }

  lemma FromOctets(p: seq<byte>, d: Datagram)
    requires |p| >= 20 && p[0] / 0x10 == 4 && 5 <= p[0] % 0x10 && |p| >= p[0] % 0x10 * 4
    requires var n := p[0] % 0x10 * 4;
             d == Datagram(p[1], Field16(p, 2), Field16(p, 4), Field16(p, 6), p[8], p[9], Field16(p, 10),
                           p[12..16], p[16..20], p[20..n], p[n..])
    ensures IsLegal(d) && Wire(d) == p
  {
    HeaderFromOctets(p, d);
    hide FixedHeader, Field16;
    assert p == p[..20] + d.options + d.payload;
  }

  lemma HeaderFromOctets(p: seq<byte>, d: Datagram)
    requires |p| >= 20 && IsLegal(d) && p[0] == 0x45 + |d.options| / 4
    requires d.service == p[1] && d.length == Field16(p, 2) && d.id == Field16(p, 4) && d.fragment == Field16(p, 6)
    requires d.ttl == p[8] && d.proto == p[9] && d.checksum == Field16(p, 10)
    requires d.src == p[12..16] && d.dst == p[16..20]
    ensures FixedHeader(d) == p[..20]
  {
    FixedFields(d);
    Halves(p, 2);
    Halves(p, 4);
    Halves(p, 6);
    Halves(p, 10);
    hide FixedHeader, Field16;
    var h := FixedHeader(d);
    forall i | 12 <= i < 20 ensures h[i] == p[i] {
      assert i < 16 ==> h[i] == h[12..16][i - 12] && p[i] == p[12..16][i - 12];
      assert 16 <= i ==> h[i] == h[16..20][i - 16] && p[i] == p[16..20][i - 16];
    }
  }

  lemma Halves(p: seq<byte>, off: nat)
    requires off + 2 <= |p|
    ensures Field16(p, off) / 0x100 == p[off] && Field16(p, off) % 0x100 == p[off + 1]
  {}
}
