/** Transparent redirection: packets of the target are rewritten to a local listener, and its replies back. */
module Redirect {
  import opened Wrappers
  import opened Bytes
  import opened Packets

  datatype Endpoint = Endpoint(ip: Ip, port: u16)

  /** The addressing of a packet. */
  datatype Flow = Flow(src: Endpoint, dst: Endpoint)

  /** A packet as the driver delivers it: at least the 20 bytes of the shortest header. */
  type Packet = s: seq<byte> | |s| >= 20 witness seq(20, i => 0)

  const OUTBOUND: u32 := 0x2_0000

  // ----- Reading and writing fields -----

  predicate IsTcp(p: Packet) { p[9] == TCP && |p| >= HeaderLength(p) + 20 }

  function PortBytes(port: u16): (s: seq<byte>)
    ensures |s| == 2
  {
    [port / 0x100, port % 0x100]
  }

  function FlowOf(p: Packet): Flow
    requires IsTcp(p)
  {
    var ihl := HeaderLength(p);
    Flow(Endpoint(p[12..16], Field16(p, ihl)), Endpoint(p[16..20], Field16(p, ihl + 2)))
  }

  /** Bytes overwritten at an offset. */
  function Put(p: Packet, off: nat, bytes: seq<byte>): (q: Packet)
    requires off + |bytes| <= |p|
    ensures |q| == |p| && forall i :: 0 <= i < |p| ==> q[i] == if off <= i < off + |bytes| then bytes[i - off] else p[i]
  {
    p[..off] + bytes + p[off + |bytes|..]
  }

  predicate IsLoopback(ip: Ip) { ip[0] == 127 }

  /** Clears the outbound bit: the packet is injected as inbound. */
  function Inbound(flags: u32): u32 { if flags / OUTBOUND % 2 == 1 then flags - OUTBOUND else flags }

  // ----- Rewriting as a function -----

  datatype Nat = Nat(table: map<u16, Endpoint>, redirected: u64)

  /** One intercepted packet, with its flags and the ports the target owned at that moment. */
  datatype Event = Event(packet: Packet, flags: u32, targets: set<u16>)

  datatype Outcome = Outcome(state: Nat, packet: Packet, flags: u32, mutated: bool)

  predicate IsReply(e: Event, listen: u16) { IsTcp(e.packet) && FlowOf(e.packet).src.port == listen }

  /** The packets that are redirected: from a port of the target, not to loopback, not from the listener. */
  predicate IsRedirected(e: Event, listen: u16) {
    && IsTcp(e.packet) && FlowOf(e.packet).src.port != listen
    && FlowOf(e.packet).src.port in e.targets && !IsLoopback(FlowOf(e.packet).dst.ip)
  }

  function Rewrite(n: Nat, e: Event, listen: u16): Outcome {
    if !IsTcp(e.packet) then Outcome(n, e.packet, e.flags, false) else
    var ihl, flow := HeaderLength(e.packet), FlowOf(e.packet);
    if flow.src.port == listen then
      if flow.dst.port !in n.table then Outcome(n, e.packet, e.flags, false)
      else
        var orig := n.table[flow.dst.port];
        Outcome(n, Put(Put(e.packet, 12, orig.ip), ihl, PortBytes(orig.port)), Inbound(e.flags), true)
    else if flow.src.port !in e.targets || IsLoopback(flow.dst.ip) then Outcome(n, e.packet, e.flags, false)
    else
      Outcome(Nat(n.table[flow.src.port := flow.dst], AsU64(n.redirected + 1)),
              Put(Put(e.packet, 16, flow.src.ip), ihl + 2, PortBytes(listen)), e.flags, true)
  }

  // ----- Rewriting in place -----

  method WriteIp(pkt: array<byte>, off: nat, ip: Ip)
    requires pkt.Length >= 20 && off + 4 <= pkt.Length
    modifies pkt
    ensures pkt[..] == Put(old(pkt[..]), off, ip)
  {
    forall i | 0 <= i < 4 {
      pkt[off + i] := ip[i];
    }
  }

  method WritePort(pkt: array<byte>, off: nat, port: u16)
    requires pkt.Length >= 20 && off + 2 <= pkt.Length
    modifies pkt
    ensures pkt[..] == Put(old(pkt[..]), off, PortBytes(port))
  {
    pkt[off], pkt[off + 1] := port / 0x100, port % 0x100;
  }

  /** The NAT table and counter shared by the rewriting loop and the listener, and the packets seen so far. */
  class Redirector {
    const listenPort: u16
    var table: map<u16, Endpoint>
    var redirected: u64
    ghost var history: seq<Event>

    constructor (listenPort: u16)
      ensures this.listenPort == listenPort && history == [] && Valid()
    {
      this.listenPort := listenPort;
      table, redirected, history := map[], 0, [];
    }

    /** Table and counter are those of a run over the history. */
    ghost predicate Valid()
      reads this
    {
      Value() == RunAll(history, EMPTY, listenPort)
    }

    function Value(): Nat
      reads this
    {
      Nat(table, redirected)
    }

    /** Rewrites a packet in place; tells whether it changed anything. */
    method RewritePacket(pkt: array<byte>, flagsIn: u32, targets: set<u16>) returns (flags: u32, mutated: bool)
      requires Valid() && pkt.Length >= 20
      modifies this, pkt
      ensures Valid() && history == old(history) + [Event(old(pkt[..]), flagsIn, targets)]
      ensures Outcome(Value(), pkt[..], flags, mutated)
              == Rewrite(old(Value()), Event(old(pkt[..]), flagsIn, targets), listenPort)
    {
      hide Put, RunAll;
      ghost var event := Event(pkt[..], flagsIn, targets);
      RunAllSnoc(history, event, EMPTY, listenPort);
      history := history + [event];
      flags, mutated := flagsIn, false;
      var ihl := pkt[0] % 0x10 * 4;
      if pkt[9] != TCP || pkt.Length < ihl + 20 {
        return;
      }
      var srcIp: Ip, dstIp: Ip := pkt[12..16], pkt[16..20];
      var srcPort: u16 := (pkt[ihl] as int) * 0x100 + pkt[ihl + 1];
      var dstPort: u16 := (pkt[ihl + 2] as int) * 0x100 + pkt[ihl + 3];
      assert srcIp == pkt[..][12..16] && dstIp == pkt[..][16..20];
      assert FlowOf(pkt[..]) == Flow(Endpoint(srcIp, srcPort), Endpoint(dstIp, dstPort));
      if srcPort == listenPort {
        if dstPort !in table {
          return;
        }
        var orig := table[dstPort];
        WriteIp(pkt, 12, orig.ip);
        WritePort(pkt, ihl, orig.port);
        flags := Inbound(flags);
        mutated := true;
        return;
      }
      if srcPort !in targets || IsLoopback(dstIp) {
        return;
      }
      table := table[srcPort := Endpoint(dstIp, dstPort)];
      redirected := AsU64(redirected + 1);
      WriteIp(pkt, 16, srcIp);
      WritePort(pkt, ihl + 2, listenPort);
      mutated := true;
    }

    /** Where the listener connects a redirected client to: the destination of the latest redirected packet
        from its port. */
    method Lookup(peerPort: u16) returns (dst: Option<Endpoint>)
      requires Valid()
      ensures dst == LatestDestination(history, peerPort, listenPort)
    {
      TableIsLatest(history, listenPort, peerPort);
      dst := if peerPort in table then Some(table[peerPort]) else None;
    }
  }

  // ----- One packet -----

  lemma PortRoundTrip(p: Packet, off: nat, port: u16)
    requires off + 2 <= |p|
    ensures Field16(Put(p, off, PortBytes(port)), off) == port
  {}

  predicate Unchanged(p: Packet, q: Packet, i: nat)
    requires |p| == |q| && i < |p|
  {
    p[i] == q[i]
  }

  /** A redirected packet goes from the client to the listener at the client's own address, and only the
      destination address and port bytes change. */
  lemma RedirectedFlow(n: Nat, e: Event, listen: u16)
    requires IsRedirected(e, listen) && HeaderLength(e.packet) >= 20
    ensures var o := Rewrite(n, e, listen);
            var flow := FlowOf(e.packet);
            var ihl := HeaderLength(e.packet);
            && o.mutated && o.flags == e.flags && |o.packet| == |e.packet|
            && IsTcp(o.packet) && FlowOf(o.packet) == Flow(flow.src, Endpoint(flow.src.ip, listen))
            && (forall i :: 0 <= i < |e.packet| && !(16 <= i < 20) && !(ihl + 2 <= i < ihl + 4) ==>
              Unchanged(e.packet, o.packet, i))
            && o.state.table == n.table[flow.src.port := flow.dst]
  {
    var flow := FlowOf(e.packet);
    var ihl := HeaderLength(e.packet);
    DestinationOverwritten(e.packet, flow.src.ip, listen);
    assert ihl + 4 <= |e.packet|;
    hide Put, FlowOf;
  }

  lemma DestinationOverwritten(p: Packet, ip: Ip, port: u16)
    requires IsTcp(p) && HeaderLength(p) >= 20
    ensures var ihl := HeaderLength(p);
            var q := Put(Put(p, 16, ip), ihl + 2, PortBytes(port));
            && |q| == |p| && IsTcp(q) && FlowOf(q) == Flow(FlowOf(p).src, Endpoint(ip, port))
            && (forall i :: 0 <= i < |p| && !(16 <= i < 20) && !(ihl + 2 <= i < ihl + 4) ==> Unchanged(p, q, i))
  {
    var ihl := HeaderLength(p);
    var mid := Put(p, 16, ip);
    PortRoundTrip(mid, ihl + 2, port);
    var q := Put(mid, ihl + 2, PortBytes(port));
    assert q[12..16] == p[12..16];
    assert q[16..20] == ip;
    hide Put;
  }

  /** A reply of the listener to a known client port comes out as inbound, from the remembered endpoint;
      only the source address and port bytes change. */
  lemma ReplyFlow(n: Nat, e: Event, listen: u16)
    requires IsReply(e, listen) && HeaderLength(e.packet) >= 20 && FlowOf(e.packet).dst.port in n.table
    ensures var o := Rewrite(n, e, listen);
            var flow := FlowOf(e.packet);
            var ihl := HeaderLength(e.packet);
            && o.mutated && o.flags == Inbound(e.flags) && o.state == n && |o.packet| == |e.packet|
            && IsTcp(o.packet) && FlowOf(o.packet) == Flow(n.table[flow.dst.port], flow.dst)
            && (forall i :: 0 <= i < |e.packet| && !(12 <= i < 16) && !(ihl <= i < ihl + 2) ==>
              Unchanged(e.packet, o.packet, i))
  {
    var flow := FlowOf(e.packet);
    var ihl := HeaderLength(e.packet);
    var orig := n.table[flow.dst.port];
    var mid := Put(e.packet, 12, orig.ip);
    var q := Put(mid, ihl, PortBytes(orig.port));
    PortRoundTrip(mid, ihl, orig.port);
    assert q[12..16] == orig.ip;
    assert q[16..20] == e.packet[16..20];
  }

  /** The inbound flag is cleared and nothing else. */
  lemma InboundClearsOneBit(flags: u32)
    ensures Inbound(flags) / 0x2_0000 % 2 == 0
    ensures Inbound(flags) % 0x2_0000 == flags % 0x2_0000 && Inbound(flags) / 0x4_0000 == flags / 0x4_0000
  {}

  // ----- Runs -----

  function RunAll(events: seq<Event>, n: Nat, listen: u16): Nat {
    if events == [] then n else RunAll(events[1..], Rewrite(n, events[0], listen).state, listen)
  }

  const EMPTY := Nat(map[], 0)

  /** Destination of the last redirected packet from a client port, from the history alone. */
  function LatestDestination(events: seq<Event>, port: u16, listen: u16): Option<Endpoint>
    decreases |events|
  {
    if events == [] then None else
    var last := events[|events| - 1];
    if IsRedirected(last, listen) && FlowOf(last.packet).src.port == port then Some(FlowOf(last.packet).dst)
    else LatestDestination(events[..|events| - 1], port, listen)
  }

  lemma {:induction false} RunAllSnoc(events: seq<Event>, e: Event, n: Nat, listen: u16)
    ensures RunAll(events + [e], n, listen) == Rewrite(RunAll(events, n, listen), e, listen).state
    decreases |events|
  {
    hide Rewrite;
    if events == [] {
      assert [] + [e] == [e] && [e][1..] == [];
      assert RunAll([e], n, listen) == RunAll([e][1..], Rewrite(n, e, listen).state, listen);
    } else {
      assert (events + [e])[0] == events[0] && (events + [e])[1..] == events[1..] + [e];
      RunAllSnoc(events[1..], e, Rewrite(n, events[0], listen).state, listen);
    }
  }

  /** In every reachable state the table holds, for every port, the destination of the latest redirected
      packet from it, and the counter counts the redirected packets. */
  lemma {:induction false} TableIsLatest(events: seq<Event>, listen: u16, port: u16)
    ensures var n := RunAll(events, EMPTY, listen);
            LatestDestination(events, port, listen) == if port in n.table then Some(n.table[port]) else None
    decreases |events|
  {
    if events != [] {
      var k := |events| - 1;
      var before, last := events[..k], events[k];
      assert events == before + [last];
      TableIsLatest(before, listen, port);
      RunAllSnoc(before, last, EMPTY, listen);
      TableChange(RunAll(before, EMPTY, listen), last, listen, port);
    }
  }

  lemma TableChange(n: Nat, e: Event, listen: u16, port: u16)
    ensures var n' := Rewrite(n, e, listen).state;
            if IsRedirected(e, listen) && FlowOf(e.packet).src.port == port
            then port in n'.table && n'.table[port] == FlowOf(e.packet).dst
            else (port in n'.table <==> port in n.table) && (port in n.table ==> n'.table[port] == n.table[port])
  {
    hide Put;
  }

  function Redirections(events: seq<Event>, listen: u16): nat {
    if events == [] then 0 else (if IsRedirected(events[0], listen) then 1 else 0) + Redirections(events[1..], listen)
  }

  lemma {:induction false} CounterCounts(events: seq<Event>, n: Nat, listen: u16)
    ensures RunAll(events, n, listen).redirected == (n.redirected + Redirections(events, listen)) % TWO64
    decreases |events|
  {
    hide Rewrite, IsRedirected;
    if events != [] {
      CounterStep(n, events[0], listen);
      CounterCounts(events[1..], Rewrite(n, events[0], listen).state, listen);
    }
  }

  lemma CounterStep(n: Nat, e: Event, listen: u16)
    ensures Rewrite(n, e, listen).state.redirected
            == if IsRedirected(e, listen) then AsU64(n.redirected + 1) else n.redirected
  {
    hide Put;
  }

  /** The mirror of a flow: what its answer looks like to the client. */
  function Mirror(f: Flow): Flow { Flow(f.dst, f.src) }

  /** NAT inversion over runs. Take any run, a redirected packet in it after which no other packet from the
      same port was redirected, and a reply of the listener to that client. The reply comes out with the
      mirrored addresses of the original packet, and the listener's lookup gives the original destination. */
  lemma ReplyMirrorsRequest(before: seq<Event>, request: Event, after: seq<Event>, reply: Event, listen: u16)
    requires IsRedirected(request, listen)
    requires var port := FlowOf(request.packet).src.port;
             forall i :: 0 <= i < |after| ==> !(IsRedirected(after[i], listen)
                                                && FlowOf(after[i].packet).src.port == port)
    requires IsReply(reply, listen) && HeaderLength(reply.packet) >= 20
    requires FlowOf(reply.packet).dst == FlowOf(request.packet).src
    ensures var n := RunAll(before + [request] + after, EMPTY, listen);
            var o := Rewrite(n, reply, listen);
            && o.mutated && IsTcp(o.packet)
            && FlowOf(o.packet) == Mirror(FlowOf(request.packet))
            && o.flags == Inbound(reply.flags)
            && FlowOf(request.packet).src.port in n.table
            && n.table[FlowOf(request.packet).src.port] == FlowOf(request.packet).dst
  {
    hide Put, Rewrite;
    var port := FlowOf(request.packet).src.port;
    var events := before + [request] + after;
    LatestStays(before + [request], after, port, listen);
    assert (before + [request])[|before + [request]| - 1] == request;
    TableIsLatest(events, listen, port);
    ReplyFlow(RunAll(events, EMPTY, listen), reply, listen);
  }

  lemma {:induction false} LatestStays(events: seq<Event>, after: seq<Event>, port: u16, listen: u16)
    requires forall i :: 0 <= i < |after| ==> !(IsRedirected(after[i], listen)
                                                && FlowOf(after[i].packet).src.port == port)
    ensures LatestDestination(events + after, port, listen) == LatestDestination(events, port, listen)
    decreases |after|
  {
    if after == [] {
      assert events + after == events;
    } else {
      var k := |after| - 1;
      assert (events + after)[|events + after| - 1] == after[k];
      assert (events + after)[..|events + after| - 1] == events + after[..k];
      LatestStays(events, after[..k], port, listen);
    }
  }

  // ----- Headers shorter than RFC 791 allows -----

  /** The reply carries the remembered endpoint and keeps its destination. */
  predicate RestoresFlow(n: Nat, e: Event, listen: u16)
    requires IsReply(e, listen) && FlowOf(e.packet).dst.port in n.table
  {
    var o := Rewrite(n, e, listen);
    IsTcp(o.packet) && FlowOf(o.packet) == Flow(n.table[FlowOf(e.packet).dst.port], FlowOf(e.packet).dst)
  }

  /** With a header length of 0, 8, 12 or 16 the ports overlap the first byte, the protocol or an address, and
      some endpoint is not restored; with every other length every endpoint is. */
  lemma RestoresIffPortsOutsideAddresses(e: Event, listen: u16)
    requires IsReply(e, listen)
    ensures (forall n: Nat :: FlowOf(e.packet).dst.port in n.table ==> RestoresFlow(n, e, listen))
            <==> HeaderLength(e.packet) !in {0, 8, 12, 16}
  {
    var ihl, flow := HeaderLength(e.packet), FlowOf(e.packet);
    if ihl in {0, 8, 12, 16} {
      var n := Nat(map[flow.dst.port := Spoiler(e.packet)], 0);
      OverlapBreaks(n, e, listen);
    } else {
      forall n: Nat | flow.dst.port in n.table ensures RestoresFlow(n, e, listen) {
        SeparateRestores(n, e, listen);
      }
    }
  }

  /** An endpoint that a short header does not let through. */
  function Spoiler(p: Packet): Endpoint
    requires IsTcp(p)
  {
    var port := match HeaderLength(p)
      case 0 => if Field16(p, 4) == 0x100 then 0x1100 else 0x100
      case 8 => 0
      case _ => if p[16] == 0xFF then 0 else 0xFFFF;
    Endpoint([1, 2, 3, 4], port)
  }

  lemma OverlapBreaks(n: Nat, e: Event, listen: u16)
    requires IsReply(e, listen) && HeaderLength(e.packet) in {0, 8, 12, 16}
    requires var dst := FlowOf(e.packet).dst;
             dst.port in n.table && n.table[dst.port] == Spoiler(e.packet)
    ensures !RestoresFlow(n, e, listen)
  {
    var ihl, dst := HeaderLength(e.packet), FlowOf(e.packet).dst;
    var orig := n.table[dst.port];
    var q := Rewrite(n, e, listen).packet;
    assert q[ihl] == orig.port / 0x100 && q[ihl + 1] == orig.port % 0x100;
    if ihl == 0 {
      assert HeaderLength(q) == 4 && Field16(q, 4) == Field16(e.packet, 4);
    } else if ihl == 12 {
      assert q[12..16][0] == q[12];
    } else if ihl == 16 {
      assert q[16..20][0] == q[16] && dst.ip[0] == e.packet[16];
    }
  }

  lemma SeparateRestores(n: Nat, e: Event, listen: u16)
    requires IsReply(e, listen) && FlowOf(e.packet).dst.port in n.table
    requires HeaderLength(e.packet) == 4 || HeaderLength(e.packet) >= 20
    ensures RestoresFlow(n, e, listen)
  {
    var flow := FlowOf(e.packet);
    var ihl := HeaderLength(e.packet);
    var orig := n.table[flow.dst.port];
    var mid := Put(e.packet, 12, orig.ip);
    var q := Put(mid, ihl, PortBytes(orig.port));
    PortRoundTrip(mid, ihl, orig.port);
    assert q[12..16] == orig.ip;
    assert q[16..20] == e.packet[16..20];
  }
}
