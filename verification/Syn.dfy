/** scripts/syn.lua: SYN probes whose replies are matched without keeping any state. */
module Syn {
  import opened Words
  import opened Headers
  import opened Cookie
  import opened Unpack

  const LOCAL_PORT: U16 := 64434

  /** The connection that a probe opens. */
  function ProbeTuple(local: Addr, target: Addr, port: U16): Tuple {
    Tuple(local, target, LOCAL_PORT, port)
  }

  /** The sequence number that loop puts into the probe. */
  function ProbeNumber(local: Addr, target: Addr, port: U16, seed: U64): U32 {
    Cookie32(ProbeTuple(local, target, port), seed)
  }

  /** The stack that loop returns, innermost layer first, with the Ethernet layer that is added to it. */
  function ProbeStack(eth: EthHdr, local: Addr, target: Addr, port: U16, seed: U64): seq<Layer> {
    var syn := Flags(false, true, false, false, false, false, false, false);
    [Tcp(TcpHdr(LOCAL_PORT, port, ProbeNumber(local, target, port, seed), 0, 5, 0, false, syn, 5840, 0, 0)),
     Ip4(Ip4Hdr(4, 5, 0, 0, 0, 0, 64, 0, 0, local, target)),
     Eth(eth)]
  }

  /** A received packet as recv sees it: the link layers are removed. */
  function ScriptView(layers: seq<Layer>): seq<Layer> {
    if layers == [] then []
    else (if layers[0].Eth? || layers[0].Arp? then [] else [layers[0]]) + ScriptView(layers[1..])
  }

  datatype Verdict = Ignored | Closed | Reported(open: bool, rst: seq<Layer>)

  /** The acknowledgement belongs to a probe of this scan. Lua numbers do not wrap: 0 - 1 is -1. */
  predicate Acknowledges(ip: Ip4Hdr, tcp: TcpHdr, seed: U64) {
    tcp.ackNumber - 1 == Cookie32(Tuple(ip.dst, ip.src, tcp.dport, tcp.sport), seed)
  }

  /** recv, on the packets it is given. */
  function Recv(pkts: seq<Layer>, seed: U64): Verdict {
    if |pkts| < 2 || !pkts[1].Tcp? || !pkts[0].Ip4? then Ignored
    else
      var ip, tcp := pkts[0].ip4, pkts[1].tcp;
      if !tcp.flags.ack then Ignored
      else if !Acknowledges(ip, tcp, seed) then Ignored
      else if !tcp.flags.syn && tcp.flags.rst then Closed
      else
        var flags := tcp.flags.(syn := false, psh := false, ack := false, rst := true);
        Reported(tcp.flags.syn,
          [Ip4(ip.(src := ip.dst, dst := ip.src)),
           Tcp(tcp.(sport := tcp.dport, dport := tcp.sport, doff := 5, flags := flags,
                    number := tcp.ackNumber, ackNumber := 0))])
  }

  /** A connection request: SYN alone, acknowledging nothing. */
  predicate IsSyn(tcp: TcpHdr) {
    tcp.flags == Flags(false, true, false, false, false, false, false, false) && tcp.ackNumber == 0
  }

  /** The headers of a probe, as far as a reply depends on them. */
  predicate IsProbe(ip: Ip4Hdr, tcp: TcpHdr, local: Addr, target: Addr, port: U16, seed: U64) {
    && ip.src == local && ip.dst == target && tcp.sport == LOCAL_PORT && tcp.dport == port
    && tcp.number == ProbeNumber(local, target, port, seed) && IsSyn(tcp)
  }

  predicate Answers(ip: Ip4Hdr, tcp: TcpHdr, local: Addr, target: Addr, port: U16, seed: U64) {
    && ip.src == target && ip.dst == local && tcp.sport == port && tcp.dport == LOCAL_PORT
    && tcp.flags.ack && tcp.ackNumber == (ProbeNumber(local, target, port, seed) + 1) % TWO32
  }

  /** A reply is recognised if and only if the probe's number is not the largest 32-bit value. */
  lemma AnswerRecognisedIff(ip: Ip4Hdr, tcp: TcpHdr, local: Addr, target: Addr, port: U16, seed: U64)
    requires Answers(ip, tcp, local, target, port, seed)
    ensures Acknowledges(ip, tcp, seed) <==> ProbeNumber(local, target, port, seed) != TWO32 - 1
  {
    assert Tuple(ip.dst, ip.src, tcp.dport, tcp.sport) == ProbeTuple(local, target, port);
  }

  /** The same acknowledgement from a connection that is one byte away is never recognised. */
  lemma OtherConnectionRejected(ip: Ip4Hdr, tcp: TcpHdr, local: Addr, target: Addr, port: U16, seed: U64)
    requires tcp.ackNumber == (ProbeNumber(local, target, port, seed) + 1) % TWO32
    requires OneByteApart(ProbeTuple(local, target, port), Tuple(ip.dst, ip.src, tcp.dport, tcp.sport))
    ensures !Acknowledges(ip, tcp, seed)
  {
    hide Cookie32, OneByteApart;
    CookieSeparates(ProbeTuple(local, target, port), Tuple(ip.dst, ip.src, tcp.dport, tcp.sport), seed);
  }

  /**
  The reset that recv sends closes the probed connection at the number the target expects: RST is
  set, SYN, PSH and ACK are cleared, and the other flags are left as they were received.
  */
  lemma RstClosesConnection(pkts: seq<Layer>, seed: U64)
    requires Recv(pkts, seed).Reported?
    ensures |pkts| >= 2 && pkts[0].Ip4? && pkts[1].Tcp?
    ensures var rst, ip, f := Recv(pkts, seed).rst, pkts[0].ip4, pkts[1].tcp.flags;
            && |rst| == 2 && rst[0] == Ip4(ip.(src := ip.dst, dst := ip.src)) && rst[1].Tcp?
            && var tcp := rst[1].tcp;
            && tcp.flags == Flags(f.fin, false, true, false, false, f.urg, f.ece, f.cwr)
            && tcp.sport == pkts[1].tcp.dport && tcp.dport == pkts[1].tcp.sport && tcp.doff == 5 && tcp.ackNumber == 0
            && tcp.number == Cookie32(Tuple(ip.dst, ip.src, tcp.sport, tcp.dport), seed) + 1
  {
  }

  /** In any decoded frame a TCP header that recv looks at comes right after an IPv4 header. */
  lemma TcpBehindIp4(buf: seq<Byte>)
    requires Unpacked(buf).Some?
    ensures var pkts := ScriptView(Unpacked(buf).value);
            |pkts| >= 2 && pkts[1].Tcp? ==>
              var ls := Unpacked(buf).value;
              |ls| >= 3 && ls[1].Ip4? && ls[2].Tcp? && pkts[0] == ls[1] && pkts[1] == ls[2]
  {
    var ls := Unpacked(buf).value;
    DecodeAnnounced(KEth, buf);
    FrameView(ls);
  }

  lemma FrameView(ls: seq<Layer>)
    requires Announced(KEth, ls)
    ensures var pkts := ScriptView(ls);
            |pkts| >= 2 && pkts[1].Tcp? ==>
              |ls| >= 3 && ls[1].Ip4? && ls[2].Tcp? && pkts[0] == ls[1] && pkts[1] == ls[2]
  {
    hide ScriptView;
    ViewNothing();
    if |ls| >= 1 {
      ViewStep(ls, 0);
    }
    if |ls| >= 2 {
      ViewStep(ls, 1);
    }
    if |ls| >= 3 {
      ViewStep(ls, 2);
    }
  }

  lemma ViewNothing()
    ensures ScriptView([]) == []
  {
  }

  lemma ViewStep(ls: seq<Layer>, i: nat)
    requires i < |ls|
    ensures ScriptView(ls[i..]) == (if ls[i].Eth? || ls[i].Arp? then [] else [ls[i]]) + ScriptView(ls[i + 1..])
    ensures i == 0 ==> ls[i..] == ls
    ensures i + 1 == |ls| ==> ls[i + 1..] == []
  {
    assert ls[i..][1..] == ls[i + 1..];
  }

  /** What recv is given for a frame: the layers on the wire, without the Ethernet layer. */
  lemma ScriptViewOfReply(wire: seq<Layer>)
    requires |wire| >= 3 && wire[0].Eth? && wire[1].Ip4? && wire[2].Tcp?
    ensures |ScriptView(wire)| >= 2 && ScriptView(wire)[0] == wire[1] && ScriptView(wire)[1] == wire[2]
  {
    hide ScriptView;
    ViewStep(wire, 0);
    ViewStep(wire, 1);
    ViewStep(wire, 2);
  }

  /** What recv makes of a TCP segment. */
  lemma RecvVerdict(pkts: seq<Layer>, ip: Ip4Hdr, tcp: TcpHdr, seed: U64)
    requires |pkts| >= 2 && pkts[0] == Ip4(ip) && pkts[1] == Tcp(tcp)
    ensures var verdict, matched := Recv(pkts, seed), tcp.flags.ack && Acknowledges(ip, tcp, seed);
            && (verdict == Ignored <==> !matched)
            && (verdict.Reported? && verdict.open <==> matched && tcp.flags.syn)
            && (verdict == Closed <==> matched && !tcp.flags.syn && tcp.flags.rst)
  {
    hide Acknowledges;
  }
}
