/** The SYN protocol on the wire: the bytes of a probe, and what recv makes of the bytes of a reply. */
module SynFrames {
  import opened Words
  import opened Headers
  import opened Cookie
  import opened Encode
  import opened Unpack
  import opened Frames
  import opened FrameBytes
  import opened Syn

  // ----- the probe -----------------------------------------------------------------------

  /** The 54 bytes of a probe, in numbers. */
  predicate ProbeBytes(b: seq<Byte>, eth: EthHdr, local: Addr, target: Addr, port: U16, seed: U64) {
    && |b| == 54 && b[0..6] == eth.dst && b[6..12] == eth.src && b[12] == 8 && b[13] == 0
    && b[14] == 0x45 && b[15] == 0 && Be16(b, 16) == 40 && Be16(b, 18) == 0 && Be16(b, 20) == 0
    && b[22] == 64 && b[23] == 6 && b[26..30] == local && b[30..34] == target
    && Be16(b, 34) == 64434 && Be16(b, 36) == port
    && Be32(b, 38) == Cookie32(Tuple(local, target, 64434, port), seed) && Be32(b, 42) == 0
    && b[46] / 16 == 5 && b[46] % 2 == 0 && b[47] == 2 && Be16(b, 48) == 5840 && Be16(b, 52) == 0
  }

  lemma ProbeLength(ls: seq<Layer>)
    requires |ls| == 3 && ls[0].Tcp? && ls[1].Ip4? && ls[2].Eth?
    ensures AllBuilt(ls) && PackedLength(ls, 1) == 20 && PackedLength(ls, 2) == 40 && PackedLength(ls, 3) == 54
  {
    assert PackedLength(ls, 1) == PackedLength(ls, 0) + 20;
    assert PackedLength(ls, 2) == PackedLength(ls, 1) + 20;
  }

  /** What loop builds is, once packed, a SYN for the probed port with the cookie as its number. */
  lemma ProbeOnWire(eth: EthHdr, local: Addr, target: Addr, port: U16, seed: U64, was: seq<Byte>)
    requires |was| >= 54
    ensures var ls := ProbeStack(eth, local, target, port, seed);
            && AllBuilt(ls) && PackedLength(ls, |ls|) == 54
            && ProbeBytes(PackedBytes(ls, was), eth, local, target, port, seed)
  {
    hide PackedBytes, PackedLength, Cookie32, AllBuilt;
    var ls := ProbeStack(eth, local, target, port, seed);
    ProbeLength(ls);
    var b := PackedBytes(ls, was);
    EthBytes(ls, was, 2, b, 0);
    Ip4Bytes(ls, was, 1, b, 14);
    TcpBytes(ls, was, 0, b, 34);
    TypeBytes(b);
  }

  lemma TypeBytes(b: seq<Byte>)
    requires |b| >= 15 && Be16(b, 12) == 0x0800 && b[14] / 16 == 4 && b[14] % 16 == 5
    ensures b[12] == 8 && b[13] == 0 && b[14] == 0x45
  {
  }

  /** The probe as it is handed to the network. */
  function PackedProbe(eth: EthHdr, local: Addr, target: Addr, port: U16, seed: U64, was: seq<Byte>): (b: seq<Byte>)
    requires |was| >= 54
    ensures ProbeBytes(b, eth, local, target, port, seed)
  {
    ProbeOnWire(eth, local, target, port, seed, was);
    PackedBytes(ProbeStack(eth, local, target, port, seed), was)
  }

  lemma SynFlags(x: Byte)
    requires x == 2
    ensures FlagsAt(x) == Flags(false, true, false, false, false, false, false, false)
  {
  }

  /** And decodes to that. */
  lemma ProbeArrives(b: seq<Byte>, eth: EthHdr, local: Addr, target: Addr, port: U16, seed: U64)
    returns (ip: Ip4Hdr, tcp: TcpHdr)
    requires ProbeBytes(b, eth, local, target, port, seed)
    ensures Unpacked(b) == Some([Eth(eth.(kind := 0x0800)), Ip4(ip), Tcp(tcp)])
    ensures IsProbe(ip, tcp, local, target, port, seed) && ip.ttl == 64 && ip.ihl == 5 && tcp.doff == 5
  {
    hide Unpacked, Cookie32, FlagsAt;
    TcpFrame(b, 34, 54);
    ip, tcp := Ip4At(b, 14), TcpAt(b, 34);
    SynFlags(b[47]);
    assert [Eth(EthAt(b)), Ip4(ip), Tcp(tcp)] + [] == [Eth(EthAt(b)), Ip4(ip), Tcp(tcp)];
  }

  // ----- received frames --------------------------------------------------------------------

  /** A frame with a whole TCP header directly behind its IPv4 header. */
  predicate IsTcp(b: seq<Byte>) {
    IsIp4(b) && b[23] == 6 && IpEnd(b) + 20 <= |b|
  }

  /** It has ACK set and acknowledges the number that a probe of the mirrored connection carries, plus one. */
  predicate AcknowledgesProbe(b: seq<Byte>, seed: U64)
    requires IsTcp(b)
  {
    var t := IpEnd(b);
    && FlagAt(b[t + 13], 16)
    && Be32(b, t + 8) - 1 == Cookie32(Tuple(b[30..34], b[26..30], Be16(b, t + 2), Be16(b, t)), seed)
  }

  function Verdict(b: seq<Byte>, seed: U64): Syn.Verdict
    requires Unpacked(b).Some?
  {
    Recv(ScriptView(Unpacked(b).value), seed)
  }

  lemma NonEmpty(k: Kind, p: seq<Byte>)
    requires Decode(k, p).Some? && Decode(k, p).value != []
    ensures p != [] && k != KNone && Parse(k, p).Some?
  {
  }

  /** Only such frames decode to a TCP header as their third layer behind IPv4. */
  lemma ThirdIsTcp(b: seq<Byte>)
    requires Unpacked(b).Some? && |Unpacked(b).value| >= 3
    requires Unpacked(b).value[1].Ip4? && Unpacked(b).value[2].Tcp?
    ensures IsTcp(b)
  {
    hide Parse, Decode;
    var ls := Unpacked(b).value;
    DecodeAnnounced(KEth, b);
    EtherStep(b);
    assert ls[0] == Eth(EthAt(b)) && NextKind(ls[0]) == KIp4 && NextKind(ls[1]) == KTcp;
    NonEmpty(EtherType(b), b[14..]);
    ShortParse(KIp4, b[14..]);
    IpStep(b);
    assert ls[1] == Ip4(Ip4At(b, 14));
    NonEmpty(Protocol(b[23]), Rest(b, IpEnd(b)));
    ShortParse(KTcp, Rest(b, IpEnd(b)));
  }

  lemma TcpLayers(b: seq<Byte>) returns (ls: seq<Layer>)
    requires IsTcp(b)
    ensures Unpacked(b) == Some(ls) && |ls| >= 3 && ls[0].Eth?
    ensures ls[1] == Ip4(Ip4At(b, 14)) && ls[2] == Tcp(TcpAt(b, IpEnd(b)))
  {
    hide Unpacked;
    var t := IpEnd(b);
    TcpFrame(b, t, t + 4 * (b[t + 12] / 16));
    ls := Unpacked(b).value;
  }

  /**
  recv on any frame, in numbers: it reacts if and only if the frame has a TCP header behind its IPv4
  header that acknowledges a probe, and it tells open from closed ports by SYN and RST.
  */
  lemma RecvFrameIff(b: seq<Byte>, seed: U64)
    requires Unpacked(b).Some?
    ensures var v := Verdict(b, seed);
            var matched := IsTcp(b) && AcknowledgesProbe(b, seed);
            && (v == Ignored <==> !matched)
            && (v.Reported? && v.open <==> matched && FlagAt(b[IpEnd(b) + 13], 2))
            && (v == Closed <==> matched && !FlagAt(b[IpEnd(b) + 13], 2) && FlagAt(b[IpEnd(b) + 13], 4))
  {
    hide Unpacked, Cookie32, ScriptView, Be16, Be32, FlagAt;
    if IsTcp(b) {
      var ls := TcpLayers(b);
      ScriptViewOfReply(ls);
      RecvVerdict(ScriptView(ls), Ip4At(b, 14), TcpAt(b, IpEnd(b)), seed);
    } else {
      NotTcpIgnored(b, seed);
    }
  }

  lemma NotTcpIgnored(b: seq<Byte>, seed: U64)
    requires Unpacked(b).Some? && !IsTcp(b)
    ensures Verdict(b, seed) == Ignored
  {
    hide Unpacked, ScriptView, IsTcp;
    TcpBehindIp4(b);
    var pkts := ScriptView(Unpacked(b).value);
    if |pkts| >= 2 && pkts[1].Tcp? {
      ThirdIsTcp(b);
    }
  }

  // ----- end to end ----------------------------------------------------------------------------

  /** A reply frame: addresses and ports of the probe mirrored, ACK set, the number of the probe plus one. */
  predicate RepliesTo(b: seq<Byte>, probe: seq<Byte>)
    requires |probe| == 54
  {
    && IsTcp(b) && b[26..30] == probe[30..34] && b[30..34] == probe[26..30]
    && var t := IpEnd(b);
       && Be16(b, t) == Be16(probe, 36) && Be16(b, t + 2) == Be16(probe, 34)
       && FlagAt(b[t + 13], 16) && Be32(b, t + 8) == (Be32(probe, 38) + 1) % TWO32
  }

  /**
  Stateless matching end to end, on bytes. loop builds a probe and packs it; any reply to those bytes,
  with any options and payload, is decoded and given to recv: it is ignored if and only if the number
  of the probe was 2^32 - 1, and otherwise reported as open or dropped as closed by its flags.
  */
  lemma ReplyMatchedIff(eth: EthHdr, local: Addr, target: Addr, port: U16, seed: U64, was: seq<Byte>, b: seq<Byte>)
    requires |was| >= 54 && RepliesTo(b, PackedProbe(eth, local, target, port, seed, was))
    ensures Unpacked(b).Some?
    ensures var v := Verdict(b, seed);
            var matched := Cookie32(Tuple(local, target, 64434, port), seed) != TWO32 - 1;
            && (v == Ignored <==> !matched)
            && (v.Reported? && v.open <==> matched && FlagAt(b[IpEnd(b) + 13], 2))
            && (v == Closed <==> matched && !FlagAt(b[IpEnd(b) + 13], 2) && FlagAt(b[IpEnd(b) + 13], 4))
  {
    hide Unpacked, Cookie32, Verdict, PackedProbe, Be16, Be32, FlagAt;
    var probe := PackedProbe(eth, local, target, port, seed, was);
    var ls := TcpLayers(b);
    RecvFrameIff(b, seed);
    MirroredTuple(b, probe, eth, local, target, port, seed);
    Successor(Cookie32(Tuple(local, target, 64434, port), seed));
  }

  lemma MirroredTuple(b: seq<Byte>, probe: seq<Byte>, eth: EthHdr, local: Addr, target: Addr, port: U16, seed: U64)
    requires ProbeBytes(probe, eth, local, target, port, seed) && RepliesTo(b, probe)
    ensures var t := IpEnd(b);
            Tuple(b[30..34], b[26..30], Be16(b, t + 2), Be16(b, t)) == Tuple(local, target, 64434, port)
  {
    hide Be16, Be32, Cookie32;
  }

  lemma Successor(x: U32)
    ensures (x + 1) % TWO32 - 1 == x <==> x != TWO32 - 1
  {
  }
}
