/**
Received frames in numbers: which bytes of a buffer become which field of which layer, and which
buffers are refused. Offsets and values are those of the standards: RFC 826 for ARP, section 3.1
of RFC 791 for IPv4, RFC 792 for ICMP, RFC 768 for UDP and section 3.1 of RFC 9293 for TCP.
*/
module Frames {
  import opened Words
  import opened Headers
  import opened Unpack
  import opened Framing

  /** Two and four bytes in network order. */
  function Be16(b: seq<Byte>, i: nat): U16
    requires i + 2 <= |b|
  {
    TWO8 * b[i] + b[i + 1]
  }

  function Be32(b: seq<Byte>, i: nat): U32
    requires i + 4 <= |b|
  {
    TWO8 * TWO8 * TWO8 * b[i] + TWO8 * TWO8 * b[i + 1] + TWO8 * b[i + 2] + b[i + 3]
  }

  // ----- headers at an offset ----------------------------------------------------------

  function EthAt(b: seq<Byte>): EthHdr
    requires 14 <= |b|
  {
    EthHdr(b[0..6], b[6..12], Be16(b, 12))
  }

  /** Where an ARP packet ends: its four addresses have the two lengths it announces. */
  function ArpEnd(b: seq<Byte>, i: nat): nat
    requires i + 8 <= |b|
  {
    var hw: nat, pl: nat := b[i + 4], b[i + 5];
    i + 8 + 2 * hw + 2 * pl
  }

  function ArpAt(b: seq<Byte>, i: nat): ArpHdr
    requires i + 8 <= |b| && ArpEnd(b, i) <= |b|
  {
    var hw: nat, pl: nat := b[i + 4], b[i + 5];
    var hwsrc := i + 8;
    var psrc := hwsrc + hw;
    var hwdst := psrc + pl;
    var pdst := hwdst + hw;
    ArpHdr(Be16(b, i), Be16(b, i + 2), b[i + 4], b[i + 5], Be16(b, i + 6),
      b[hwsrc..psrc], b[psrc..hwdst], b[hwdst..pdst], b[pdst..pdst + pl])
  }

  function Ip4At(b: seq<Byte>, i: nat): Ip4Hdr
    requires i + 20 <= |b|
  {
    Ip4Hdr(b[i] / 16, b[i] % 16, b[i + 1], Be16(b, i + 2), Be16(b, i + 4), Be16(b, i + 6), b[i + 8], b[i + 9],
      Be16(b, i + 10), b[i + 12..i + 16], b[i + 16..i + 20])
  }

  function IcmpAt(b: seq<Byte>, i: nat): IcmpHdr
    requires i + 8 <= |b|
  {
    IcmpHdr(b[i], b[i + 1], Be16(b, i + 2), Be16(b, i + 4), Be16(b, i + 6))
  }

  function UdpAt(b: seq<Byte>, i: nat): UdpHdr
    requires i + 8 <= |b|
  {
    UdpHdr(Be16(b, i), Be16(b, i + 2), Be16(b, i + 4), Be16(b, i + 6))
  }

  /** Flag k of a TCP header, FIN being number 0. */
  predicate FlagAt(x: Byte, weight: Pos) {
    (x / weight) % 2 == 1
  }

  function FlagsAt(x: Byte): Flags {
    Flags(FlagAt(x, 1), FlagAt(x, 2), FlagAt(x, 4), FlagAt(x, 8),
          FlagAt(x, 16), FlagAt(x, 32), FlagAt(x, 64), FlagAt(x, 128))
  }

  function TcpAt(b: seq<Byte>, i: nat): TcpHdr
    requires i + 20 <= |b|
  {
    TcpHdr(Be16(b, i), Be16(b, i + 2), Be32(b, i + 4), Be32(b, i + 8), b[i + 12] / 16, (b[i + 12] / 2) % 8,
      b[i + 12] % 2 == 1, FlagsAt(b[i + 13]), Be16(b, i + 14), Be16(b, i + 16), Be16(b, i + 18))
  }

  // ----- the decoders read them ----------------------------------------------------------

  lemma Shifted(b: seq<Byte>, i: nat, k: nat)
    requires i + k <= |b|
    ensures forall j :: 0 <= j < k ==> b[i..][j] == b[i + j]
  {
  }

  lemma EthParsed(b: seq<Byte>)
    requires 14 <= |b|
    ensures Parse(KEth, b) == Some(Eth(EthAt(b)))
  {
  }

  lemma ArpParsed(b: seq<Byte>, i: nat)
    requires i + 8 <= |b| && ArpEnd(b, i) <= |b|
    ensures Parse(KArp, b[i..]) == Some(Arp(ArpAt(b, i)))
  {
    var s := b[i..];
    Shifted(b, i, 8);
    var hw: nat, pl: nat := b[i + 4], b[i + 5];
    SliceOfSuffix(b, i, 8, 8 + hw);
    SliceOfSuffix(b, i, 8 + hw, 8 + hw + pl);
    SliceOfSuffix(b, i, 8 + hw + pl, 8 + 2 * hw + pl);
    SliceOfSuffix(b, i, 8 + 2 * hw + pl, 8 + 2 * hw + 2 * pl);
  }

  lemma SliceOfSuffix(b: seq<Byte>, i: nat, j: nat, k: nat)
    requires j <= k && i + k <= |b|
    ensures b[i..][j..k] == b[i + j..i + k]
  {
  }

  lemma Ip4Parsed(b: seq<Byte>, i: nat)
    requires i + 20 <= |b|
    ensures Parse(KIp4, b[i..]) == if b[i] / 16 == 4 then Some(Ip4(Ip4At(b, i))) else None
  {
    Shifted(b, i, 20);
    SliceOfSuffix(b, i, 12, 16);
    SliceOfSuffix(b, i, 16, 20);
  }

  lemma IcmpParsed(b: seq<Byte>, i: nat)
    requires i + 8 <= |b|
    ensures Parse(KIcmp, b[i..]) == Some(Icmp(IcmpAt(b, i)))
  {
    Shifted(b, i, 8);
  }

  lemma UdpParsed(b: seq<Byte>, i: nat)
    requires i + 8 <= |b|
    ensures Parse(KUdp, b[i..]) == Some(Udp(UdpAt(b, i)))
  {
    Shifted(b, i, 8);
  }

  lemma HalfOf(x: nat, w: Pos, v: Pos)
    requires v == 2 * w
    ensures x / v == (x / w) / 2
  {
    var q := x / w;
    assert x == w * q + x % w && q == 2 * (q / 2) + q % 2;
    assert x == v * (q / 2) + (w * (q % 2) + x % w) by {
      assert w * q == v * (q / 2) + w * (q % 2);
    }
    assert w * (q % 2) + x % w < v;
    DivModUnique(v, q / 2, w * (q % 2) + x % w);
  }

  lemma FlagsAre(x: Byte)
    ensures FlagsOf(x) == FlagsAt(x)
  {
    var x1, x2, x3 := x / 2, x / 4, x / 8;
    var x4, x5, x6, x7 := x / 16, x / 32, x / 64, x / 128;
    HalfOf(x, 2, 4);
    HalfOf(x, 4, 8);
    HalfOf(x, 8, 16);
    HalfOf(x, 16, 32);
    HalfOf(x, 32, 64);
    HalfOf(x, 64, 128);
    assert x2 == x1 / 2 && x3 == x2 / 2 && x4 == x3 / 2 && x5 == x4 / 2 && x6 == x5 / 2 && x7 == x6 / 2;
    assert x / 1 == x && 0 <= x7 < 2;
  }

  lemma Be32Is(b: seq<Byte>, i: nat, j: nat)
    requires i + j + 4 <= |b|
    ensures U32At(b[i..], j) == Be32(b, i + j)
  {
    Shifted(b, i, j + 4);
  }

  lemma TcpParsed(b: seq<Byte>, i: nat)
    requires i + 20 <= |b|
    ensures Parse(KTcp, b[i..]) == Some(Tcp(TcpAt(b, i)))
  {
    hide FlagsOf, FlagsAt, U32At, Be32;
    Shifted(b, i, 20);
    FlagsAre(b[i + 13]);
    Be32Is(b, i, 4);
    Be32Is(b, i, 8);
  }

  // ----- whole frames -------------------------------------------------------------------

  lemma StepAt(k: Kind, b: seq<Byte>, i: nat, l: Layer)
    requires i < |b| && k != KNone && Parse(k, b[i..]) == Some(l)
    ensures Decode(k, b[i..]) == Prepend([l], Decode(NextKind(l), Rest(b, i + Skip(l))))
  {
    hide Parse, Decode;
    DecodeStep(k, b[i..], l, Rest(b, i + Skip(l)));
  }

  lemma Behind(b: seq<Byte>, u: nat)
    ensures Decode(KRaw, Rest(b, u)) == Some(if u < |b| then [Raw(b[u..])] else [])
  {
    if u < |b| {
      StepAt(KRaw, b, u, Raw(b[u..]));
      DecodeNone(Rest(b, |b|));
      PrependEmpty([Raw(b[u..])]);
    }
  }

  lemma PrependEmpty(ls: seq<Layer>)
    ensures Prepend(ls, Some([])) == Some(ls)
  {
    assert ls + [] == ls;
  }

  lemma DecodeNone(b: seq<Byte>)
    ensures Decode(KNone, b) == Some([])
  {
  }

  lemma DecodeEmpty(k: Kind)
    ensures Decode(k, []) == Some([])
  {
  }

  /** A frame of type 08 00 with an IPv4 header in it. */
  predicate IsIp4(b: seq<Byte>) {
    |b| >= 34 && b[12] == 8 && b[13] == 0 && b[14] / 16 == 4
  }

  /** Where the IPv4 header ends, options included. */
  function IpEnd(b: seq<Byte>): nat
    requires IsIp4(b)
  {
    14 + 4 * (b[14] % 16)
  }

  /** What the protocol byte announces. */
  function Protocol(x: Byte): Kind {
    if x == 1 then KIcmp else if x == 17 then KUdp else if x == 6 then KTcp else KNone
  }

  lemma IpStep(b: seq<Byte>)
    requires IsIp4(b)
    ensures Unpacked(b)
         == Prepend([Eth(EthAt(b)), Ip4(Ip4At(b, 14))], Decode(Protocol(b[23]), Rest(b, IpEnd(b))))
  {
    hide Parse, Decode;
    assert b[0..] == b;
    EthParsed(b);
    StepAt(KEth, b, 0, Eth(EthAt(b)));
    Ip4Parsed(b, 14);
    StepAt(KIp4, b, 14, Ip4(Ip4At(b, 14)));
    PrependPrepend([Eth(EthAt(b))], [Ip4(Ip4At(b, 14))], Decode(Protocol(b[23]), Rest(b, IpEnd(b))));
    assert [Eth(EthAt(b))] + [Ip4(Ip4At(b, 14))] == [Eth(EthAt(b)), Ip4(Ip4At(b, 14))];
  }

  lemma Third(b: seq<Byte>, l: Layer, o: Option<seq<Layer>>)
    requires IsIp4(b)
    ensures Prepend([Eth(EthAt(b)), Ip4(Ip4At(b, 14))], Prepend([l], o))
         == Prepend([Eth(EthAt(b)), Ip4(Ip4At(b, 14)), l], o)
  {
    PrependPrepend([Eth(EthAt(b)), Ip4(Ip4At(b, 14))], [l], o);
    assert [Eth(EthAt(b)), Ip4(Ip4At(b, 14))] + [l] == [Eth(EthAt(b)), Ip4(Ip4At(b, 14)), l];
  }

  lemma TcpStep(b: seq<Byte>, t: nat)
    requires t + 20 <= |b|
    ensures Decode(KTcp, Rest(b, t)) == Prepend([Tcp(TcpAt(b, t))], Decode(KRaw, Rest(b, t + 4 * (b[t + 12] / 16))))
  {
    hide Parse, Decode, FlagsAt, Be16, Be32;
    TcpParsed(b, t);
    StepAt(KTcp, b, t, Tcp(TcpAt(b, t)));
  }

  lemma UdpStep(b: seq<Byte>, t: nat)
    requires t + 8 <= |b|
    ensures Decode(KUdp, Rest(b, t)) == Prepend([Udp(UdpAt(b, t))], Decode(KRaw, Rest(b, t + 8)))
  {
    hide Parse, Decode, Be16;
    UdpParsed(b, t);
    StepAt(KUdp, b, t, Udp(UdpAt(b, t)));
  }

  lemma IcmpStep(b: seq<Byte>, t: nat)
    requires t + 8 <= |b|
    ensures Decode(KIcmp, Rest(b, t))
         == Prepend([Icmp(IcmpAt(b, t))], Decode(if Quoting(b[t]) then KIp4 else KRaw, Rest(b, t + 8)))
  {
    hide Parse, Decode, Be16;
    IcmpParsed(b, t);
    StepAt(KIcmp, b, t, Icmp(IcmpAt(b, t)));
  }

  /** Protocol 6: the segment is at the end of the IPv4 header, its payload behind the TCP options. */
  lemma TcpFrame(b: seq<Byte>, t: nat, u: nat)
    requires IsIp4(b) && b[23] == 6 && t == IpEnd(b) && t + 20 <= |b| && u == t + 4 * (b[t + 12] / 16)
    ensures Unpacked(b) == Some([Eth(EthAt(b)), Ip4(Ip4At(b, 14)), Tcp(TcpAt(b, t))]
                                + if u < |b| then [Raw(b[u..])] else [])
  {
    hide Parse, Decode, Unpacked, EthAt, Ip4At, TcpAt;
    IpStep(b);
    TcpStep(b, t);
    Behind(b, u);
    Third(b, Tcp(TcpAt(b, t)), Decode(KRaw, Rest(b, u)));
  }

  /** Protocol 17. */
  lemma UdpFrame(b: seq<Byte>, t: nat)
    requires IsIp4(b) && b[23] == 17 && t == IpEnd(b) && t + 8 <= |b|
    ensures Unpacked(b) == Some([Eth(EthAt(b)), Ip4(Ip4At(b, 14)), Udp(UdpAt(b, t))]
                                + if t + 8 < |b| then [Raw(b[t + 8..])] else [])
  {
    hide Parse, Decode, Unpacked, EthAt, Ip4At, UdpAt;
    IpStep(b);
    UdpStep(b, t);
    Behind(b, t + 8);
    Third(b, Udp(UdpAt(b, t)), Decode(KRaw, Rest(b, t + 8)));
  }

  /** The ICMP types that quote a packet: unreachable, source quench, redirect and time exceeded. */
  predicate Quoting(x: Byte) {
    x in [3, 4, 5, 11]
  }

  /** Protocol 1, an ICMP message that quotes nothing. */
  lemma IcmpFrame(b: seq<Byte>, t: nat)
    requires IsIp4(b) && b[23] == 1 && t == IpEnd(b) && t + 8 <= |b| && !Quoting(b[t])
    ensures Unpacked(b) == Some([Eth(EthAt(b)), Ip4(Ip4At(b, 14)), Icmp(IcmpAt(b, t))]
                                + if t + 8 < |b| then [Raw(b[t + 8..])] else [])
  {
    hide Parse, Decode, Unpacked, EthAt, Ip4At, IcmpAt;
    IpStep(b);
    IcmpStep(b, t);
    Behind(b, t + 8);
    Third(b, Icmp(IcmpAt(b, t)), Decode(KRaw, Rest(b, t + 8)));
  }

  /** Behind an ICMP error the quoted packet is decoded as it would be in a frame of its own. */
  lemma IcmpErrorFrame(b: seq<Byte>, t: nat, inner: seq<Byte>)
    requires IsIp4(b) && b[23] == 1 && t == IpEnd(b) && t + 8 <= |b| && Quoting(b[t])
    requires inner == b[..14] + b[t + 8..]
    ensures Unpacked(inner).None? ==> Unpacked(b).None?
    ensures Unpacked(inner).Some? ==>
              Unpacked(b) == Some([Eth(EthAt(b)), Ip4(Ip4At(b, 14)), Icmp(IcmpAt(b, t))] + Unpacked(inner).value[1..])
  {
    hide Parse, Decode, Unpacked, EthAt, Ip4At, IcmpAt;
    IpStep(b);
    IcmpStep(b, t);
    Third(b, Icmp(IcmpAt(b, t)), Decode(KIp4, Rest(b, t + 8)));
    EtherStep(inner);
    assert inner[14..] == b[t + 8..];
    assert inner[12] == 8 && inner[13] == 0;
    var o := Decode(KIp4, inner[14..]);
    if o.Some? {
      assert ([Eth(EthAt(inner))] + o.value)[1..] == o.value;
    }
  }

  /** What the two bytes of the type announce. */
  function EtherType(b: seq<Byte>): Kind
    requires |b| >= 14
  {
    if b[12] == 8 && b[13] == 0 then KIp4 else if b[12] == 8 && b[13] == 6 then KArp else KNone
  }

  lemma EtherStep(b: seq<Byte>)
    requires |b| >= 14
    ensures Unpacked(b) == Prepend([Eth(EthAt(b))], Decode(EtherType(b), b[14..]))
  {
    hide Parse, Decode;
    assert b[0..] == b;
    EthParsed(b);
    StepAt(KEth, b, 0, Eth(EthAt(b)));
  }

  /** Type 08 06. */
  lemma ArpFrame(b: seq<Byte>)
    requires |b| >= 22 && b[12] == 8 && b[13] == 6 && ArpEnd(b, 14) <= |b|
    ensures Unpacked(b) == Some([Eth(EthAt(b)), Arp(ArpAt(b, 14))])
  {
    hide Parse, Decode, Unpacked;
    EtherStep(b);
    ArpParsed(b, 14);
    StepAt(KArp, b, 14, Arp(ArpAt(b, 14)));
    DecodeNone(Rest(b, ArpEnd(b, 14)));
    PrependEmpty([Arp(ArpAt(b, 14))]);
    assert [Eth(EthAt(b))] + [Arp(ArpAt(b, 14))] == [Eth(EthAt(b)), Arp(ArpAt(b, 14))];
  }

  /** A frame that ends with its Ethernet header, or of any other type, is just that header. */
  lemma OtherFrame(b: seq<Byte>)
    requires |b| == 14 || (|b| > 14 && !(b[12] == 8 && (b[13] == 0 || b[13] == 6)))
    ensures Unpacked(b) == Some([Eth(EthAt(b))])
  {
    hide Parse, Decode, Unpacked;
    EtherStep(b);
    DecodeNone(b[14..]);
    DecodeEmpty(EtherType(b));
    assert |b| == 14 ==> b[14..] == [];
    PrependEmpty([Eth(EthAt(b))]);
  }

  /** Behind an IPv4 header that reaches to the end, or of any other protocol, nothing is decoded. */
  lemma OtherProtocol(b: seq<Byte>)
    requires IsIp4(b) && (IpEnd(b) >= |b| || (b[23] != 1 && b[23] != 6 && b[23] != 17))
    ensures Unpacked(b) == Some([Eth(EthAt(b)), Ip4(Ip4At(b, 14))])
  {
    hide Parse, Decode, Unpacked;
    IpStep(b);
    DecodeNone(Rest(b, IpEnd(b)));
    DecodeEmpty(Protocol(b[23]));
    assert IpEnd(b) >= |b| ==> Rest(b, IpEnd(b)) == [];
    PrependEmpty([Eth(EthAt(b)), Ip4(Ip4At(b, 14))]);
  }

  // ----- refused frames -------------------------------------------------------------------

  /** A cut or foreign IPv4 packet, or one whose payload is cut, down to the innermost quoted packet. */
  predicate RefusedIp4(p: seq<Byte>)
    decreases |p|
  {
    p != [] &&
    (|p| < 20 || p[0] / 16 != 4 ||
     var t := 4 * (p[0] % 16);
     t < |p| &&
     ((p[9] == 6 && |p| < t + 20)
      || (p[9] == 17 && |p| < t + 8)
      || (p[9] == 1 && (|p| < t + 8 || (Quoting(p[t]) && RefusedIp4(p[t + 8..]))))))
  }

  /** A frame that is refused: cut in a header, or with a packet that is not IPv4 where IPv4 is announced. */
  predicate Refused(b: seq<Byte>) {
    || |b| < 14
    || (b[12] == 8 && b[13] == 6 && |b| > 14 && (|b| < 22 || |b| < ArpEnd(b, 14)))
    || (b[12] == 8 && b[13] == 0 && RefusedIp4(b[14..]))
  }

  lemma ShortParse(k: Kind, p: seq<Byte>)
    requires k == KIp4 || k == KTcp || k == KUdp || k == KIcmp
    ensures Parse(k, p).None? <==> |p| < (if k == KIp4 || k == KTcp then 20 else 8) || (k == KIp4 && p[0] / 16 != 4)
  {
  }

  lemma UpperRefused(k: Kind, q: seq<Byte>)
    requires q != [] && (k == KTcp || k == KUdp)
    ensures Decode(k, q).None? <==> |q| < if k == KTcp then 20 else 8
  {
    hide Parse;
    ShortParse(k, q);
    if Parse(k, q).Some? {
      var l := Parse(k, q).value;
      DecodeStep(k, q, l, Rest(q, Skip(l)));
      Behind(q, Skip(l));
    }
  }

  lemma {:induction false} Ip4RefusedIff(p: seq<Byte>)
    ensures Decode(KIp4, p).None? <==> RefusedIp4(p)
    decreases |p|
  {
    if p != [] && |p| >= 20 && p[0] / 16 == 4 {
      hide Parse, Decode;
      var t := 4 * (p[0] % 16);
      var q := Rest(p, t);
      PacketStep(p, q);
      DecodeNone(q);
      if t < |p| {
        if p[9] == 6 || p[9] == 17 {
          UpperRefused(Protocol(p[9]), q);
        } else if p[9] == 1 {
          MessageRefusedIff(q);
        }
      } else {
        DecodeEmpty(Protocol(p[9]));
      }
    } else {
      ShortParse(KIp4, p);
    }
  }

  lemma {:induction false} MessageRefusedIff(q: seq<Byte>)
    requires q != []
    ensures Decode(KIcmp, q).None? <==> |q| < 8 || (Quoting(q[0]) && RefusedIp4(q[8..]))
    decreases |q|, 0
  {
    hide Parse, Decode, RefusedIp4;
    ShortParse(KIcmp, q);
    if |q| >= 8 {
      MessageStep(q);
      if Quoting(q[0]) {
        Ip4RefusedIff(q[8..]);
      } else {
        Behind(q, 8);
      }
    } else {
      DecodeFails(KIcmp, q);
    }
  }

  lemma DecodeFails(k: Kind, q: seq<Byte>)
    requires q != [] && k != KNone && Parse(k, q).None?
    ensures Decode(k, q).None?
  {
  }

  lemma PacketStep(p: seq<Byte>, q: seq<Byte>)
    requires |p| >= 20 && p[0] / 16 == 4 && q == Rest(p, 4 * (p[0] % 16))
    ensures Decode(KIp4, p) == Prepend([Ip4(Ip4At(p, 0))], Decode(Protocol(p[9]), q))
  {
    hide Parse, Decode;
    assert p[0..] == p;
    Ip4Parsed(p, 0);
    StepAt(KIp4, p, 0, Ip4(Ip4At(p, 0)));
  }

  lemma MessageStep(q: seq<Byte>)
    requires |q| >= 8
    ensures Decode(KIcmp, q) == Prepend([Icmp(IcmpAt(q, 0))], Decode(if Quoting(q[0]) then KIp4 else KRaw, q[8..]))
  {
    hide Parse, Decode;
    assert q[0..] == q;
    IcmpParsed(q, 0);
    StepAt(KIcmp, q, 0, Icmp(IcmpAt(q, 0)));
  }

  /** Exactly which frames pkt_unpack refuses. */
  lemma RefusedIff(b: seq<Byte>)
    ensures Unpacked(b).None? <==> Refused(b)
  {
    if |b| >= 14 {
      hide Unpacked, Decode, Parse;
      EtherStep(b);
      DecodeNone(b[14..]);
      if b[12] == 8 && b[13] == 0 {
        Ip4RefusedIff(b[14..]);
      } else if b[12] == 8 && b[13] == 6 {
        ArpRefusedIff(b);
      }
    }
  }

  lemma ArpRefusedIff(b: seq<Byte>)
    requires |b| >= 14
    ensures Decode(KArp, b[14..]).None? <==> |b| > 14 && (|b| < 22 || |b| < ArpEnd(b, 14))
  {
    if |b| >= 22 && ArpEnd(b, 14) <= |b| {
      hide Decode, Parse;
      ArpParsed(b, 14);
      StepAt(KArp, b, 14, Arp(ArpAt(b, 14)));
      DecodeNone(Rest(b, ArpEnd(b, 14)));
    } else {
      ArpCut(b[14..]);
    }
  }

  lemma ArpCut(q: seq<Byte>)
    requires |q| < 8 || |q| < ArpEnd(q, 0)
    ensures Decode(KArp, q).None? <==> q != []
  {
  }
}
