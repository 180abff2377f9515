/** The protocol headers, their wire form, and the decoder of each layer. */
module Headers {
  import opened Words

  datatype Option<+T> = None | Some(value: T)

  type Mac = s: seq<Byte> | |s| == 6 witness [0, 0, 0, 0, 0, 0]

  /** An IPv4 address as its four bytes in network order, which is how the structs keep it. */
  type Addr = s: seq<Byte> | |s| == 4 witness [0, 0, 0, 0]

  type U3 = x: int | 0 <= x < 8

  datatype EthHdr = EthHdr(dst: Mac, src: Mac, kind: U16)

  datatype ArpHdr = ArpHdr(
    hwtype: U16, ptype: U16, hwlen: Byte, plen: Byte, op: U16,
    hwsrc: seq<Byte>, psrc: seq<Byte>, hwdst: seq<Byte>, pdst: seq<Byte>)

  datatype Ip4Hdr = Ip4Hdr(
    version: U4, ihl: U4, tos: Byte, len: U16, id: U16, fragOff: U16,
    ttl: Byte, proto: Byte, chksum: U16, src: Addr, dst: Addr)

  datatype IcmpHdr = IcmpHdr(kind: Byte, code: Byte, chksum: U16, id: U16, number: U16)

  datatype UdpHdr = UdpHdr(sport: U16, dport: U16, len: U16, chksum: U16)

  datatype Flags = Flags(
    fin: bool, syn: bool, rst: bool, psh: bool, ack: bool, urg: bool, ece: bool, cwr: bool)

  datatype TcpHdr = TcpHdr(
    sport: U16, dport: U16, number: U32, ackNumber: U32, doff: U4, res: U3, ns: bool, flags: Flags,
    window: U16, chksum: U16, urgPtr: U16)

  /** One layer of a packet: the type tag and the union of struct pkt. */
  datatype Layer =
    | Eth(eth: EthHdr)
    | Arp(arp: ArpHdr)
    | Ip4(ip4: Ip4Hdr)
    | Icmp(icmp: IcmpHdr)
    | Udp(udp: UdpHdr)
    | Tcp(tcp: TcpHdr)
    | Raw(payload: seq<Byte>)

  datatype Kind = KNone | KEth | KArp | KIp4 | KIcmp | KUdp | KTcp | KRaw

  function KindOf(l: Layer): Kind {
    match l
    case Eth(_) => KEth
    case Arp(_) => KArp
    case Ip4(_) => KIp4
    case Icmp(_) => KIcmp
    case Udp(_) => KUdp
    case Tcp(_) => KTcp
    case Raw(_) => KRaw
  }

  const ETHERTYPE_IP: U16 := 0x0800
  const ETHERTYPE_ARP: U16 := 0x0806
  const PROTO_ICMP: Byte := 0x01
  const PROTO_TCP: Byte := 0x06
  const PROTO_UDP: Byte := 0x11

  /** ICMP errors quote the packet that caused them. */
  predicate QuotesPacket(kind: Byte) {
    kind == 3 || kind == 4 || kind == 5 || kind == 11
  }

  /** What the decoder of a layer says comes next. */
  function NextKind(l: Layer): Kind {
    match l
    case Eth(h) =>
      if h.kind == ETHERTYPE_ARP then KArp else if h.kind == ETHERTYPE_IP then KIp4 else KNone
    case Arp(_) => KNone
    case Ip4(h) =>
      if h.proto == PROTO_ICMP then KIcmp
      else if h.proto == PROTO_UDP then KUdp
      else if h.proto == PROTO_TCP then KTcp
      else KNone
    case Icmp(h) => if QuotesPacket(h.kind) then KIp4 else KRaw
    case Udp(_) => KRaw
    case Tcp(_) => KRaw
    case Raw(_) => KNone
  }

  /** How far the decoder moves on: header lengths are taken from the wire. */
  function Skip(l: Layer): nat {
    match l
    case Eth(_) => 14
    case Arp(h) => 8 + 2 * h.hwlen + 2 * h.plen
    case Ip4(h) => 4 * h.ihl
    case Icmp(_) => 8
    case Udp(_) => 8
    case Tcp(h) => 4 * h.doff
    case Raw(payload) => |payload|
  }

  /** How many bytes the packer writes: the length that pkt_new and the setters store. */
  function Length(l: Layer): nat {
    match l
    case Eth(_) => 14
    case Arp(h) => 8 + 2 * h.hwlen + 2 * h.plen
    case Ip4(_) => 20
    case Icmp(_) => 8
    case Udp(_) => 8
    case Tcp(_) => 20
    case Raw(payload) => |payload|
  }

  /** An ARP layer has addresses of the lengths it announces. */
  predicate Built(l: Layer) {
    l.Arp? ==> |l.arp.hwsrc| == |l.arp.hwdst| == l.arp.hwlen && |l.arp.psrc| == |l.arp.pdst| == l.arp.plen
  }

  // ----- wire form ----------------------------------------------------------------

  function Hi(x: U16): Byte {
    x / TWO8
  }

  function Lo(x: U16): Byte {
    x % TWO8
  }

  /** The two 16-bit words of a 32-bit value. */
  function Upper(x: U32): U16 {
    x / TWO16
  }

  function Lower(x: U32): U16 {
    x % TWO16
  }

  function Bit(b: bool): int {
    if b then 1 else 0
  }

  /** The eight flags, the first one in the lowest bit. */
  function FlagByte(f: Flags): (r: Byte) {
    Bit(f.fin) + 2 * (Bit(f.syn) + 2 * (Bit(f.rst) + 2 * (Bit(f.psh)
    + 2 * (Bit(f.ack) + 2 * (Bit(f.urg) + 2 * (Bit(f.ece) + 2 * Bit(f.cwr)))))))
  }

  function OffsetByte(h: TcpHdr): (r: Byte) {
    16 * h.doff + 2 * h.res + Bit(h.ns)
  }

  // The fixed part of each header, byte by byte.

  function ArpByte(h: ArpHdr, i: nat): Byte
    requires i < 8
  {
    match i
    case 0 => Hi(h.hwtype)
    case 1 => Lo(h.hwtype)
    case 2 => Hi(h.ptype)
    case 3 => Lo(h.ptype)
    case 4 => h.hwlen
    case 5 => h.plen
    case 6 => Hi(h.op)
    case _ => Lo(h.op)
  }

  function Ip4Byte(h: Ip4Hdr, i: nat): Byte
    requires i < 12
  {
    match i
    case 0 => 16 * h.version + h.ihl
    case 1 => h.tos
    case 2 => Hi(h.len)
    case 3 => Lo(h.len)
    case 4 => Hi(h.id)
    case 5 => Lo(h.id)
    case 6 => Hi(h.fragOff)
    case 7 => Lo(h.fragOff)
    case 8 => h.ttl
    case 9 => h.proto
    case 10 => Hi(h.chksum)
    case _ => Lo(h.chksum)
  }

  function IcmpByte(h: IcmpHdr, i: nat): Byte
    requires i < 8
  {
    match i
    case 0 => h.kind
    case 1 => h.code
    case 2 => Hi(h.chksum)
    case 3 => Lo(h.chksum)
    case 4 => Hi(h.id)
    case 5 => Lo(h.id)
    case 6 => Hi(h.number)
    case _ => Lo(h.number)
  }

  function UdpByte(h: UdpHdr, i: nat): Byte
    requires i < 8
  {
    match i
    case 0 => Hi(h.sport)
    case 1 => Lo(h.sport)
    case 2 => Hi(h.dport)
    case 3 => Lo(h.dport)
    case 4 => Hi(h.len)
    case 5 => Lo(h.len)
    case 6 => Hi(h.chksum)
    case _ => Lo(h.chksum)
  }

  function TcpByte(h: TcpHdr, i: nat): Byte
    requires i < 20
  {
    match i
    case 0 => Hi(h.sport)
    case 1 => Lo(h.sport)
    case 2 => Hi(h.dport)
    case 3 => Lo(h.dport)
    case 4 => Hi(Upper(h.number))
    case 5 => Lo(Upper(h.number))
    case 6 => Hi(Lower(h.number))
    case 7 => Lo(Lower(h.number))
    case 8 => Hi(Upper(h.ackNumber))
    case 9 => Lo(Upper(h.ackNumber))
    case 10 => Hi(Lower(h.ackNumber))
    case 11 => Lo(Lower(h.ackNumber))
    case 12 => OffsetByte(h)
    case 13 => FlagByte(h.flags)
    case 14 => Hi(h.window)
    case 15 => Lo(h.window)
    case 16 => Hi(h.chksum)
    case 17 => Lo(h.chksum)
    case 18 => Hi(h.urgPtr)
    case _ => Lo(h.urgPtr)
  }

  function Wire(l: Layer): (s: seq<Byte>)
    requires Built(l)
    ensures |s| == Length(l)
  {
    match l
    case Eth(h) => h.dst + h.src + [Hi(h.kind), Lo(h.kind)]
    case Arp(h) => seq(8, i requires 0 <= i < 8 => ArpByte(h, i)) + h.hwsrc + h.psrc + h.hwdst + h.pdst
    case Ip4(h) => seq(12, i requires 0 <= i < 12 => Ip4Byte(h, i)) + h.src + h.dst
    case Icmp(h) => seq(8, i requires 0 <= i < 8 => IcmpByte(h, i))
    case Udp(h) => seq(8, i requires 0 <= i < 8 => UdpByte(h, i))
    case Tcp(h) => seq(20, i requires 0 <= i < 20 => TcpByte(h, i))
    case Raw(payload) => payload
  }

  // ----- decoders -----------------------------------------------------------------

  function U16At(b: seq<Byte>, i: nat): U16
    requires i + 2 <= |b|
  {
    TWO8 * b[i] + b[i + 1]
  }

  function U32At(b: seq<Byte>, i: nat): U32
    requires i + 4 <= |b|
  {
    TWO16 * U16At(b, i) + U16At(b, i + 2)
  }

  function FlagsOf(x: Byte): Flags {
    var x1 := x / 2;
    var x2 := x1 / 2;
    var x3 := x2 / 2;
    var x4 := x3 / 2;
    var x5 := x4 / 2;
    var x6 := x5 / 2;
    Flags(x % 2 == 1, x1 % 2 == 1, x2 % 2 == 1, x3 % 2 == 1, x4 % 2 == 1, x5 % 2 == 1, x6 % 2 == 1, x6 / 2 == 1)
  }

  function ParseEth(b: seq<Byte>): Option<Layer> {
    if |b| < 14 then None else Some(Eth(EthHdr(b[0..6], b[6..12], U16At(b, 12))))
  }

  function ParseArp(b: seq<Byte>): Option<Layer> {
    if |b| < 8 then None
    else
      var hw: nat, pl: nat := b[4], b[5];
      if |b| < 8 + 2 * hw + 2 * pl then None
      else
        Some(Arp(ArpHdr(U16At(b, 0), U16At(b, 2), hw, pl, U16At(b, 6),
          b[8..8 + hw], b[8 + hw..8 + hw + pl],
          b[8 + hw + pl..8 + 2 * hw + pl], b[8 + 2 * hw + pl..8 + 2 * hw + 2 * pl])))
  }

  function ParseIp4(b: seq<Byte>): Option<Layer> {
    if |b| < 20 then None
    else if b[0] / 16 != 4 then None
    else
      Some(Ip4(Ip4Hdr(b[0] / 16, b[0] % 16, b[1], U16At(b, 2), U16At(b, 4), U16At(b, 6),
        b[8], b[9], U16At(b, 10), b[12..16], b[16..20])))
  }

  function ParseIcmp(b: seq<Byte>): Option<Layer> {
    if |b| < 8 then None
    else Some(Icmp(IcmpHdr(b[0], b[1], U16At(b, 2), U16At(b, 4), U16At(b, 6))))
  }

  function ParseUdp(b: seq<Byte>): Option<Layer> {
    if |b| < 8 then None
    else Some(Udp(UdpHdr(U16At(b, 0), U16At(b, 2), U16At(b, 4), U16At(b, 6))))
  }

  function ParseTcp(b: seq<Byte>): Option<Layer> {
    if |b| < 20 then None
    else
      Some(Tcp(TcpHdr(U16At(b, 0), U16At(b, 2), U32At(b, 4), U32At(b, 8),
        b[12] / 16, (b[12] / 2) % 8, b[12] % 2 == 1, FlagsOf(b[13]),
        U16At(b, 14), U16At(b, 16), U16At(b, 18))))
  }

  /** The decoder for the expected kind, applied to the rest of the buffer; None is the error return. */
  function Parse(k: Kind, b: seq<Byte>): (r: Option<Layer>)
    requires k != KNone
    ensures r.Some? ==> KindOf(r.value) == k && Built(r.value)
  {
    match k
    case KEth => ParseEth(b)
    case KArp => ParseArp(b)
    case KIp4 => ParseIp4(b)
    case KIcmp => ParseIcmp(b)
    case KUdp => ParseUdp(b)
    case KTcp => ParseTcp(b)
    case KRaw => Some(Raw(b))
  }

  // ----- each decoder inverts its encoder ------------------------------------------

  lemma FlagsInvert(f: Flags)
    ensures FlagsOf(FlagByte(f)) == f
  {
    var x6 := Bit(f.ece) + 2 * Bit(f.cwr);
    var x5 := Bit(f.urg) + 2 * x6;
    var x4 := Bit(f.ack) + 2 * x5;
    var x3 := Bit(f.psh) + 2 * x4;
    var x2 := Bit(f.rst) + 2 * x3;
    var x1 := Bit(f.syn) + 2 * x2;
    LowBit(f.fin, x1);
    LowBit(f.syn, x2);
    LowBit(f.rst, x3);
    LowBit(f.psh, x4);
    LowBit(f.ack, x5);
    LowBit(f.urg, x6);
    LowBit(f.ece, Bit(f.cwr));
  }

  lemma LowBit(b: bool, x: int)
    ensures (Bit(b) + 2 * x) % 2 == Bit(b) && (Bit(b) + 2 * x) / 2 == x
  {
  }

  lemma OffsetInverts(h: TcpHdr)
    ensures OffsetByte(h) / 16 == h.doff && (OffsetByte(h) / 2) % 8 == h.res && OffsetByte(h) % 2 == Bit(h.ns)
  {
    LowBit(h.ns, 8 * h.doff + h.res);
  }

  lemma U32Inverts(b: seq<Byte>, i: nat, x: U32)
    requires i + 4 <= |b|
    requires b[i] == Hi(Upper(x)) && b[i + 1] == Lo(Upper(x)) && b[i + 2] == Hi(Lower(x)) && b[i + 3] == Lo(Lower(x))
    ensures U32At(b, i) == x
  {
  }

  lemma TcpNumbers(h: TcpHdr, b: seq<Byte>)
    requires |b| >= 20 && b[..20] == Wire(Tcp(h))
    ensures U32At(b, 4) == h.number && U32At(b, 8) == h.ackNumber
  {
    assert forall i :: 0 <= i < 20 ==> b[i] == b[..20][i];
    U32Inverts(b, 4, h.number);
    U32Inverts(b, 8, h.ackNumber);
  }

  lemma TcpInverts(h: TcpHdr, rest: seq<Byte>)
    ensures ParseTcp(Wire(Tcp(h)) + rest) == Some(Tcp(h))
  {
    var b := Wire(Tcp(h)) + rest;
    assert b[..20] == Wire(Tcp(h));
    FlagsInvert(h.flags);
    OffsetInverts(h);
    TcpNumbers(h, b);
    assert FlagsOf(b[13]) == h.flags;
    assert b[12] == OffsetByte(h);
  }

  lemma Ip4Inverts(h: Ip4Hdr, rest: seq<Byte>)
    ensures ParseIp4(Wire(Ip4(h)) + rest) == if h.version == 4 then Some(Ip4(h)) else None
  {
    var b := Wire(Ip4(h)) + rest;
    assert b[0] == 16 * h.version + h.ihl;
    assert b[12..16] == h.src && b[16..20] == h.dst;
  }

  lemma ArpInverts(h: ArpHdr, rest: seq<Byte>)
    requires Built(Arp(h))
    ensures ParseArp(Wire(Arp(h)) + rest) == Some(Arp(h))
  {
    var b := Wire(Arp(h)) + rest;
    var hw: nat, pl: nat := h.hwlen, h.plen;
    assert b[8..8 + hw] == h.hwsrc;
    assert b[8 + hw..8 + hw + pl] == h.psrc;
    assert b[8 + hw + pl..8 + 2 * hw + pl] == h.hwdst;
    assert b[8 + 2 * hw + pl..8 + 2 * hw + 2 * pl] == h.pdst;
  }

  lemma EthInverts(h: EthHdr, rest: seq<Byte>)
    ensures ParseEth(Wire(Eth(h)) + rest) == Some(Eth(h))
  {
    var b := Wire(Eth(h)) + rest;
    assert b[0..6] == h.dst && b[6..12] == h.src;
  }

  /** Decoding what a layer encodes to gives the layer back, whatever follows it. */
  lemma ParseWire(l: Layer, rest: seq<Byte>)
    requires Built(l) && (l.Raw? ==> rest == [])
    ensures Parse(KindOf(l), Wire(l) + rest)
         == if l.Ip4? && l.ip4.version != 4 then None else Some(l)
  {
    match l
    case Eth(h) => EthInverts(h, rest);
    case Arp(h) => ArpInverts(h, rest);
    case Ip4(h) => Ip4Inverts(h, rest);
    case Icmp(h) =>
    case Udp(h) =>
    case Tcp(h) => TcpInverts(h, rest);
    case Raw(payload) => assert payload + rest == payload;
  }
}
