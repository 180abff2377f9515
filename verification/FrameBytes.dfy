/**
Packed frames in numbers: which byte of the finished buffer holds which field of which layer, and
the lengths and type numbers that pkt_pack fills in. The checksum fields are in Checksums.
*/
module FrameBytes {
  import opened Words
  import opened Headers
  import opened Encode
  import opened Checksums
  import opened Frames

  /** b is what pkt_pack writes for the stack, and layer k starts at at in it. */
  predicate PackedAt(ls: seq<Layer>, was: seq<Byte>, k: nat, b: seq<Byte>, at: nat) {
    && AllBuilt(ls) && PackedLength(ls, |ls|) <= |was| && k < |ls|
    && b == PackedBytes(ls, was) && at + PackedLength(ls, k + 1) == |b|
  }

  /** s is l with its checksum, and with these reserved bits if it is a TCP header. */
  predicate SameFields(s: Layer, l: Layer, stale: U3) {
    match l
    case Ip4(h) => s.Ip4? && s.ip4 == h.(chksum := s.ip4.chksum)
    case Icmp(h) => s.Icmp? && s.icmp == h.(chksum := s.icmp.chksum)
    case Udp(h) => s.Udp? && s.udp == h.(chksum := s.udp.chksum)
    case Tcp(h) => s.Tcp? && s.tcp == h.(chksum := s.tcp.chksum, res := stale)
    case _ => s == l
  }

  lemma SealKeepsFields(l: Layer, below: Option<Layer>, above: seq<Byte>, stale: U3)
    requires Built(l)
    ensures SameFields(Seal(l, below, above, stale), l, stale)
  {
  }

  /** The bytes of layer k are the wire form of the layer as it is sealed. */
  lemma LayerBytes(ls: seq<Layer>, was: seq<Byte>, k: nat, b: seq<Byte>, at: nat) returns (l: Layer)
    requires PackedAt(ls, was, k, b, at)
    ensures Built(l) && Length(l) == Length(ls[k]) && at + Length(l) <= |b| <= |was|
    ensures b[at..at + Length(l)] == Wire(l)
    ensures SameFields(l, FilledAt(ls, k), if ls[k].Tcp? then (was[at + 12] / 2) % 8 else 0)
  {
    hide Wire, Seal, Encoded, Fill, SameFields;
    FilledIsBuilt(ls);
    FillKeepsLength(ls, |ls|, k + 1);
    FilledKind(ls, k);
    var out := Filled(ls);
    TailBytes(out, k, was, at);
    l := SealedAt(out, k, was);
    var above := Encoded(out, k, was);
    EncodedStep(out, k, was, Wire(l), above);
    FrontOf(b, at, Wire(l), above);
    SealKeepsFields(FilledAt(ls, k), Below(out, k), above, Stale(out, k, was));
  }

  lemma FrontOf(b: seq<Byte>, at: nat, w: seq<Byte>, above: seq<Byte>)
    requires at <= |b| && b[at..] == w + above
    ensures at + |w| <= |b| && b[at..at + |w|] == w
  {
    assert b[at..at + |w|] == b[at..][..|w|];
  }

  lemma Front(b: seq<Byte>, at: nat, w: seq<Byte>)
    requires at + |w| <= |b| && b[at..at + |w|] == w
    ensures forall i :: 0 <= i < |w| ==> b[at + i] == w[i]
    ensures forall i, j :: 0 <= i <= j <= |w| ==> b[at + i..at + j] == w[i..j]
  {
    forall i | 0 <= i < |w| ensures b[at + i] == w[i] {
      assert b[at..at + |w|][i] == w[i];
    }
    forall i, j | 0 <= i <= j <= |w| ensures b[at + i..at + j] == w[i..j] {
      assert b[at..at + |w|][i..j] == b[at + i..at + j];
    }
  }

  /** The kind of the layer above, or none. */
  predicate CarriesKind(ls: seq<Layer>, k: nat, kind: Kind)
    requires k < |ls|
  {
    k > 0 && KindOf(ls[k - 1]) == kind
  }

  // ----- one layer ------------------------------------------------------------------------

  lemma EthWire(h: EthHdr, w: seq<Byte>)
    requires w == Wire(Eth(h))
    ensures w[0..6] == h.dst && w[6..12] == h.src && Be16(w, 12) == h.kind
  {
  }

  lemma ArpWire(h: ArpHdr, w: seq<Byte>)
    requires Built(Arp(h)) && w == Wire(Arp(h))
    ensures Be16(w, 0) == h.hwtype && Be16(w, 2) == h.ptype && w[4] == h.hwlen && w[5] == h.plen && Be16(w, 6) == h.op
    ensures w[8..] == h.hwsrc + h.psrc + h.hwdst + h.pdst
  {
  }

  lemma Ip4Wire(h: Ip4Hdr, w: seq<Byte>)
    requires w == Wire(Ip4(h))
    ensures w[0] / 16 == h.version && w[0] % 16 == h.ihl && w[1] == h.tos && Be16(w, 2) == h.len
    ensures Be16(w, 4) == h.id && Be16(w, 6) == h.fragOff && w[8] == h.ttl && w[9] == h.proto
    ensures w[12..16] == h.src && w[16..20] == h.dst
  {
  }

  lemma IcmpWire(h: IcmpHdr, w: seq<Byte>)
    requires w == Wire(Icmp(h))
    ensures w[0] == h.kind && w[1] == h.code && Be16(w, 4) == h.id && Be16(w, 6) == h.number
  {
  }

  lemma UdpWire(h: UdpHdr, w: seq<Byte>)
    requires w == Wire(Udp(h))
    ensures Be16(w, 0) == h.sport && Be16(w, 2) == h.dport && Be16(w, 4) == h.len
  {
  }

  /** The flags in one byte, by their weights. */
  function FlagSum(f: Flags): int {
    Bit(f.fin) + 2 * Bit(f.syn) + 4 * Bit(f.rst) + 8 * Bit(f.psh)
    + 16 * Bit(f.ack) + 32 * Bit(f.urg) + 64 * Bit(f.ece) + 128 * Bit(f.cwr)
  }

  lemma Net32(w: seq<Byte>, i: nat, x: U32)
    requires i + 4 <= |w|
    requires w[i] == Hi(Upper(x)) && w[i + 1] == Lo(Upper(x)) && w[i + 2] == Hi(Lower(x)) && w[i + 3] == Lo(Lower(x))
    ensures Be32(w, i) == x
  {
  }

  lemma TcpWire(h: TcpHdr, w: seq<Byte>)
    requires w == Wire(Tcp(h))
    ensures Be16(w, 0) == h.sport && Be16(w, 2) == h.dport && Be32(w, 4) == h.number && Be32(w, 8) == h.ackNumber
    ensures w[12] / 16 == h.doff && (w[12] / 2) % 8 == h.res && w[12] % 2 == Bit(h.ns)
    ensures w[13] == FlagSum(h.flags) && Be16(w, 14) == h.window && Be16(w, 18) == h.urgPtr
  {
    hide Be32;
    Net32(w, 4, h.number);
    Net32(w, 8, h.ackNumber);
    assert w[12] == OffsetByte(h);
    OffsetInverts(h);
  }

  // ----- in the finished buffer ---------------------------------------------------------

  /** The type is 08 06 below ARP and 08 00 below IPv4, and otherwise what the caller put there. */
  lemma EthBytes(ls: seq<Layer>, was: seq<Byte>, k: nat, b: seq<Byte>, at: nat)
    requires PackedAt(ls, was, k, b, at) && ls[k].Eth?
    ensures at + 14 <= |b| && b[at..at + 6] == ls[k].eth.dst && b[at + 6..at + 12] == ls[k].eth.src
    ensures Be16(b, at + 12)
         == if CarriesKind(ls, k, KArp) then 0x0806 else if CarriesKind(ls, k, KIp4) then 0x0800 else ls[k].eth.kind
  {
    hide PackedAt, Wire;
    var l := LayerBytes(ls, was, k, b, at);
    Front(b, at, Wire(l));
    EthWire(l.eth, Wire(l));
  }

  lemma ArpBytes(ls: seq<Layer>, was: seq<Byte>, k: nat, b: seq<Byte>, at: nat)
    requires PackedAt(ls, was, k, b, at) && ls[k].Arp?
    ensures var h := ls[k].arp; var end := at + 8 + 2 * |h.hwsrc| + 2 * |h.psrc|;
            && end <= |b| && Be16(b, at) == h.hwtype && Be16(b, at + 2) == h.ptype
            && b[at + 4] == h.hwlen && b[at + 5] == h.plen && Be16(b, at + 6) == h.op
            && b[at + 8..end] == h.hwsrc + h.psrc + h.hwdst + h.pdst
  {
    hide PackedAt, Wire;
    var l := LayerBytes(ls, was, k, b, at);
    Front(b, at, Wire(l));
    ArpWire(l.arp, Wire(l));
    var w := Wire(l);
    assert w[8..] == w[8..|w|];
  }

  /**
  The length counts everything from the header to the end of the frame, in 16 bits; the protocol is
  1, 17 or 6 below ICMP, UDP or TCP, and otherwise what the caller put there.
  */
  lemma Ip4Bytes(ls: seq<Layer>, was: seq<Byte>, k: nat, b: seq<Byte>, at: nat)
    requires PackedAt(ls, was, k, b, at) && ls[k].Ip4?
    ensures at + 20 <= |b|
    ensures var h := ls[k].ip4;
            && b[at] / 16 == h.version && b[at] % 16 == h.ihl && b[at + 1] == h.tos
            && Be16(b, at + 2) == (|b| - at) % TWO16 && Be16(b, at + 4) == h.id && Be16(b, at + 6) == h.fragOff
            && b[at + 8] == h.ttl && b[at + 12..at + 16] == h.src && b[at + 16..at + 20] == h.dst
            && b[at + 9] == if CarriesKind(ls, k, KIcmp) then 1 else if CarriesKind(ls, k, KUdp) then 17
                            else if CarriesKind(ls, k, KTcp) then 6 else h.proto
  {
    hide Wire, PackedBytes, PackedLength;
    var l := LayerBytes(ls, was, k, b, at);
    Front(b, at, Wire(l));
    Ip4Wire(l.ip4, Wire(l));
  }

  lemma IcmpBytes(ls: seq<Layer>, was: seq<Byte>, k: nat, b: seq<Byte>, at: nat)
    requires PackedAt(ls, was, k, b, at) && ls[k].Icmp?
    ensures at + 8 <= |b|
    ensures var h := ls[k].icmp;
            b[at] == h.kind && b[at + 1] == h.code && Be16(b, at + 4) == h.id && Be16(b, at + 6) == h.number
  {
    hide PackedAt, Wire;
    var l := LayerBytes(ls, was, k, b, at);
    Front(b, at, Wire(l));
    IcmpWire(l.icmp, Wire(l));
  }

  /** The UDP length counts everything from the header to the end of the frame, in 16 bits. */
  lemma UdpBytes(ls: seq<Layer>, was: seq<Byte>, k: nat, b: seq<Byte>, at: nat)
    requires PackedAt(ls, was, k, b, at) && ls[k].Udp?
    ensures at + 8 <= |b|
    ensures Be16(b, at) == ls[k].udp.sport && Be16(b, at + 2) == ls[k].udp.dport
    ensures Be16(b, at + 4) == (|b| - at) % TWO16
  {
    hide Wire, PackedBytes, PackedLength;
    var l := LayerBytes(ls, was, k, b, at);
    Front(b, at, Wire(l));
    UdpWire(l.udp, Wire(l));
  }

  /** The three reserved bits keep what the buffer held. */
  lemma TcpBytes(ls: seq<Layer>, was: seq<Byte>, k: nat, b: seq<Byte>, at: nat)
    requires PackedAt(ls, was, k, b, at) && ls[k].Tcp?
    ensures at + 20 <= |b| <= |was|
    ensures var h := ls[k].tcp;
            && Be16(b, at) == h.sport && Be16(b, at + 2) == h.dport
            && Be32(b, at + 4) == h.number && Be32(b, at + 8) == h.ackNumber
            && b[at + 12] / 16 == h.doff && b[at + 12] % 2 == Bit(h.ns)
            && (b[at + 12] / 2) % 8 == (was[at + 12] / 2) % 8
            && b[at + 13] == FlagSum(h.flags) && Be16(b, at + 14) == h.window && Be16(b, at + 18) == h.urgPtr
  {
    hide PackedAt, Wire;
    var l := LayerBytes(ls, was, k, b, at);
    Front(b, at, Wire(l));
    TcpWire(l.tcp, Wire(l));
  }

  lemma RawBytes(ls: seq<Layer>, was: seq<Byte>, k: nat, b: seq<Byte>, at: nat)
    requires PackedAt(ls, was, k, b, at) && ls[k].Raw?
    ensures at + |ls[k].payload| <= |b| && b[at..at + |ls[k].payload|] == ls[k].payload
  {
    hide PackedAt;
    var l := LayerBytes(ls, was, k, b, at);
  }
}
