/** Every checksum that pkt_pack writes verifies in the finished buffer, at any nesting depth. */
module Checksums {
  import opened Words
  import opened Headers
  import opened Chksum
  import opened Encode

  lemma SwapStored(c: U16)
    ensures Hi(Swap16(c)) == c % TWO8 && Lo(Swap16(c)) == c / TWO8
  {
  }

  predicate EvenLength(s: seq<Byte>) {
    |s| % 2 == 0
  }

  /** Bytes with a zero checksum field at an even offset verify once the checksum is stored there. */
  lemma StoredVerifies(pseudo: seq<Byte>, w: seq<Byte>, o: nat, above: seq<Byte>)
    requires EvenLength(pseudo) && o % 2 == 0 && o + 2 <= |w| && w[o] == 0 == w[o + 1]
    ensures var x := Checksum(pseudo, w + above);
            Sealed(pseudo + (w[o := Hi(x)][o + 1 := Lo(x)] + above), |pseudo| + o)
  {
    hide Verifies, LeSum, BeSum, Fold;
    var x := Checksum(pseudo, w + above);
    var before, after := pseudo + w[..o], w[o + 2..] + above;
    var zeroed := before + [0, 0] + after;
    assert zeroed == pseudo + (w + above);
    LeSumConcat(pseudo, w + above);
    SwapStored(0xFFFF - Fold(LeSum(zeroed)));
    assert [Hi(x), Lo(x)] == StoredBytes(zeroed);
    SealedVerifies(before, after);
    StoredInPlace(pseudo, w, o, above, Hi(x), Lo(x));
    StoredBytesAreNetworkOrder(zeroed);
    ZeroAgain(pseudo, w, o, above, Hi(x), Lo(x));
  }

  lemma StoredInPlace(pseudo: seq<Byte>, w: seq<Byte>, o: nat, above: seq<Byte>, x: Byte, y: Byte)
    requires o + 2 <= |w|
    ensures (pseudo + w[..o]) + [x, y] + (w[o + 2..] + above) == pseudo + (w[o := x][o + 1 := y] + above)
  {
  }

  lemma ZeroAgain(pseudo: seq<Byte>, w: seq<Byte>, o: nat, above: seq<Byte>, x: Byte, y: Byte)
    requires o + 2 <= |w| && w[o] == 0 == w[o + 1]
    ensures var s, i := pseudo + (w[o := x][o + 1 := y] + above), |pseudo| + o;
            s[i] == x && s[i + 1] == y && s[i := 0][i + 1 := 0] == pseudo + (w + above)
  {
  }

  /** Where the checksum field of a layer is. */
  function ChecksumOffset(l: Layer): nat
    requires l.Ip4? || l.Icmp? || l.Udp? || l.Tcp?
  {
    if l.Ip4? then 10 else if l.Icmp? then 2 else if l.Udp? then 6 else 16
  }

  lemma OffsetEven(l: Layer)
    requires l.Ip4? || l.Icmp? || l.Udp? || l.Tcp?
    ensures ChecksumOffset(l) % 2 == 0
  {
  }

  /** Sealing a layer stores the checksum into its first-written bytes. */
  lemma SealStores(l: Layer, below: Option<Layer>, above: seq<Byte>, stale: U3, x: U16)
    requires l.Ip4? || l.Icmp? || l.Udp? || l.Tcp?
    requires x == Checksum(if l.Ip4? || l.Icmp? then [] else Pseudo(below),
                           Wire(Unsealed(l, stale)) + (if l.Ip4? then [] else above))
    ensures var w, o := Wire(Unsealed(l, stale)), ChecksumOffset(l);
            && o + 2 <= |w| && w[o] == 0 == w[o + 1]
            && Wire(Seal(l, below, above, stale)) == w[o := Hi(x)][o + 1 := Lo(x)]
  {
    var w := Wire(Unsealed(l, stale));
    assert w + [] == w;
    match l
    case Ip4(h) => Ip4Stores(h, x);
    case Icmp(h) => IcmpStores(h, x);
    case Udp(h) => UdpStores(h, x);
    case Tcp(h) => TcpStores(h.(res := stale), x);
  }

  lemma Ip4Stores(h: Ip4Hdr, x: U16)
    ensures var w := Wire(Ip4(h.(chksum := 0)));
            w[10] == 0 == w[11] && Wire(Ip4(h.(chksum := x))) == w[10 := Hi(x)][11 := Lo(x)]
  {
  }

  lemma IcmpStores(h: IcmpHdr, x: U16)
    ensures var w := Wire(Icmp(h.(chksum := 0)));
            w[2] == 0 == w[3] && Wire(Icmp(h.(chksum := x))) == w[2 := Hi(x)][3 := Lo(x)]
  {
  }

  lemma UdpStores(h: UdpHdr, x: U16)
    ensures var w := Wire(Udp(h.(chksum := 0)));
            w[6] == 0 == w[7] && Wire(Udp(h.(chksum := x))) == w[6 := Hi(x)][7 := Lo(x)]
  {
  }

  lemma TcpStores(h: TcpHdr, x: U16)
    ensures var w := Wire(Tcp(h.(chksum := 0)));
            w[16] == 0 == w[17] && Wire(Tcp(h.(chksum := x))) == w[16 := Hi(x)][17 := Lo(x)]
  {
  }

  lemma PseudoEven(below: Option<Layer>)
    ensures EvenLength(Pseudo(below))
  {
  }

  /** What is checked for a layer: an IPv4 header alone, otherwise everything up to the end. */
  function Checked(ls: seq<Layer>, k: nat, was: seq<Byte>): seq<Byte>
    requires k < |ls| && AllBuilt(ls) && PackedLength(ls, |ls|) <= |was|
  {
    match ls[k]
    case Ip4(_) => Encoded(ls, k + 1, was)[..20]
    case Icmp(_) => Encoded(ls, k + 1, was)
    case _ => Pseudo(Below(ls, k)) + Encoded(ls, k + 1, was)
  }

  /** Where the checksum is in what is checked. */
  function CheckedOffset(ls: seq<Layer>, k: nat): nat
    requires k < |ls| && (ls[k].Ip4? || ls[k].Icmp? || ls[k].Udp? || ls[k].Tcp?)
  {
    ChecksumOffset(ls[k]) + if ls[k].Ip4? || ls[k].Icmp? then 0 else |Pseudo(Below(ls, k))|
  }

  /** A sealed layer verifies together with the pseudo header and the bytes its checksum covers. */
  lemma SealVerifies(l: Layer, below: Option<Layer>, above: seq<Byte>, stale: U3, pseudo: seq<Byte>, covered: seq<Byte>)
    requires l.Ip4? || l.Icmp? || l.Udp? || l.Tcp?
    requires pseudo == (if l.Ip4? || l.Icmp? then [] else Pseudo(below)) && covered == (if l.Ip4? then [] else above)
    ensures Sealed(pseudo + (Wire(Seal(l, below, above, stale)) + covered), |pseudo| + ChecksumOffset(l))
  {
    hide Wire, Seal, Unsealed, Sealed, Checksum, ChecksumOffset, Pseudo;
    var w := Wire(Unsealed(l, stale));
    SealStores(l, below, above, stale, Checksum(pseudo, w + covered));
    PseudoEven(below);
    OffsetEven(l);
    StoredVerifies(pseudo, w, ChecksumOffset(l), covered);
  }

  /** The pseudo header that the checksum of a layer covers. */
  function CoveredPseudo(ls: seq<Layer>, k: nat): seq<Byte>
    requires k < |ls|
  {
    if ls[k].Ip4? || ls[k].Icmp? then [] else Pseudo(Below(ls, k))
  }

  /** What is checked is what the checksum was computed from, with the checksum stored. */
  lemma CheckedIs(ls: seq<Layer>, k: nat, was: seq<Byte>, sealed: seq<Byte>, above: seq<Byte>, covered: seq<Byte>)
    requires k < |ls| && AllBuilt(ls) && PackedLength(ls, |ls|) <= |was|
    requires ls[k].Ip4? || ls[k].Icmp? || ls[k].Udp? || ls[k].Tcp?
    requires Encoded(ls, k + 1, was) == sealed + above && |sealed| == Length(ls[k])
    requires covered == if ls[k].Ip4? then [] else above
    ensures Checked(ls, k, was) == CoveredPseudo(ls, k) + (sealed + covered)
    ensures CheckedOffset(ls, k) == |CoveredPseudo(ls, k)| + ChecksumOffset(ls[k])
  {
    hide Encoded, Pseudo, AllBuilt, PackedLength;
    assert (sealed + above)[..|sealed|] == sealed + [];
    assert [] + (sealed + covered) == sealed + covered;
  }

  /** Every header with a checksum verifies over the bytes it covers. */
  lemma LayerVerifies(ls: seq<Layer>, k: nat, was: seq<Byte>)
    requires k < |ls| && AllBuilt(ls) && PackedLength(ls, |ls|) <= |was|
    requires ls[k].Ip4? || ls[k].Icmp? || ls[k].Udp? || ls[k].Tcp?
    ensures Sealed(Checked(ls, k, was), CheckedOffset(ls, k))
  {
    hide Wire, Seal, Encoded, Sealed, Pseudo, Checked, CheckedOffset, ChecksumOffset, AllBuilt, PackedLength;
    var l, below, above, stale := ls[k], Below(ls, k), Encoded(ls, k, was), Stale(ls, k, was);
    var covered := if l.Ip4? then [] else above;
    var sealed := Wire(Seal(l, below, above, stale));
    SealVerifies(l, below, above, stale, CoveredPseudo(ls, k), covered);
    EncodedStep(ls, k, was, sealed, above);
    CheckedIs(ls, k, was, sealed, above, covered);
  }

  // ----- in the finished buffer -----------------------------------------------------

  lemma LayerFits(ls: seq<Layer>, k: nat)
    requires k < |ls|
    ensures Position(ls, k) + Length(ls[k]) <= PackedLength(ls, |ls|)
    ensures Position(ls, k) == PackedLength(ls, |ls|) - PackedLength(ls, k + 1)
  {
    assert PackedLength(ls, k + 1) == PackedLength(ls, k) + Length(ls[k]);
  }

  /** The bytes from layer k to the end. */
  lemma TailBytes(ls: seq<Layer>, k: nat, was: seq<Byte>, p: nat)
    requires k < |ls| && AllBuilt(ls) && PackedLength(ls, |ls|) <= |was| && p == Position(ls, k)
    ensures p + Length(ls[k]) <= PackedLength(ls, |ls|)
    ensures Encoded(ls, |ls|, was)[p..] == Encoded(ls, k + 1, was)
  {
    hide Wire, Seal, Encoded, AllBuilt;
    LayerFits(ls, k);
    EncodedSuffix(ls, k + 1, |ls|, was);
  }

  /** The pseudo header of section 3.1 of RFC 9293, from the IPv4 header at p in the buffer. */
  function WirePseudo(b: seq<Byte>, p: nat, segment: U16): seq<Byte>
    requires p + 20 <= |b|
  {
    b[p + 12..p + 16] + b[p + 16..p + 20] + [0, b[p + 9], Hi(segment), Lo(segment)]
  }

  lemma WirePseudoIs(b: seq<Byte>, p: nat, h: Ip4Hdr, segment: U16)
    requires p + 20 <= |b| && b[p..p + 20] == Wire(Ip4(h)) && PayloadLength(h) == segment
    ensures WirePseudo(b, p, segment) == PseudoBytes(h)
  {
    var w := Wire(Ip4(h));
    assert forall i :: 0 <= i < 20 ==> b[p + i] == b[p..p + 20][i] == w[i];
    assert b[p + 12..p + 16] == w[12..16] == h.src;
    assert b[p + 16..p + 20] == w[16..20] == h.dst;
  }

  /** The IPv4 header below a segment, as it is in the finished buffer. */
  lemma HeaderBelow(ls: seq<Layer>, k: nat, was: seq<Byte>)
    requires k < |ls| && AllBuilt(ls) && PackedLength(ls, |ls|) <= |was| && ls[k].Ip4?
    ensures var b, p := Encoded(ls, |ls|, was), Position(ls, k);
            p + 20 <= |b| && b[p..p + 20] == Wire(SealedAt(ls, k, was))
  {
    hide Wire, Seal;
    TailBytes(ls, k, was, Position(ls, k));
    var b, p := Encoded(ls, |ls|, was), Position(ls, k);
    assert b[p..p + 20] == b[p..][..20];
  }

  /** The length that pkt_pseudo_chksum computes is the length of the segment. */
  lemma SegmentLength(ls: seq<Layer>, k: nat)
    requires k + 1 < |ls| && ls[k + 1].Ip4? && ls[k + 1].ip4.ihl == 5 && PackedLength(ls, k + 2) < TWO16
    ensures PackedLength(ls, k + 1) < TWO16
    ensures Filled(ls)[k + 1].Ip4? && var h := Filled(ls)[k + 1].ip4;
            PayloadLength(h) == PackedLength(ls, k + 1)
  {
    var h := Filled(ls)[k + 1].ip4;
    assert PackedLength(ls, k + 2) == PackedLength(ls, k + 1) + 20;
    assert h.len == PackedLength(ls, k + 2);
  }

  /** Sealing an IPv4 header changes only its checksum, which the pseudo header does not contain. */
  lemma SealedIp4(l: Layer, below: Option<Layer>, above: seq<Byte>)
    requires l.Ip4?
    ensures var s := Seal(l, below, above, 0);
            && s.Ip4? && s.ip4.(chksum := l.ip4.chksum) == l.ip4
            && PayloadLength(s.ip4) == PayloadLength(l.ip4) && PseudoBytes(s.ip4) == PseudoBytes(l.ip4)
  {
  }

  /** The pseudo header that was summed for a segment is the one on the wire. */
  lemma PseudoOnWire(ls: seq<Layer>, k: nat, was: seq<Byte>, segment: U16, p: nat, b: seq<Byte>)
    requires k + 1 < |ls| && AllBuilt(ls) && PackedLength(ls, |ls|) <= |was| && ls[k + 1].Ip4?
    requires PayloadLength(ls[k + 1].ip4) == segment
    requires p == Position(ls, k + 1) && b == Encoded(ls, |ls|, was)
    ensures p + 20 <= |b| && WirePseudo(b, p, segment) == Pseudo(Below(ls, k))
  {
    hide Wire, Seal, Encoded, WirePseudo, PseudoBytes, PayloadLength;
    var h := HeaderBelowIs(ls, k + 1, was, p, b);
    WirePseudoIs(b, p, h, segment);
  }

  lemma HeaderBelowIs(ls: seq<Layer>, k: nat, was: seq<Byte>, p: nat, b: seq<Byte>) returns (h: Ip4Hdr)
    requires k < |ls| && AllBuilt(ls) && PackedLength(ls, |ls|) <= |was| && ls[k].Ip4?
    requires p == Position(ls, k) && b == Encoded(ls, |ls|, was)
    ensures p + 20 <= |b| && b[p..p + 20] == Wire(Ip4(h))
    ensures PseudoBytes(h) == PseudoBytes(ls[k].ip4) && PayloadLength(h) == PayloadLength(ls[k].ip4)
  {
    hide Wire, Encoded, PseudoBytes, PayloadLength;
    HeaderBelow(ls, k, was);
    SealedIp4(ls[k], Below(ls, k), Encoded(ls, k, was));
    h := SealedAt(ls, k, was).ip4;
  }

  /** The bytes of a segment together with the pseudo header on the wire, in the finished buffer. */
  function Segment(b: seq<Byte>, ipAt: nat, at: nat): seq<Byte>
    requires ipAt + 20 <= |b| && at <= |b| < at + TWO16
  {
    WirePseudo(b, ipAt, |b| - at) + b[at..]
  }

  lemma FilledKind(ls: seq<Layer>, k: nat)
    requires k < |ls|
    ensures KindOf(Filled(ls)[k]) == KindOf(ls[k]) && Length(Filled(ls)[k]) == Length(ls[k])
  {
    FillKeepsShape(ls[k], Above(ls, k), PackedLength(ls, k + 1));
  }

  lemma PseudoSize(ls: seq<Layer>, k: nat)
    requires k + 1 < |ls| && ls[k + 1].Ip4?
    ensures |Pseudo(Below(ls, k))| == 12
  {
  }

  lemma FilledSegmentVerifies(ls: seq<Layer>, k: nat, was: seq<Byte>, ipAt: nat, at: nat, b: seq<Byte>)
    requires k + 1 < |ls| && AllBuilt(ls) && PackedLength(ls, |ls|) <= |was|
    requires (ls[k].Udp? || ls[k].Tcp?) && ls[k + 1].Ip4? && PackedLength(ls, k + 1) < TWO16
    requires PayloadLength(ls[k + 1].ip4) == PackedLength(ls, k + 1)
    requires ipAt == Position(ls, k + 1) && at == Position(ls, k) && b == Encoded(ls, |ls|, was)
    ensures ipAt + 20 <= |b| && at <= |b| < at + TWO16
    ensures Sealed(Segment(b, ipAt, at), 12 + ChecksumOffset(ls[k]))
  {
    hide Wire, Seal, Encoded, Sealed, WirePseudo, Pseudo, PseudoBytes, PayloadLength, AllBuilt, Below;
    var segment := PackedLength(ls, k + 1);
    LayerFits(ls, k);
    PseudoOnWire(ls, k, was, segment, ipAt, b);
    TailBytes(ls, k, was, at);
    LayerVerifies(ls, k, was);
    PseudoSize(ls, k);
    assert Segment(b, ipAt, at) == Pseudo(Below(ls, k)) + Encoded(ls, k + 1, was);
  }

  /** A UDP or TCP segment directly above an IPv4 header verifies with the pseudo header on the wire. */
  lemma SegmentVerifies(ls: seq<Layer>, k: nat, was: seq<Byte>, ipAt: nat, at: nat)
    requires AllBuilt(ls) && PackedLength(ls, |ls|) <= |was|
    requires k + 1 < |ls| && (ls[k].Udp? || ls[k].Tcp?) && ls[k + 1].Ip4? && ls[k + 1].ip4.ihl == 5
    requires PackedLength(ls, k + 2) < TWO16
    requires ipAt == Position(Filled(ls), k + 1) && at == Position(Filled(ls), k)
    ensures ipAt + 20 <= |PackedBytes(ls, was)| && at <= |PackedBytes(ls, was)| < at + TWO16
    ensures Sealed(Segment(PackedBytes(ls, was), ipAt, at), if ls[k].Udp? then 18 else 28)
  {
    hide Sealed, Segment, Wire, Seal, Encoded, PayloadLength, Fill;
    FilledIsBuilt(ls);
    FillKeepsLength(ls, |ls|, k + 1);
    SegmentLength(ls, k);
    FilledKind(ls, k);
    FilledSegmentVerifies(Filled(ls), k, was, ipAt, at, PackedBytes(ls, was));
  }

  /** Layers whose checksum covers no pseudo header. */
  predicate Bare(ls: seq<Layer>, k: nat)
    requires k < |ls|
  {
    || ls[k].Ip4? || ls[k].Icmp?
    || ((ls[k].Udp? || ls[k].Tcp?) && (k + 1 == |ls| || !ls[k + 1].Ip4?))
  }

  lemma FilledHeaderVerifies(ls: seq<Layer>, k: nat, was: seq<Byte>, at: nat, b: seq<Byte>)
    requires k < |ls| && AllBuilt(ls) && PackedLength(ls, |ls|) <= |was| && Bare(ls, k)
    requires at == Position(ls, k) && b == Encoded(ls, |ls|, was)
    ensures at + Length(ls[k]) <= |b|
    ensures Sealed(if ls[k].Ip4? then b[at..at + 20] else b[at..], ChecksumOffset(ls[k]))
  {
    hide Wire, Seal, Encoded, Sealed, Checked, CheckedOffset, ChecksumOffset, AllBuilt, PackedLength;
    TailBytes(ls, k, was, at);
    LayerVerifies(ls, k, was);
    BareChecked(ls, k, was, b[at..]);
    if ls[k].Ip4? {
      assert b[at..at + 20] == b[at..][..20];
    }
  }

  lemma BareChecked(ls: seq<Layer>, k: nat, was: seq<Byte>, tail: seq<Byte>)
    requires k < |ls| && AllBuilt(ls) && PackedLength(ls, |ls|) <= |was| && Bare(ls, k)
    requires tail == Encoded(ls, k + 1, was)
    ensures Checked(ls, k, was) == (if ls[k].Ip4? then tail[..20] else tail)
    ensures CheckedOffset(ls, k) == ChecksumOffset(ls[k])
  {
    hide Encoded, AllBuilt, PackedLength, PseudoBytes;
    assert [] + tail == tail;
  }

  /** Every IPv4 header, every ICMP message and every segment that is not above IPv4 verifies, at any depth. */
  lemma HeaderVerifies(ls: seq<Layer>, k: nat, was: seq<Byte>, at: nat)
    requires AllBuilt(ls) && PackedLength(ls, |ls|) <= |was|
    requires k < |ls| && Bare(ls, k) && at == Position(Filled(ls), k)
    ensures var b := PackedBytes(ls, was);
            && at + Length(ls[k]) <= |b|
            && Sealed(if ls[k].Ip4? then b[at..at + 20] else b[at..],
                      if ls[k].Ip4? then 10 else if ls[k].Icmp? then 2 else if ls[k].Udp? then 6 else 16)
  {
    hide Sealed, Encoded, Fill;
    FilledIsBuilt(ls);
    FilledKind(ls, k);
    if k + 1 < |ls| {
      FilledKind(ls, k + 1);
    }
    FilledHeaderVerifies(Filled(ls), k, was, at, PackedBytes(ls, was));
  }
}
