/**
What pkt_pack computes, as functions. A stack is listed innermost layer first, as the packer
walks it.
*/
module Encode {
  import opened Words
  import opened Headers
  import opened Chksum

  /** The bytes taken by the k innermost layers. */
  function PackedLength(ls: seq<Layer>, k: nat): nat
    requires k <= |ls|
  {
    if k == 0 then 0 else PackedLength(ls, k - 1) + Length(ls[k - 1])
  }

  lemma {:induction false} PackedLengthMono(ls: seq<Layer>, j: nat, k: nat)
    requires j <= k <= |ls|
    ensures PackedLength(ls, j) <= PackedLength(ls, k)
  {
    if j < k {
      PackedLengthMono(ls, j, k - 1);
    }
  }

  predicate AllBuilt(ls: seq<Layer>) {
    forall i :: 0 <= i < |ls| ==> Built(ls[i])
  }

  // ----- first pass ----------------------------------------------------------------

  /** What the first pass makes of a layer, given the kind above it and the bytes up to and including it. */
  function Fill(l: Layer, above: Kind, plen: nat): Layer {
    match l
    case Eth(h) =>
      Eth(if above == KArp then h.(kind := ETHERTYPE_ARP)
          else if above == KIp4 then h.(kind := ETHERTYPE_IP)
          else h)
    case Ip4(h) =>
      var proto := if above == KIcmp then PROTO_ICMP
                   else if above == KUdp then PROTO_UDP
                   else if above == KTcp then PROTO_TCP
                   else h.proto;
      Ip4(h.(proto := proto, len := plen % TWO16))
    case Udp(h) => Udp(h.(len := plen % TWO16))
    case _ => l
  }

  function Above(ls: seq<Layer>, k: nat): Kind
    requires k < |ls|
  {
    if k == 0 then KNone else KindOf(ls[k - 1])
  }

  /** What the first pass makes of layer k. */
  function FilledAt(ls: seq<Layer>, k: nat): Layer
    requires k < |ls|
  {
    Fill(ls[k], Above(ls, k), PackedLength(ls, k + 1))
  }

  /** The stack after the first pass has gone over its first k layers. */
  function FilledUpTo(ls: seq<Layer>, k: nat): (out: seq<Layer>)
    requires k <= |ls|
    ensures |out| == |ls|
    ensures forall i {:trigger out[i]} :: 0 <= i < |ls| ==> out[i] == if i < k then FilledAt(ls, i) else ls[i]
  {
    seq(|ls|, i requires 0 <= i < |ls| => if i < k then FilledAt(ls, i) else ls[i])
  }

  function Filled(ls: seq<Layer>): seq<Layer> {
    FilledUpTo(ls, |ls|)
  }

  lemma FillKeepsShape(l: Layer, above: Kind, plen: nat)
    ensures Length(Fill(l, above, plen)) == Length(l)
    ensures KindOf(Fill(l, above, plen)) == KindOf(l)
    ensures Built(Fill(l, above, plen)) == Built(l)
  {
  }

  lemma {:induction false} SameLengths(ls: seq<Layer>, ms: seq<Layer>, k: nat)
    requires k <= |ls| == |ms| && forall i :: 0 <= i < |ls| ==> Length(ms[i]) == Length(ls[i])
    ensures PackedLength(ms, k) == PackedLength(ls, k)
  {
    if k != 0 {
      SameLengths(ls, ms, k - 1);
    }
  }

  lemma FillKeepsLength(ls: seq<Layer>, n: nat, k: nat)
    requires k <= |ls| && n <= |ls|
    ensures PackedLength(FilledUpTo(ls, n), k) == PackedLength(ls, k)
  {
    var out := FilledUpTo(ls, n);
    forall i | 0 <= i < |ls| ensures Length(out[i]) == Length(ls[i]) {
      FillKeepsShape(ls[i], Above(ls, i), PackedLength(ls, i + 1));
    }
    SameLengths(ls, out, k);
  }

  lemma FilledIsBuilt(ls: seq<Layer>)
    requires AllBuilt(ls)
    ensures AllBuilt(Filled(ls)) && PackedLength(Filled(ls), |ls|) == PackedLength(ls, |ls|)
  {
    FillKeepsLength(ls, |ls|, |ls|);
  }

  // ----- second pass ---------------------------------------------------------------

  /** The length of what an IPv4 header carries, computed in 16 bits. */
  function PayloadLength(ip: Ip4Hdr): U16 {
    (ip.len - 4 * ip.ihl) % TWO16
  }

  /** The pseudo header of pkt_pseudo_chksum. */
  function PseudoBytes(ip: Ip4Hdr): seq<Byte> {
    var len := PayloadLength(ip);
    ip.src + ip.dst + [0, ip.proto, Hi(len), Lo(len)]
  }

  /** The pseudo header is summed only if an IPv4 layer is directly below. */
  function Pseudo(below: Option<Layer>): seq<Byte> {
    if below.Some? && below.value.Ip4? then PseudoBytes(below.value.ip4) else []
  }

  /** The checksum field, as a network-order value, for bytes whose checksum field is zero. */
  function Checksum(pseudo: seq<Byte>, s: seq<Byte>): U16 {
    Swap16(0xFFFF - Fold(LeSum(pseudo) + LeSum(s)))
  }

  /** The layer as first written: checksum zero; the reserved TCP bits keep what the buffer held. */
  function Unsealed(l: Layer, stale: U3): (r: Layer)
    ensures Built(l) ==> Built(r) && Length(r) == Length(l)
  {
    match l
    case Ip4(h) => Ip4(h.(chksum := 0))
    case Icmp(h) => Icmp(h.(chksum := 0))
    case Udp(h) => Udp(h.(chksum := 0))
    case Tcp(h) => Tcp(h.(chksum := 0, res := stale))
    case _ => l
  }

  /** The layer as it ends up on the wire, given the layer below it and the bytes above it. */
  function Seal(l: Layer, below: Option<Layer>, above: seq<Byte>, stale: U3): (r: Layer)
    requires Built(l)
    ensures Built(r) && Length(r) == Length(l)
  {
    var zeroed := Wire(Unsealed(l, stale));
    match l
    case Ip4(h) => Ip4(h.(chksum := Checksum([], zeroed)))
    case Icmp(h) => Icmp(h.(chksum := Checksum([], zeroed + above)))
    case Udp(h) => Udp(h.(chksum := Checksum(Pseudo(below), zeroed + above)))
    case Tcp(h) => Tcp(h.(chksum := Checksum(Pseudo(below), zeroed + above), res := stale))
    case _ => l
  }

  function Below(ls: seq<Layer>, k: nat): Option<Layer>
    requires k < |ls|
  {
    if k + 1 < |ls| then Some(ls[k + 1]) else None
  }

  /** Where layer k starts in the buffer. */
  function Position(ls: seq<Layer>, k: nat): nat
    requires k < |ls|
  {
    PackedLengthMono(ls, k + 1, |ls|);
    PackedLength(ls, |ls|) - PackedLength(ls, k + 1)
  }

  /** The reserved bits that the buffer holds where layer k goes. */
  function Stale(ls: seq<Layer>, k: nat, was: seq<Byte>): U3
    requires k < |ls| && PackedLength(ls, |ls|) <= |was|
  {
    if ls[k].Tcp? then (was[Position(ls, k) + 12] / 2) % 8 else 0
  }

  /** Layer k as it ends up on the wire. */
  function SealedAt(ls: seq<Layer>, k: nat, was: seq<Byte>): (r: Layer)
    requires k < |ls| && AllBuilt(ls) && PackedLength(ls, |ls|) <= |was|
    ensures Built(r) && Length(r) == Length(ls[k])
    decreases k, 1
  {
    Seal(ls[k], Below(ls, k), Encoded(ls, k, was), Stale(ls, k, was))
  }

  /** The bytes of the k innermost layers of a filled stack, written over the buffer was. */
  function Encoded(ls: seq<Layer>, k: nat, was: seq<Byte>): (s: seq<Byte>)
    requires k <= |ls| && AllBuilt(ls) && PackedLength(ls, |ls|) <= |was|
    ensures |s| == PackedLength(ls, k)
    decreases k, 0
  {
    if k == 0 then [] else Wire(SealedAt(ls, k - 1, was)) + Encoded(ls, k - 1, was)
  }

  /** The sealed layers, outermost first. */
  function SealedLayers(ls: seq<Layer>, k: nat, was: seq<Byte>): (out: seq<Layer>)
    requires k <= |ls| && AllBuilt(ls) && PackedLength(ls, |ls|) <= |was|
    ensures |out| == k
  {
    if k == 0 then [] else [SealedAt(ls, k - 1, was)] + SealedLayers(ls, k - 1, was)
  }

  /** The bytes pkt_pack writes for a stack, over a buffer that held was. */
  function PackedBytes(ls: seq<Layer>, was: seq<Byte>): (s: seq<Byte>)
    requires AllBuilt(ls) && PackedLength(ls, |ls|) <= |was|
    ensures |s| == PackedLength(ls, |ls|)
  {
    FilledIsBuilt(ls);
    Encoded(Filled(ls), |ls|, was)
  }

  /** The layers as they are on the wire, outermost first. */
  function WireLayers(ls: seq<Layer>, was: seq<Byte>): (out: seq<Layer>)
    requires AllBuilt(ls) && PackedLength(ls, |ls|) <= |was|
    ensures |out| == |ls|
  {
    FilledIsBuilt(ls);
    SealedLayers(Filled(ls), |ls|, was)
  }

  /** Sealing changes nothing but checksums and the reserved TCP bits. */
  lemma SealChangesOnlyChecks(l: Layer, below: Option<Layer>, above: seq<Byte>, stale: U3)
    requires Built(l)
    ensures Unsealed(Seal(l, below, above, stale), 0) == Unsealed(l, 0)
    ensures KindOf(Seal(l, below, above, stale)) == KindOf(l)
    ensures NextKind(Seal(l, below, above, stale)) == NextKind(l)
    ensures Skip(Seal(l, below, above, stale)) == Skip(l)
  {
  }

  /** One layer of the encoding. */
  lemma EncodedStep(ls: seq<Layer>, k: nat, was: seq<Byte>, w: seq<Byte>, above: seq<Byte>)
    requires k < |ls| && AllBuilt(ls) && PackedLength(ls, |ls|) <= |was|
    requires above == Encoded(ls, k, was) && w == Wire(Seal(ls[k], Below(ls, k), above, Stale(ls, k, was)))
    ensures Encoded(ls, k + 1, was) == w + above && |w| == Length(ls[k])
    ensures PackedLength(ls, k + 1) == PackedLength(ls, k) + Length(ls[k])
  {
    assert SealedAt(ls, k, was) == Seal(ls[k], Below(ls, k), above, Stale(ls, k, was));
  }

  lemma DropMore(w: seq<Byte>, s: seq<Byte>, d: nat)
    requires d <= |s|
    ensures (w + s)[|w| + d..] == s[d..]
  {
  }

  /** The bytes of the inner layers are the end of the bytes of the whole stack. */
  lemma {:induction false} EncodedSuffix(ls: seq<Layer>, k: nat, n: nat, was: seq<Byte>)
    requires k <= n <= |ls| && AllBuilt(ls) && PackedLength(ls, |ls|) <= |was|
    ensures PackedLength(ls, k) <= PackedLength(ls, n)
    ensures Encoded(ls, n, was)[PackedLength(ls, n) - PackedLength(ls, k)..] == Encoded(ls, k, was)
  {
    hide Seal, Wire, SealedAt;
    if k < n {
      EncodedSuffix(ls, k, n - 1, was);
      var w := Wire(SealedAt(ls, n - 1, was));
      assert Encoded(ls, n, was) == w + Encoded(ls, n - 1, was);
      DropMore(w, Encoded(ls, n - 1, was), PackedLength(ls, n - 1) - PackedLength(ls, k));
    }
  }
}
