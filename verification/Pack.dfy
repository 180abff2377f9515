/** pkt_pack and the packers of the layers, writing into a buffer in place. */
module Pack {
  import opened Words
  import opened Headers
  import opened Fields
  import opened Chksum
  import opened Encode
  import opened Checksums

  /** Frames up to this size cannot overflow the 32-bit sum. */
  const MAX_FRAME: nat := 0x1FFF0

  lemma SumFits(pseudo: seq<Byte>, s: seq<Byte>)
    requires |pseudo| <= 12 && |s| <= MAX_FRAME
    ensures LeSum(pseudo) + LeSum(s) < TWO32
  {
    LeSumBound(pseudo);
    LeSumBound(s);
  }

  /** Computes the checksum of the bytes in [i, end) and stores it, little-endian, o bytes into them. */
  method StoreChecksum(buf: array<Byte>, i: nat, end: nat, o: nat, pseudo: seq<Byte>)
    requires i + o + 2 <= end <= buf.Length && end - i <= MAX_FRAME && |pseudo| <= 12
    modifies buf
    ensures var x := Checksum(pseudo, old(buf[i..end]));
            buf[..] == old(buf[..])[i + o := Hi(x)][i + o + 1 := Lo(x)]
  {
    SumFits(pseudo, buf[i..end]);
    var csum := 0;
    if |pseudo| > 0 {
      csum := Sum(pseudo);
    }
    ghost var folds;
    var c;
    c, folds := PktChksum(buf[i..end], csum);
    SwapStored(c);
    buf[i + o] := c % TWO8;
    buf[i + o + 1] := c / TWO8;
  }

  /** The reserved bits that the packer leaves alone. */
  function Reserved(was: seq<Byte>, i: nat, l: Layer): U3
    requires i + Length(l) <= |was|
  {
    if l.Tcp? then (was[i + 12] / 2) % 8 else 0
  }

  /** The buffer after layer l has been packed at i, in a frame that ends at end. */
  function Rewritten(was: seq<Byte>, i: nat, end: nat, l: Layer, below: Option<Layer>): (s: seq<Byte>)
    requires i + Length(l) <= end <= |was| && Built(l)
    ensures |s| == |was|
  {
    var above := was[i + Length(l)..end];
    was[..i] + Wire(Seal(l, below, above, Reserved(was, i, l))) + was[i + Length(l)..]
  }

  lemma SpliceUpdate(head: seq<Byte>, w: seq<Byte>, tail: seq<Byte>, o: nat, x: Byte, y: Byte)
    requires o + 2 <= |w|
    ensures (head + w + tail)[|head| + o := x][|head| + o + 1 := y] == head + w[o := x][o + 1 := y] + tail
  {
  }

  lemma SpliceSlice(was: seq<Byte>, i: nat, w: seq<Byte>, j: nat, end: nat)
    requires i <= j <= |was| && i + |w| == j && j <= end <= |was|
    ensures (was[..i] + w + was[j..])[i..end] == w + was[j..end]
  {
  }

  lemma StoredThenSealed(was: seq<Byte>, i: nat, end: nat, l: Layer, below: Option<Layer>, pseudo: seq<Byte>,
                         covered: nat, mid: seq<Byte>, out: seq<Byte>)
    requires i + Length(l) <= covered <= end <= |was| && (l.Ip4? || l.Icmp? || l.Udp? || l.Tcp?)
    requires pseudo == (if l.Ip4? || l.Icmp? then [] else Pseudo(below))
    requires covered == if l.Ip4? then i + 20 else end
    requires mid == was[..i] + Wire(Unsealed(l, Reserved(was, i, l))) + was[i + Length(l)..]
    requires var x, o := Checksum(pseudo, mid[i..covered]), i + ChecksumOffset(l);
             out == mid[o := Hi(x)][o + 1 := Lo(x)]
    ensures out == Rewritten(was, i, end, l, below)
  {
    hide Wire, Checksum, Seal, Pseudo;
    var above, stale := was[i + Length(l)..end], Reserved(was, i, l);
    var w := Wire(Unsealed(l, stale));
    SpliceSlice(was, i, w, i + Length(l), covered);
    assert was[i + Length(l)..covered] == if l.Ip4? then [] else above;
    var x, o := Checksum(pseudo, mid[i..covered]), ChecksumOffset(l);
    SealStores(l, below, above, stale, x);
    SpliceUpdate(was[..i], w, was[i + Length(l)..], o, Hi(x), Lo(x));
  }

  /** The stores of each packer up to the checksum. */
  method PackHeader(buf: array<Byte>, i: nat, l: Layer)
    requires i + Length(l) <= buf.Length && Built(l)
    modifies buf
    ensures Written(buf[..], old(buf[..]), i, Wire(Unsealed(l, Reserved(old(buf[..]), i, l))))
  {
    hide Written, Concat, Wire;
    match l {
      case Eth(h) =>
        EthIs(h);
        StoreFields(buf, i, EthFields(h));
      case Arp(h) =>
        ArpIs(h);
        StoreFields(buf, i, ArpFields(h));
      case Ip4(h) =>
        Ip4Is(h);
        StoreFields(buf, i, Ip4Fields(h));
      case Icmp(h) =>
        IcmpIs(h);
        StoreFields(buf, i, IcmpFields(h));
      case Udp(h) =>
        UdpIs(h);
        StoreFields(buf, i, UdpFields(h));
      case Tcp(h) =>
        TcpIs(h, buf[i + 12], buf[i + 13]);
        StoreFields(buf, i, TcpFields(h, buf[i + 12], buf[i + 13]));
      case Raw(payload) =>
        ghost var was := buf[..];
        Store(buf, i, payload);
        StoredWhole(buf[..], was, i, payload);
    }
  }

  lemma StoredWhole(now: seq<Byte>, was: seq<Byte>, i: nat, s: seq<Byte>)
    requires i + |s| <= |was| && now == was[..i] + s + was[i + |s|..]
    ensures Written(now, was, i, s) && s == Wire(Raw(s))
  {
  }

  /** pkt_pack_ip4, pkt_pack_icmp, pkt_pack_udp and pkt_pack_tcp. */
  method PackChecked(buf: array<Byte>, i: nat, end: nat, l: Layer, below: Option<Layer>)
    requires l.Ip4? || l.Icmp? || l.Udp? || l.Tcp?
    requires i + Length(l) <= end <= buf.Length && end - i <= MAX_FRAME
    modifies buf
    ensures buf[..] == Rewritten(old(buf[..]), i, end, l, below)
  {
    ghost var was := buf[..];
    PackHeader(buf, i, l);
    ghost var mid := buf[..];
    match l {
      case Ip4(_) => StoreChecksum(buf, i, i + 20, 10, []);
      case Icmp(_) => StoreChecksum(buf, i, end, 2, []);
      case Udp(_) => StoreChecksum(buf, i, end, 6, Pseudo(below));
      case Tcp(_) => StoreChecksum(buf, i, end, 16, Pseudo(below));
    }
    ghost var pseudo := if l.Ip4? || l.Icmp? then [] else Pseudo(below);
    StoredThenSealed(was, i, end, l, below, pseudo, if l.Ip4? then i + 20 else end, mid, buf[..]);
  }

  /** One layer of the second pass. */
  method PackLayer(buf: array<Byte>, i: nat, end: nat, l: Layer, below: Option<Layer>)
    requires i + Length(l) <= end <= buf.Length && end - i <= MAX_FRAME && Built(l)
    modifies buf
    ensures buf[..] == Rewritten(old(buf[..]), i, end, l, below)
  {
    if l.Eth? || l.Arp? || l.Raw? {
      PackHeader(buf, i, l);
    } else {
      PackChecked(buf, i, end, l, below);
    }
  }

  /** The body of the first pass for one layer. */
  method FillLayer(cur: Layer, prev: Kind, plen: nat) returns (l: Layer)
    ensures l == Fill(cur, prev, plen)
  {
    l := cur;
    match cur {
      case Eth(h) =>
        if prev == KArp {
          l := Eth(h.(kind := ETHERTYPE_ARP));
        } else if prev == KIp4 {
          l := Eth(h.(kind := ETHERTYPE_IP));
        }
      case Ip4(h) =>
        var proto := h.proto;
        if prev == KIcmp {
          proto := PROTO_ICMP;
        } else if prev == KUdp {
          proto := PROTO_UDP;
        } else if prev == KTcp {
          proto := PROTO_TCP;
        }
        l := Ip4(h.(proto := proto, len := plen % TWO16));
      case Udp(h) =>
        l := Udp(h.(len := plen % TWO16));
      case _ =>
    }
  }

  lemma FillStep(ls: seq<Layer>, k: nat)
    requires k < |ls|
    ensures FilledUpTo(ls, k)[k] == ls[k]
    ensures FilledUpTo(ls, k)[k := FilledAt(ls, k)] == FilledUpTo(ls, k + 1)
    ensures FilledAt(ls, k) == Fill(ls[k], Above(ls, k), PackedLength(ls, k) + Length(ls[k]))
    ensures PackedLength(ls, k + 1) == PackedLength(ls, k) + Length(ls[k])
  {
  }

  lemma FillStart(ls: seq<Layer>)
    ensures FilledUpTo(ls, 0) == ls && PackedLength(ls, 0) == 0
  {
  }

  method Replace(p: array<Layer>, k: nat, l: Layer)
    requires k < p.Length
    modifies p
    ensures p[..] == old(p[..])[k := l]
  {
    p[k] := l;
  }

  /** The first pass: lengths and protocol numbers are filled in, innermost layer first. */
  method FirstPass(p: array<Layer>) returns (plen: nat)
    modifies p
    ensures p[..] == Filled(old(p[..]))
    ensures plen == PackedLength(old(p[..]), p.Length)
  {
    hide FilledUpTo, FilledAt, Fill, PackedLength, Length;
    ghost var ls := p[..];
    plen := 0;
    var prev := KNone;
    var k := 0;
    FillStart(ls);
    while k < p.Length
      invariant 0 <= k <= p.Length
      invariant p[..] == FilledUpTo(ls, k)
      invariant plen == PackedLength(ls, k)
      invariant prev == if k == 0 then KNone else KindOf(ls[k - 1])
    {
      FillStep(ls, k);
      ghost var before := p[..];
      var cur := p[k];
      assert cur == before[k];
      plen := plen + Length(cur);
      var filled := FillLayer(cur, prev, plen);
      Replace(p, k, filled);
      prev := KindOf(cur);
      k := k + 1;
    }
  }

  /** The buffer when the k innermost layers of a filled stack have been packed. */
  function Progress(ls: seq<Layer>, k: nat, was: seq<Byte>): (s: seq<Byte>)
    requires k <= |ls| && AllBuilt(ls) && PackedLength(ls, |ls|) <= |was|
    ensures |s| == |was|
  {
    PackedLengthMono(ls, k, |ls|);
    var n := PackedLength(ls, |ls|);
    was[..n - PackedLength(ls, k)] + Encoded(ls, k, was) + was[n..]
  }

  /** Packing the next layer outwards leaves everything written so far alone. */
  lemma ProgressStep(ls: seq<Layer>, k: nat, was: seq<Byte>, i: nat, end: nat)
    requires k < |ls| && AllBuilt(ls) && PackedLength(ls, |ls|) <= |was|
    requires i == Position(ls, k) && end == PackedLength(ls, |ls|)
    ensures i + Length(ls[k]) <= end
    ensures Rewritten(Progress(ls, k, was), i, end, ls[k], Below(ls, k)) == Progress(ls, k + 1, was)
  {
    hide Rewritten, Progress, Wire, Seal;
    LayerFits(ls, k);
    var l, enc, stale := ls[k], Encoded(ls, k, was), Stale(ls, k, was);
    var w := Wire(Seal(l, Below(ls, k), enc, stale));
    EncodedStep(ls, k, was, w, enc);
    ProgressIs(ls, k, was, i + Length(l), end, enc);
    ProgressIs(ls, k + 1, was, i, end, w + enc);
    RewrittenOver(was, i, i + Length(l), end, enc, l, Below(ls, k), stale,
                  Progress(ls, k, was), Progress(ls, k + 1, was));
  }

  lemma ProgressIs(ls: seq<Layer>, k: nat, was: seq<Byte>, i: nat, end: nat, enc: seq<Byte>)
    requires k <= |ls| && AllBuilt(ls) && PackedLength(ls, |ls|) <= |was|
    requires enc == Encoded(ls, k, was) && end == PackedLength(ls, |ls|) && i + PackedLength(ls, k) == end
    ensures Progress(ls, k, was) == was[..i] + enc + was[end..]
  {
    hide Encoded;
  }

  lemma RewrittenOver(was: seq<Byte>, i: nat, j: nat, end: nat, enc: seq<Byte>, l: Layer, below: Option<Layer>,
                      stale: U3, now: seq<Byte>, out: seq<Byte>)
    requires Built(l) && i + Length(l) == j && j + |enc| == end && end <= |was| && stale == Reserved(was, i, l)
    requires now == was[..j] + enc + was[end..]
    requires out == was[..i] + (Wire(Seal(l, below, enc, stale)) + enc) + was[end..]
    ensures Rewritten(now, i, end, l, below) == out
  {
    hide Wire, Seal;
    Splice(was, i, j, end, enc, Wire(Seal(l, below, enc, stale)));
    ReservedKept(was, now, i, l);
  }

  lemma ReservedKept(was: seq<Byte>, now: seq<Byte>, i: nat, l: Layer)
    requires i + Length(l) <= |was| && i + Length(l) <= |now|
    requires forall k :: 0 <= k < i + Length(l) ==> now[k] == was[k]
    ensures Reserved(now, i, l) == Reserved(was, i, l)
  {
  }

  lemma Splice(was: seq<Byte>, i: nat, j: nat, end: nat, enc: seq<Byte>, w: seq<Byte>)
    requires i + |w| == j && j + |enc| == end && end <= |was|
    ensures var now := was[..j] + enc + was[end..];
            && now[j..end] == enc
            && now[..i] + w + now[j..] == was[..i] + (w + enc) + was[end..]
  {
  }

  lemma ProgressStart(ls: seq<Layer>, was: seq<Byte>)
    requires AllBuilt(ls) && PackedLength(ls, |ls|) <= |was|
    ensures Progress(ls, 0, was) == was
  {
    var n := PackedLength(ls, |ls|);
    assert Encoded(ls, 0, was) == [];
    hide Progress, Encoded;
    ProgressIs(ls, 0, was, n, n, []);
    JoinSlices(was, n);
  }

  lemma JoinSlices(was: seq<Byte>, n: nat)
    requires n <= |was|
    ensures was[..n] + [] + was[n..] == was
  {
  }

  /** The second pass: the layers are written innermost first, from the end of the frame backwards. */
  method SecondPass(buf: array<Byte>, p: array<Layer>, plen: nat)
    requires AllBuilt(p[..]) && plen == PackedLength(p[..], p.Length) <= buf.Length && plen <= MAX_FRAME
    modifies buf
    ensures buf[..] == Progress(p[..], p.Length, old(buf[..]))
  {
    hide Rewritten, Progress, Encoded, Wire, Seal;
    ghost var was, ls := buf[..], p[..];
    var i, k := plen, 0;
    ProgressStart(ls, was);
    while k < p.Length
      invariant 0 <= k <= p.Length && p[..] == ls
      invariant i == plen - PackedLength(ls, k) && buf[..] == Progress(ls, k, was)
    {
      PackedLengthMono(ls, k + 1, |ls|);
      ProgressStep(ls, k, was, Position(ls, k), plen);
      assert p[k] == ls[k];
      i := i - Length(p[k]);
      var below := None;
      if k + 1 < p.Length {
        below := Some(p[k + 1]);
        assert p[k + 1] == ls[k + 1];
      }
      PackLayer(buf, i, plen, p[k], below);
      k := k + 1;
    }
  }

  /** pkt_pack: fills in the stack in place, and writes the frame if the buffer is long enough. */
  method PktPack(buf: array<Byte>, p: array<Layer>) returns (rc: int)
    requires AllBuilt(p[..]) && PackedLength(p[..], p.Length) <= MAX_FRAME
    modifies buf, p
    ensures p[..] == Filled(old(p[..]))
    ensures var plen := PackedLength(old(p[..]), p.Length);
            if buf.Length < plen then rc == -1 && buf[..] == old(buf[..])
            else rc == plen && buf[..plen] == PackedBytes(old(p[..]), old(buf[..]))
                 && buf[plen..] == old(buf[plen..])
  {
    ghost var ls := p[..];
    FilledIsBuilt(ls);
    var plen := FirstPass(p);
    if buf.Length < plen {
      return -1;
    }
    SecondPass(buf, p, plen);
    return plen;
  }
}
