/** The packers' stores, field by field, into a buffer in place. */
module Fields {
  import opened Words
  import opened Headers

  /** memcpy. */
  method Store(buf: array<Byte>, i: nat, s: seq<Byte>)
    requires i + |s| <= buf.Length
    modifies buf
    ensures buf[..] == old(buf[..])[..i] + s + old(buf[..])[i + |s|..]
  {
    var j := 0;
    while j < |s|
      invariant 0 <= j <= |s|
      invariant forall k :: 0 <= k < buf.Length ==>
                  buf[k] == if i <= k < i + j then s[k - i] else old(buf[k])
    {
      buf[i + j] := s[j];
      j := j + 1;
    }
  }

  /** The bytes done have been written at i, and nothing else has changed. */
  predicate Written(now: seq<Byte>, was: seq<Byte>, i: nat, done: seq<Byte>) {
    i + |done| <= |was| && now == was[..i] + done + was[i + |done|..]
  }

  lemma WrittenMore(now: seq<Byte>, was: seq<Byte>, i: nat, done: seq<Byte>, at: nat, s: seq<Byte>, out: seq<Byte>)
    requires Written(now, was, i, done) && at == i + |done| && at + |s| <= |was|
    requires |now| == |was| ==> out == now[..at] + s + now[at + |s|..]
    ensures Written(out, was, i, done + s)
  {
  }

  function Concat(fields: seq<seq<Byte>>): seq<Byte> {
    if fields == [] then [] else Concat(fields[..|fields| - 1]) + fields[|fields| - 1]
  }

  lemma {:induction false} ConcatPrefix(fields: seq<seq<Byte>>, k: nat)
    requires k <= |fields|
    ensures |Concat(fields[..k])| <= |Concat(fields)|
    decreases |fields|
  {
    if k < |fields| {
      var n := |fields| - 1;
      ConcatPrefix(fields[..n], k);
      assert fields[..n][..k] == fields[..k];
    } else {
      assert fields[..k] == fields;
    }
  }

  lemma ConcatNext(fields: seq<seq<Byte>>, k: nat)
    requires k < |fields|
    ensures Concat(fields[..k + 1]) == Concat(fields[..k]) + fields[k]
  {
    assert fields[..k + 1][..k] == fields[..k];
  }

  /** The fields of a header are stored one after the other. */
  method StoreFields(buf: array<Byte>, i: nat, fields: seq<seq<Byte>>)
    requires i + |Concat(fields)| <= buf.Length
    modifies buf
    ensures Written(buf[..], old(buf[..]), i, Concat(fields))
  {
    hide Written, Concat;
    ghost var was := buf[..];
    var at, k := i, 0;
    FieldsStart(was, i, fields);
    while k < |fields|
      invariant 0 <= k <= |fields| && at == i + |Concat(fields[..k])|
      invariant Written(buf[..], was, i, Concat(fields[..k]))
    {
      ConcatNext(fields, k);
      ConcatPrefix(fields, k + 1);
      ghost var now := buf[..];
      Store(buf, at, fields[k]);
      WrittenMore(now, was, i, Concat(fields[..k]), at, fields[k], buf[..]);
      at, k := at + |fields[k]|, k + 1;
    }
    assert fields[..k] == fields;
  }

  lemma FieldsStart(was: seq<Byte>, i: nat, fields: seq<seq<Byte>>)
    requires i <= |was|
    ensures Concat(fields[..0]) == [] && Written(was, was, i, [])
  {
  }

  /** A field that is stored with htons. */
  function Net16(x: U16): seq<Byte> {
    [Hi(x), Lo(x)]
  }

  /** A field that is stored with htonl. */
  function Net32(x: U32): seq<Byte> {
    Net16(Upper(x)) + Net16(Lower(x))
  }

  // ----- the fields of each header, in the order of the structs -----------------------

  function EthFields(h: EthHdr): seq<seq<Byte>> {
    [h.dst, h.src, Net16(h.kind)]
  }

  function ArpFields(h: ArpHdr): seq<seq<Byte>> {
    [Net16(h.hwtype), Net16(h.ptype), [h.hwlen], [h.plen], Net16(h.op), h.hwsrc, h.psrc, h.hwdst, h.pdst]
  }

  function Ip4Fields(h: Ip4Hdr): seq<seq<Byte>> {
    [[16 * h.version + h.ihl], [h.tos], Net16(h.len), Net16(h.id), Net16(h.fragOff), [h.ttl], [h.proto],
     Net16(0), h.src, h.dst]
  }

  function IcmpFields(h: IcmpHdr): seq<seq<Byte>> {
    [[h.kind], [h.code], Net16(0), Net16(h.id), Net16(h.number)]
  }

  function UdpFields(h: UdpHdr): seq<seq<Byte>> {
    [Net16(h.sport), Net16(h.dport), Net16(h.len), Net16(0)]
  }

  /** The bit-fields of a TCP header are set one by one in the bytes that the buffer holds. */
  function SetOffset(b: Byte, h: TcpHdr): Byte {
    16 * h.doff + 2 * ((b / 2) % 8) + Bit(h.ns)
  }

  function SetFlags(b: Byte, f: Flags): Byte {
    var g := FlagsOf(b);
    var g := g.(fin := f.fin);
    var g := g.(syn := f.syn);
    var g := g.(rst := f.rst);
    var g := g.(psh := f.psh);
    var g := g.(ack := f.ack);
    var g := g.(urg := f.urg);
    var g := g.(ece := f.ece);
    var g := g.(cwr := f.cwr);
    FlagByte(g)
  }

  function TcpFields(h: TcpHdr, offset: Byte, flags: Byte): seq<seq<Byte>> {
    [Net16(h.sport), Net16(h.dport), Net32(h.number), Net32(h.ackNumber), [SetOffset(offset, h)],
     [SetFlags(flags, h.flags)], Net16(h.window), Net16(0), Net16(h.urgPtr)]
  }

  // ----- they make up its wire form -----------------------------------------------------

  lemma Concat4(a: seq<seq<Byte>>)
    requires |a| == 4
    ensures Concat(a) == a[0] + a[1] + a[2] + a[3]
  {
    Concat3(a[..3]);
  }

  lemma Concat3(a: seq<seq<Byte>>)
    requires |a| == 3
    ensures Concat(a) == a[0] + a[1] + a[2]
  {
    assert a[..2][..1] == [a[0]];
    assert Concat([a[0]]) == Concat([]) + a[0];
  }

  lemma Concat5(a: seq<seq<Byte>>)
    requires |a| == 5
    ensures Concat(a) == a[0] + a[1] + a[2] + a[3] + a[4]
  {
    Concat4(a[..4]);
  }

  lemma Concat9(a: seq<seq<Byte>>)
    requires |a| == 9
    ensures Concat(a) == a[0] + a[1] + a[2] + a[3] + a[4] + a[5] + a[6] + a[7] + a[8]
  {
    Concat5(a[..5]);
    ConcatNext(a, 5);
    ConcatNext(a, 6);
    ConcatNext(a, 7);
    ConcatNext(a, 8);
    assert a[..9] == a;
  }

  lemma Concat10(a: seq<seq<Byte>>)
    requires |a| == 10
    ensures Concat(a) == a[0] + a[1] + a[2] + a[3] + a[4] + a[5] + a[6] + a[7] + a[8] + a[9]
  {
    Concat9(a[..9]);
  }

  lemma EthIs(h: EthHdr)
    ensures Concat(EthFields(h)) == Wire(Eth(h))
  {
    Concat3(EthFields(h));
  }

  lemma ArpIs(h: ArpHdr)
    requires Built(Arp(h))
    ensures Concat(ArpFields(h)) == Wire(Arp(h))
  {
    hide Concat;
    Concat9(ArpFields(h));
    assert Net16(h.hwtype) + Net16(h.ptype) + [h.hwlen] + [h.plen] + Net16(h.op)
        == seq(8, i requires 0 <= i < 8 => ArpByte(h, i));
  }

  lemma Ip4Is(h: Ip4Hdr)
    ensures Concat(Ip4Fields(h)) == Wire(Ip4(h.(chksum := 0)))
  {
    hide Concat;
    var z := h.(chksum := 0);
    Concat10(Ip4Fields(h));
    assert [16 * h.version + h.ihl] + [h.tos] + Net16(h.len) + Net16(h.id) + Net16(h.fragOff) + [h.ttl] + [h.proto]
           + Net16(0) == seq(12, i requires 0 <= i < 12 => Ip4Byte(z, i));
  }

  lemma IcmpIs(h: IcmpHdr)
    ensures Concat(IcmpFields(h)) == Wire(Icmp(h.(chksum := 0)))
  {
    hide Concat;
    Concat5(IcmpFields(h));
  }

  lemma UdpIs(h: UdpHdr)
    ensures Concat(UdpFields(h)) == Wire(Udp(h.(chksum := 0)))
  {
    hide Concat;
    Concat4(UdpFields(h));
  }

  lemma TcpIs(h: TcpHdr, offset: Byte, flags: Byte)
    ensures Concat(TcpFields(h, offset, flags)) == Wire(Tcp(h.(chksum := 0, res := (offset / 2) % 8)))
  {
    hide Concat, Wire, SetFlags, SetOffset, Net16;
    var z := h.(chksum := 0, res := (offset / 2) % 8);
    Concat9(TcpFields(h, offset, flags));
    TcpFront(z);
    TcpBack(z);
    TcpParts(z);
    assert SetFlags(flags, h.flags) == FlagByte(h.flags) by {
      SetFlagsIs(flags, h.flags);
    }
    assert SetOffset(offset, h) == OffsetByte(z) by {
      SetOffsetIs(offset, h);
    }
  }

  lemma SetFlagsIs(b: Byte, f: Flags)
    ensures SetFlags(b, f) == FlagByte(f)
  {
  }

  lemma SetOffsetIs(b: Byte, h: TcpHdr)
    ensures SetOffset(b, h) == OffsetByte(h.(chksum := 0, res := (b / 2) % 8))
  {
  }

  function TcpSlice(h: TcpHdr, from: nat, to: nat): seq<Byte>
    requires from <= to <= 20
  {
    Wire(Tcp(h))[from..to]
  }

  lemma TcpFront(h: TcpHdr)
    ensures Net16(h.sport) + Net16(h.dport) + Net32(h.number) + Net32(h.ackNumber) == TcpSlice(h, 0, 12)
  {
  }

  lemma TcpBack(h: TcpHdr)
    ensures [OffsetByte(h)] + [FlagByte(h.flags)] + Net16(h.window) + Net16(h.chksum) + Net16(h.urgPtr)
         == TcpSlice(h, 12, 20)
  {
  }

  lemma TcpParts(h: TcpHdr)
    ensures Wire(Tcp(h)) == TcpSlice(h, 0, 12) + TcpSlice(h, 12, 20)
  {
  }
}
