/** Unpacking what pkt_pack produces: exactly which stacks come back. */
module RoundTrip {
  import opened Words
  import opened Headers
  import opened Encode
  import opened Unpack

  /** No options: the header length field says what the packer writes. */
  predicate PlainHeader(l: Layer) {
    (l.Ip4? ==> l.ip4.ihl == 5) && (l.Tcp? ==> l.tcp.doff == 5) && Built(l)
  }

  predicate Plain(ls: seq<Layer>) {
    forall i :: 0 <= i < |ls| ==> PlainHeader(ls[i])
  }

  /** The layer is one that a decoder accepts and that takes up space. */
  predicate Decodable(l: Layer) {
    (l.Ip4? ==> l.ip4.version == 4) && (l.Raw? ==> l.payload != [])
  }

  /** Layer l, once filled in, announces the layer above it. */
  predicate Carries(l: Layer, above: Layer) {
    match l
    case Eth(_) => above.Arp? || above.Ip4?
    case Arp(_) => false
    case Ip4(_) => above.Icmp? || above.Udp? || above.Tcp?
    case Icmp(h) => if QuotesPacket(h.kind) then above.Ip4? else above.Raw?
    case Udp(_) => above.Raw?
    case Tcp(_) => above.Raw?
    case Raw(_) => false
  }

  /** The stacks that survive: an Ethernet frame in which every layer announces the one above it. */
  predicate Stackable(ls: seq<Layer>) {
    && ls != [] && ls[|ls| - 1].Eth?
    && (forall i :: 0 <= i < |ls| ==> Decodable(ls[i]))
    && (forall i :: 0 < i < |ls| ==> Carries(ls[i], ls[i - 1]))
  }

  /** The k innermost layers of a filled stack decode one after the other, starting with kind t. */
  predicate Chained(ls: seq<Layer>, k: nat, t: Kind)
    requires k <= |ls|
  {
    k == 0 ||
    (KindOf(ls[k - 1]) == t && Decodable(ls[k - 1]) && Chained(ls, k - 1, NextKind(ls[k - 1])))
  }

  lemma FillAnnounces(l: Layer, above: Layer, plen: nat)
    ensures NextKind(Fill(l, KindOf(above), plen)) == KindOf(above) <==> Carries(l, above)
    ensures KindOf(Fill(l, KindOf(above), plen)) == KindOf(l)
  {
  }

  lemma FillDecodable(l: Layer, above: Kind, plen: nat)
    ensures Decodable(Fill(l, above, plen)) <==> Decodable(l)
    ensures KindOf(Fill(l, above, plen)) == KindOf(l)
    ensures PlainHeader(Fill(l, above, plen)) <==> PlainHeader(l)
  {
  }

  /** The k innermost layers carry each other and are decodable. */
  predicate CarriedUpTo(ls: seq<Layer>, k: nat)
    requires k <= |ls|
  {
    (forall i :: 0 <= i < k ==> Decodable(ls[i])) && (forall i :: 0 < i < k ==> Carries(ls[i], ls[i - 1]))
  }

  lemma CarriedStep(ls: seq<Layer>, k: nat)
    requires 2 <= k <= |ls|
    ensures CarriedUpTo(ls, k) <==>
            CarriedUpTo(ls, k - 1) && Decodable(ls[k - 1]) && Carries(ls[k - 1], ls[k - 2])
  {
  }

  /** The layer that the first pass leaves at position k. */
  lemma FilledLayer(ls: seq<Layer>, k: nat)
    requires k < |ls|
    ensures var l := Filled(ls)[k];
            && KindOf(l) == KindOf(ls[k]) && (Decodable(l) <==> Decodable(ls[k]))
            && (PlainHeader(l) <==> PlainHeader(ls[k]))
            && (k > 0 ==> (NextKind(l) == KindOf(ls[k - 1]) <==> Carries(ls[k], ls[k - 1])))
  {
    FillDecodable(ls[k], Above(ls, k), PackedLength(ls, k + 1));
    if k > 0 {
      FillAnnounces(ls[k], ls[k - 1], PackedLength(ls, k + 1));
    }
  }

  /** The condition on what the caller passes is the chain condition on what is filled in. */
  lemma {:induction false} ChainedIffCarries(ls: seq<Layer>, k: nat, t: Kind)
    requires 1 <= k <= |ls|
    ensures Chained(Filled(ls), k, t) <==> KindOf(ls[k - 1]) == t && CarriedUpTo(ls, k)
  {
    FilledLayer(ls, k - 1);
    if k > 1 {
      CarriedStep(ls, k);
      ChainedIffCarries(ls, k - 1, NextKind(Filled(ls)[k - 1]));
    }
  }

  /** One layer of the decoder on one layer of the encoder. */
  lemma DecodeLayer(l: Layer, above: seq<Byte>)
    requires PlainHeader(l) && Decodable(l) && (l.Raw? ==> above == [])
    ensures Decode(KindOf(l), Wire(l) + above) == Prepend([l], Decode(NextKind(l), above))
  {
    ParseWire(l, above);
    var b := Wire(l) + above;
    assert Skip(l) == Length(l);
    assert Rest(b, Skip(l)) == above;
  }

  lemma SealedPlain(ls: seq<Layer>, k: nat, was: seq<Byte>)
    requires k < |ls| && Plain(ls) && AllBuilt(ls) && PackedLength(ls, |ls|) <= |was|
    ensures var l := SealedAt(ls, k, was);
            && KindOf(l) == KindOf(ls[k]) && NextKind(l) == NextKind(ls[k])
            && (Decodable(l) <==> Decodable(ls[k])) && PlainHeader(l)
  {
    SealChangesOnlyChecks(ls[k], Below(ls, k), Encoded(ls, k, was), Stale(ls, k, was));
  }

  lemma DecodeNothing(t: Kind)
    ensures Decode(t, []) == Some([])
  {
  }

  lemma {:induction false} ChainedDecodes(ls: seq<Layer>, k: nat, t: Kind, was: seq<Byte>)
    requires k <= |ls| && Plain(ls) && AllBuilt(ls) && PackedLength(ls, |ls|) <= |was|
    requires Chained(ls, k, t)
    ensures Decode(t, Encoded(ls, k, was)) == Some(SealedLayers(ls, k, was))
  {
    hide Wire, Decode, Seal, SealedAt, Plain, AllBuilt;
    if k == 0 {
      DecodeNothing(t);
    } else {
      var l := SealedAt(ls, k - 1, was);
      SealedPlain(ls, k - 1, was);
      ChainedDecodes(ls, k - 1, NextKind(l), was);
      DecodeLayer(l, Encoded(ls, k - 1, was));
    }
  }

  /** If the decoder returns a layer that was written first, it went on behind that layer. */
  lemma DecodedFirst(l: Layer, above: seq<Byte>, t: Kind, rest: seq<Layer>)
    requires PlainHeader(l) && Decode(t, Wire(l) + above) == Some([l] + rest)
    ensures KindOf(l) == t && Decodable(l)
    ensures Decode(NextKind(l), above) == Some(rest)
  {
    var b := Wire(l) + above;
    assert |([l] + rest)| >= 1 && ([l] + rest)[0] == l && ([l] + rest)[1..] == rest;
    assert |b| != 0 && t != KNone && Parse(t, b).Some?;
    var m := Parse(t, b).value;
    var tail := Decode(NextKind(m), Rest(b, Skip(m)));
    ParseShrinks(t, b);
    assert tail.Some? && [m] + tail.value == [l] + rest;
    assert ([m] + tail.value)[0] == m && ([m] + tail.value)[1..] == tail.value;
    assert Rest(b, Skip(l)) == above;
  }

  lemma {:induction false} DecodesOnlyChained(ls: seq<Layer>, k: nat, t: Kind, was: seq<Byte>)
    requires k <= |ls| && Plain(ls) && AllBuilt(ls) && PackedLength(ls, |ls|) <= |was|
    requires Decode(t, Encoded(ls, k, was)) == Some(SealedLayers(ls, k, was))
    ensures Chained(ls, k, t)
  {
    hide Wire, Decode, Seal, SealedAt, NextKind, Plain, AllBuilt;
    if k != 0 {
      var l := SealedAt(ls, k - 1, was);
      SealedPlain(ls, k - 1, was);
      DecodedFirst(l, Encoded(ls, k - 1, was), t, SealedLayers(ls, k - 1, was));
      DecodesOnlyChained(ls, k - 1, NextKind(l), was);
    }
  }

  /**
  For every stack of headers without options, of any depth: unpacking the packed bytes gives the
  same layers outermost first, with the fields pkt_pack filled in, if and only if the stack is
  an Ethernet frame in which every layer carries the one above it.
  */
  lemma RoundTripIff(ls: seq<Layer>, was: seq<Byte>)
    requires Plain(ls) && PackedLength(ls, |ls|) <= |was|
    ensures AllBuilt(ls)
    ensures Unpacked(PackedBytes(ls, was)) == Some(WireLayers(ls, was)) <==> Stackable(ls)
  {
    FilledIsBuilt(ls);
    if ls != [] {
      FilledPlain(ls);
      UnpackedIffChained(Filled(ls), was, KEth);
      StackableIsChained(ls, KEth);
    }
  }

  lemma StackableIsChained(ls: seq<Layer>, t: Kind)
    requires t == KEth && ls != []
    ensures Stackable(ls) <==> Chained(Filled(ls), |ls|, t)
  {
    ChainedIffCarries(ls, |ls|, t);
  }

  lemma FilledPlain(ls: seq<Layer>)
    requires Plain(ls)
    ensures Plain(Filled(ls))
  {
    forall i | 0 <= i < |ls| ensures PlainHeader(Filled(ls)[i]) {
      FilledLayer(ls, i);
    }
  }

  /** The k innermost layers decode to themselves if and only if they are chained. */
  lemma DecodeIffChained(ls: seq<Layer>, k: nat, t: Kind, was: seq<Byte>)
    requires k <= |ls| && Plain(ls) && AllBuilt(ls) && PackedLength(ls, |ls|) <= |was|
    ensures Decode(t, Encoded(ls, k, was)) == Some(SealedLayers(ls, k, was)) <==> Chained(ls, k, t)
  {
    if Chained(ls, k, t) {
      ChainedDecodes(ls, k, t, was);
    } else if Decode(t, Encoded(ls, k, was)) == Some(SealedLayers(ls, k, was)) {
      DecodesOnlyChained(ls, k, t, was);
    }
  }

  lemma LongEnough(ls: seq<Layer>, t: Kind)
    requires t == KEth && ls != [] && Chained(ls, |ls|, t)
    ensures PackedLength(ls, |ls|) >= 14
  {
  }

  /** The minimum length of a frame makes no difference to a chained stack. */
  lemma UnpackedFrame(b: seq<Byte>, t: Kind, expected: seq<Layer>)
    requires t == KEth && (Decode(t, b) == Some(expected) && expected != [] ==> |b| >= 14)
    ensures Unpacked(b) == Some(expected) && expected != [] <==> Decode(t, b) == Some(expected) && expected != []
  {
  }

  /** A filled stack comes back if and only if it is not empty and chained from an Ethernet header on. */
  lemma UnpackedIffChained(ls: seq<Layer>, was: seq<Byte>, t: Kind)
    requires t == KEth && ls != [] && Plain(ls) && AllBuilt(ls) && PackedLength(ls, |ls|) <= |was|
    ensures Unpacked(Encoded(ls, |ls|, was)) == Some(SealedLayers(ls, |ls|, was)) <==> Chained(ls, |ls|, t)
  {
    DecodeIffChained(ls, |ls|, t, was);
    if Chained(ls, |ls|, t) {
      LongEnough(ls, t);
    }
    UnpackedFrame(Encoded(ls, |ls|, was), t, SealedLayers(ls, |ls|, was));
  }
}
