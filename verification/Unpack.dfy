/** pkt_unpack: the decoder loop over a received buffer. */
module Unpack {
  import opened Words
  import opened Headers

  /** What is left of the buffer; a header length from the wire may point beyond its end. */
  function Rest(b: seq<Byte>, i: nat): seq<Byte> {
    if i <= |b| then b[i..] else []
  }

  /** The order in which kinds can follow each other without a byte being consumed. */
  function Rank(k: Kind): nat {
    match k
    case KNone => 0
    case KArp => 0
    case KRaw => 1
    case KIcmp => 2
    case KUdp => 2
    case KTcp => 2
    case KIp4 => 3
    case KEth => 4
  }

  lemma ParseShrinks(k: Kind, b: seq<Byte>)
    requires k != KNone && |b| > 0 && Parse(k, b).Some?
    ensures var l := Parse(k, b).value;
            |Rest(b, Skip(l))| < |b| || (|Rest(b, Skip(l))| == |b| && Rank(NextKind(l)) < Rank(k))
  {
  }

  /** All layers from kind k on, outermost first; None if some layer is malformed. */
  function Decode(k: Kind, b: seq<Byte>): Option<seq<Layer>>
    decreases |b|, Rank(k)
  {
    if |b| == 0 || k == KNone then Some([])
    else
      match Parse(k, b)
      case None => None
      case Some(l) =>
        ParseShrinks(k, b);
        Prepend([l], Decode(NextKind(l), Rest(b, Skip(l))))
  }

  function Prepend(ls: seq<Layer>, o: Option<seq<Layer>>): Option<seq<Layer>> {
    if o.Some? then Some(ls + o.value) else None
  }

  /** The layers of a received frame. */
  function Unpacked(buf: seq<Byte>): Option<seq<Layer>> {
    if |buf| < 14 then None else Decode(KEth, buf)
  }

  /** The loop of pkt_unpack. It ends on every buffer and reads only inside it. */
  method PktUnpack(buf: seq<Byte>) returns (n: nat, layers: seq<Layer>)
    ensures Unpacked(buf).Some? ==> layers == Unpacked(buf).value && n == |layers|
    ensures Unpacked(buf).None? ==> n == 0
    ensures 4 * n <= |buf| + 1
  {
    n, layers := 0, [];
    if |buf| < 14 {
      return;
    }
    var i: nat := 0;
    var next := KEth;
    assert Rest(buf, 0) == buf;
    PrependNothing(Decode(KEth, buf));
    while i < |buf| && next != KNone
      invariant n == |layers|
      invariant Prepend(layers, Decode(next, Rest(buf, i))) == Decode(KEth, buf)
      decreases |Rest(buf, i)|, Rank(next)
    {
      var rest := buf[i..];
      ghost var before := layers;
      match Parse(next, rest) {
        case None =>
          return 0, [];
        case Some(l) =>
          ParseShrinks(next, rest);
          assert Rest(buf, i + Skip(l)) == Rest(rest, Skip(l));
          layers := layers + [l];
          PrependPrepend(before, [l], Decode(NextKind(l), Rest(rest, Skip(l))));
          next := NextKind(l);
          i := i + Skip(l);
          n := n + 1;
      }
    }
    LayersLinear(KEth, buf);
  }

  lemma PrependNothing(o: Option<seq<Layer>>)
    ensures Prepend([], o) == o
  {
    if o.Some? {
      assert [] + o.value == o.value;
    }
  }

  lemma PrependPrepend(a: seq<Layer>, b: seq<Layer>, o: Option<seq<Layer>>)
    ensures Prepend(a, Prepend(b, o)) == Prepend(a + b, o)
  {
    if o.Some? {
      assert a + (b + o.value) == (a + b) + o.value;
    }
  }

  /** Layers that consume nothing are paid for by the kinds that lead to them. */
  function Credit(k: Kind): nat {
    match k
    case KNone => 0
    case KArp => 0
    case KUdp => 0
    case KEth => 1
    case KRaw => 3
    case KTcp => 7
    case KIcmp => 7
    case KIp4 => 11
  }

  /** A layer pays four units, out of the bytes it consumes and the credit of its kind. */
  lemma LayerPays(k: Kind, b: seq<Byte>)
    requires k != KNone && |b| > 0 && Parse(k, b).Some?
    ensures var l := Parse(k, b).value;
            var rest := Rest(b, Skip(l));
            if |rest| == 0 then 4 <= |b| + Credit(k) else 4 + |rest| + Credit(NextKind(l)) <= |b| + Credit(k)
  {
  }

  /** The number of layers is linear in the length of the buffer. */
  lemma {:induction false} LayersLinear(k: Kind, b: seq<Byte>)
    ensures Decode(k, b).Some? ==> 4 * |Decode(k, b).value| <= |b| + Credit(k)
    decreases |b|, Rank(k)
  {
    hide Parse, Skip, NextKind, Credit;
    if |b| != 0 && k != KNone && Parse(k, b).Some? {
      var l := Parse(k, b).value;
      var rest := Rest(b, Skip(l));
      ParseShrinks(k, b);
      LayerPays(k, b);
      LayersLinear(NextKind(l), rest);
      if |rest| == 0 {
        assert Decode(NextKind(l), rest) == Some([]);
      }
    }
  }

  /** Each layer is of the kind that the layer below it announced. */
  predicate Announced(k: Kind, ls: seq<Layer>) {
    && (ls != [] ==> KindOf(ls[0]) == k)
    && forall i :: 0 < i < |ls| ==> KindOf(ls[i]) == NextKind(ls[i - 1])
  }

  /** Whatever the bytes, a decoded stack is one in which every layer was announced. */
  lemma {:induction false} DecodeAnnounced(k: Kind, b: seq<Byte>)
    ensures Decode(k, b).Some? ==> Announced(k, Decode(k, b).value)
    decreases |b|, Rank(k)
  {
    if |b| != 0 && k != KNone && Parse(k, b).Some? {
      var l := Parse(k, b).value;
      var rest := Rest(b, Skip(l));
      ParseShrinks(k, b);
      DecodeAnnounced(NextKind(l), rest);
      if Decode(NextKind(l), rest).Some? {
        AnnouncedCons(k, l, Decode(NextKind(l), rest).value);
      }
    }
  }

  lemma AnnouncedCons(k: Kind, l: Layer, ls: seq<Layer>)
    requires KindOf(l) == k && Announced(NextKind(l), ls)
    ensures Announced(k, [l] + ls)
  {
  }
}
