/** Frames as other hosts send them: headers may carry options, which the decoder skips. */
module Framing {
  import opened Words
  import opened Headers
  import opened Unpack
  import opened RoundTrip

  /** A header and the options behind it. */
  datatype Piece = Piece(layer: Layer, options: seq<Byte>)

  function Layers(ps: seq<Piece>): (ls: seq<Layer>)
    ensures |ls| == |ps| && forall i :: 0 <= i < |ps| ==> ls[i] == ps[i].layer
  {
    if ps == [] then [] else [ps[0].layer] + Layers(ps[1..])
  }

  function Bytes(ps: seq<Piece>): seq<Byte>
    requires forall i :: 0 <= i < |ps| ==> Built(ps[i].layer)
  {
    if ps == [] then [] else Wire(ps[0].layer) + (ps[0].options + Bytes(ps[1..]))
  }

  /** The options fill the header up to the length it announces. */
  predicate Proper(p: Piece) {
    Built(p.layer) && Decodable(p.layer) && Length(p.layer) + |p.options| == Skip(p.layer)
  }

  /** A frame, outermost layer first, in which every layer announces the next one. */
  predicate Framed(k: Kind, ps: seq<Piece>)
    decreases |ps|
  {
    ps != [] ==> KindOf(ps[0].layer) == k && Proper(ps[0]) && Framed(NextKind(ps[0].layer), ps[1..])
  }

  lemma {:induction false} FramedBuilt(k: Kind, ps: seq<Piece>)
    requires Framed(k, ps)
    ensures forall i :: 0 <= i < |ps| ==> Built(ps[i].layer)
    decreases |ps|
  {
    if ps != [] {
      FramedBuilt(NextKind(ps[0].layer), ps[1..]);
      assert forall i :: 1 <= i < |ps| ==> ps[i] == ps[1..][i - 1];
    }
  }

  /** One layer of the decoder, options and all. */
  lemma DecodeFirst(l: Layer, options: seq<Byte>, rest: seq<Byte>)
    requires Proper(Piece(l, options)) && (l.Raw? ==> rest == [])
    ensures var b := Wire(l) + (options + rest);
            && |b| > 0 && Parse(KindOf(l), b) == Some(l) && Rest(b, Skip(l)) == rest
  {
    hide Wire, Parse, Built, Decodable;
    DecodableIs(l);
    ParseWire(l, options + rest);
    NotEmpty(l);
  }

  lemma DecodableIs(l: Layer)
    requires Decodable(l)
    ensures l.Ip4? ==> l.ip4.version == 4
  {
  }

  lemma NotEmpty(l: Layer)
    requires Decodable(l) && Built(l)
    ensures Length(l) > 0
  {
  }

  /** The decoder finds exactly the layers of the frame, at any depth and with any options. */
  lemma {:induction false} DecodeFramed(k: Kind, ps: seq<Piece>)
    requires Framed(k, ps)
    ensures forall i :: 0 <= i < |ps| ==> Built(ps[i].layer)
    ensures Decode(k, Bytes(ps)) == Some(Layers(ps))
    decreases |ps|
  {
    FramedBuilt(k, ps);
    if ps != [] {
      var l, rest := ps[0].layer, ps[1..];
      DecodeFramed(NextKind(l), rest);
      DecodeFirst(l, ps[0].options, Bytes(rest));
      DecodeStep(k, Bytes(ps), l, Bytes(rest));
    }
  }

  lemma DecodeStep(k: Kind, b: seq<Byte>, l: Layer, rest: seq<Byte>)
    requires |b| > 0 && k != KNone && Parse(k, b) == Some(l) && Rest(b, Skip(l)) == rest
    ensures Decode(k, b) == Prepend([l], Decode(NextKind(l), rest))
  {
  }
}
