/** Exclusive or of numbers given byte by byte, where bit-vectors can be computed with. */
module WordBytes {
  import opened Words
  import opened Bits

  function Value(b: bv8): (n: nat)
    ensures n < 256
  {
    b as nat
  }

  function Half(b: bv8): bv8 {
    b >> 1
  }

  function Lowest(b: bv8): nat {
    Value(b & 1)
  }

  function Mixed(u: bv8, v: bv8): bv8 {
    u ^ v
  }

  lemma Halves(u: bv8)
    ensures Value(u) == 2 * Value(Half(u)) + Lowest(u) && Lowest(u) < 2
  {
  }

  lemma MixedHalves(u: bv8, v: bv8)
    ensures Half(Mixed(u, v)) == Mixed(Half(u), Half(v))
    ensures Lowest(Mixed(u, v)) == (Lowest(u) + Lowest(v)) % 2
  {
  }

  lemma {:induction false} XorByte(u: bv8, v: bv8)
    ensures Xor(Value(u), Value(v)) == Value(Mixed(u, v))
    decreases Value(u) + Value(v)
  {
    hide *;
    if Value(u) + Value(v) == 0 {
      ZeroByte(u, v);
    } else {
      Halves(u);
      Halves(v);
      Halves(Mixed(u, v));
      MixedHalves(u, v);
      XorByte(Half(u), Half(v));
      XorBit(Value(Half(u)), Lowest(u), Value(Half(v)), Lowest(v), Value(Half(Mixed(u, v))));
    }
  }

  lemma ZeroByte(u: bv8, v: bv8)
    requires Value(u) + Value(v) == 0
    ensures Xor(Value(u), Value(v)) == Value(Mixed(u, v))
  {
    XorZero(0);
  }

  // ----- numbers -------------------------------------------------------------------

  lemma XorNextByte(h: nat, u: nat, g: nat, v: nat)
    requires u < 256 && v < 256
    ensures Xor(u + 256 * h, v + 256 * g) == Xor(u, v) + 256 * Xor(h, g)
  {
    hide Xor, Shr;
    var x, y := u + 256 * h, v + 256 * g;
    assert Pow2(8) == 256;
    XorLow(x, y, 8);
    XorHigh(x, y, 8);
    ShrIsDiv(x, 8);
    ShrIsDiv(y, 8);
    ShrIsDiv(Xor(x, y), 8);
    DivModUnique(256, h, u);
    DivModUnique(256, g, v);
  }

  /** Four bytes, lowest first, above which there is something else. */
  lemma XorFourBytes(a: nat, b: nat, c: nat, d: nat, h: nat, p: nat, q: nat, r: nat, s: nat, g: nat)
    requires a < 256 && b < 256 && c < 256 && d < 256 && p < 256 && q < 256 && r < 256 && s < 256
    ensures Xor(a + 0x100 * b + 0x1_0000 * c + 0x100_0000 * d + 0x1_0000_0000 * h,
                p + 0x100 * q + 0x1_0000 * r + 0x100_0000 * s + 0x1_0000_0000 * g)
         == Xor(a, p) + 0x100 * Xor(b, q) + 0x1_0000 * Xor(c, r) + 0x100_0000 * Xor(d, s) + 0x1_0000_0000 * Xor(h, g)
  {
    hide Xor;
    XorNextByte(h, d, g, s);
    var h3, g3 := d + 256 * h, s + 256 * g;
    XorNextByte(h3, c, g3, r);
    var h2, g2 := c + 256 * h3, r + 256 * g3;
    XorNextByte(h2, b, g2, q);
    var h1, g1 := b + 256 * h2, q + 256 * g2;
    XorNextByte(h1, a, g1, p);
  }

  /** The number with the given four bytes, lowest first. */
  function Four(a: bv8, b: bv8, c: bv8, d: bv8): nat {
    Value(a) + 0x100 * Value(b) + 0x1_0000 * Value(c) + 0x100_0000 * Value(d)
  }

  lemma XorFour(a: bv8, b: bv8, c: bv8, d: bv8, h: nat, p: bv8, q: bv8, r: bv8, s: bv8, g: nat)
    ensures Xor(Four(a, b, c, d) + 0x1_0000_0000 * h, Four(p, q, r, s) + 0x1_0000_0000 * g)
         == Four(Mixed(a, p), Mixed(b, q), Mixed(c, r), Mixed(d, s)) + 0x1_0000_0000 * Xor(h, g)
  {
    hide Xor, Value, Mixed;
    XorByte(a, p);
    XorByte(b, q);
    XorByte(c, r);
    XorByte(d, s);
    XorFourBytes(Value(a), Value(b), Value(c), Value(d), h, Value(p), Value(q), Value(r), Value(s), g);
  }

  /** The bytes of a 64-bit number, lowest first. */
  datatype Word = Word(a: bv8, b: bv8, c: bv8, d: bv8, e: bv8, f: bv8, g: bv8, h: bv8)

  function Number(w: Word): nat {
    Four(w.a, w.b, w.c, w.d) + 0x1_0000_0000 * Four(w.e, w.f, w.g, w.h)
  }

  function MixedWords(w: Word, v: Word): Word {
    Word(Mixed(w.a, v.a), Mixed(w.b, v.b), Mixed(w.c, v.c), Mixed(w.d, v.d),
         Mixed(w.e, v.e), Mixed(w.f, v.f), Mixed(w.g, v.g), Mixed(w.h, v.h))
  }

  /** Exclusive or works byte by byte. */
  lemma XorWords(w: Word, v: Word)
    ensures Xor(Number(w), Number(v)) == Number(MixedWords(w, v))
  {
    hide Xor, Four, Mixed;
    XorFour(w.a, w.b, w.c, w.d, Four(w.e, w.f, w.g, w.h), v.a, v.b, v.c, v.d, Four(v.e, v.f, v.g, v.h));
    XorFour(w.e, w.f, w.g, w.h, 0, v.e, v.f, v.g, v.h, 0);
    XorNothing();
  }

  lemma XorSmall(w: Word, x: nat, b: bv8, y: nat, z: nat)
    requires Number(w) == x && Value(b) == y && Number(w.(a := Mixed(w.a, b))) == z
    ensures Xor(x, y) == z
  {
    var v := Word(b, 0, 0, 0, 0, 0, 0, 0);
    assert MixedWords(w, v) == w.(a := Mixed(w.a, b));
    XorWords(w, v);
  }

  lemma XorIs(w: Word, x: nat, v: Word, y: nat, z: nat)
    requires Number(w) == x && Number(v) == y && Number(MixedWords(w, v)) == z
    ensures Xor(x, y) == z
  {
    XorWords(w, v);
  }
}
