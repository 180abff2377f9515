/** pyrhash: the modified FNV hash, and how it separates messages. */
module Hash {
  import opened Words
  import opened Bits

  const MULTIPLIER: int := 1000003

  /** The inverse of the multiplier modulo 2^64. */
  const INVERSE: int := 0xdf91_87fd_7881_9a6b

  function Times(x: nat): U64 {
    (MULTIPLIER * x) % TWO64
  }

  function Xor64(x: U64, y: U64): (r: U64)
    ensures r == Xor(x, y)
  {
    Pow2Of64();
    XorBound(x, y, 64);
    Xor(x, y)
  }

  /** One step of the hash loop. */
  function Absorb(x: U64, b: Byte): U64 {
    Xor64(Times(x), b)
  }

  function AbsorbAll(x: U64, m: seq<Byte>): U64
    decreases |m|
  {
    if m == [] then x else AbsorbAll(Absorb(x, m[0]), m[1..])
  }

  /** The starting state, into which the first byte goes shifted left by seven. */
  function Start(prefix: U64, b: Byte): U64 {
    Xor64(prefix, 128 * (b as int))
  }

  /** The hash of m under a key of two 64-bit words. */
  function Digest(prefix: U64, suffix: U64, m: seq<Byte>): U64
    requires |m| < TWO64
  {
    if |m| == 0 then 0
    else Xor64(Xor64(AbsorbAll(Start(prefix, m[0]), m), |m|), suffix)
  }

  method Pyrhash(prefix: U64, suffix: U64, m: seq<Byte>) returns (x: U64)
    requires |m| < TWO64 / 2
    ensures x == Digest(prefix, suffix, m)
  {
    if |m| == 0 {
      return 0;
    }
    var p := 0;
    x := Start(prefix, m[0]);
    while p < |m|
      invariant 0 <= p <= |m|
      invariant AbsorbAll(x, m[p..]) == AbsorbAll(Start(prefix, m[0]), m)
    {
      x := Absorb(x, m[p]);
      p := p + 1;
    }
    x := Xor64(x, |m|);
    x := Xor64(x, suffix);
  }

  lemma Pow2Of64()
    ensures Pow2(64) == TWO64 && Pow2(16) == TWO16
  {
    assert Pow2(8) == 256;
    assert Pow2(16) == TWO16;
    assert Pow2(24) == 0x100_0000;
    assert Pow2(32) == TWO32;
    assert Pow2(40) == 0x100_0000_0000;
    assert Pow2(48) == 0x1_0000_0000_0000;
    assert Pow2(56) == 0x100_0000_0000_0000;
  }

  // ----- every step is a bijection in the low k bits -------------------------

  lemma {:induction false} Pow2Divides(k: nat, n: nat)
    requires k <= n
    ensures Pow2(n) == Pow2(k) * Pow2(n - k)
  {
    if k < n {
      Pow2Divides(k, n - 1);
    }
  }

  lemma ModOfMod(x: int, p: Pos, d: Pos)
    requires p * d >= 1
    ensures (x % (p * d)) % p == x % p
  {
    var n := p * d;
    var q, r := x / n, x % n;
    assert n * q == p * (d * q);
    assert x == r + p * (d * q);
    ModShift(p, r, d * q);
  }

  /** Reducing modulo 2^64 first does not change the low k bits. */
  lemma LowOfLow(x: int, k: nat)
    requires k <= 64
    ensures (x % TWO64) % Pow2(k) == x % Pow2(k)
  {
    Pow2Of64();
    Pow2Divides(k, 64);
    ModOfMod(x, Pow2(k), Pow2(64 - k));
  }

  /** Multiplication by the odd constant is a bijection modulo every power of two. */
  lemma TimesLow(x: nat, y: nat, k: nat)
    requires k <= 64
    ensures Times(x) % Pow2(k) == Times(y) % Pow2(k) <==> x % Pow2(k) == y % Pow2(k)
  {
    LowOfLow(MULTIPLIER * x, k);
    LowOfLow(MULTIPLIER * y, k);
    Pow2Of64();
    Pow2Divides(k, 64);
    OddFactor(x, y, Pow2(k), Pow2(64 - k));
  }

  lemma OddFactor(x: nat, y: nat, p: Pos, c: Pos)
    requires TWO64 == p * c
    ensures (MULTIPLIER * x) % p == (MULTIPLIER * y) % p <==> x % p == y % p
  {
    if x % p == y % p {
      var t := x / p - y / p;
      assert x == y + p * t;
      assert MULTIPLIER * x == MULTIPLIER * y + p * (MULTIPLIER * t);
      ModShift(p, MULTIPLIER * y, MULTIPLIER * t);
    }
    if (MULTIPLIER * x) % p == (MULTIPLIER * y) % p {
      var q := (MULTIPLIER * x) / p - (MULTIPLIER * y) / p;
      assert MULTIPLIER * (x - y) == p * q;
      var t := UndoMultiplier(x - y, p, q, c);
      ModShift(p, y, t);
    }
  }

  lemma UndoMultiplier(d: int, p: Pos, q: int, c: Pos) returns (t: int)
    requires MULTIPLIER * d == p * q && TWO64 == p * c
    ensures d == p * t
  {
    assert INVERSE * MULTIPLIER == 1 + TWO64 * 873317;
    t := INVERSE * q - c * (873317 * d);
    calc {
      d;
    ==
      (INVERSE * MULTIPLIER) * d - TWO64 * (873317 * d);
    ==
      INVERSE * (MULTIPLIER * d) - (p * c) * (873317 * d);
    ==
      INVERSE * (p * q) - p * (c * (873317 * d));
    ==
      p * t;
    }
  }

  /** A step of the loop is a bijection of the state modulo 2^k, for every k up to 64. */
  lemma AbsorbLow(x: U64, y: U64, b: Byte, k: nat)
    requires k <= 64
    ensures Absorb(x, b) % Pow2(k) == Absorb(y, b) % Pow2(k) <==> x % Pow2(k) == y % Pow2(k)
  {
    TimesLow(x, y, k);
    XorCancelLow(Times(x), Times(y), b, k);
  }

  lemma {:induction false} AbsorbAllLow(x: U64, y: U64, m: seq<Byte>, k: nat)
    requires k <= 64
    ensures AbsorbAll(x, m) % Pow2(k) == AbsorbAll(y, m) % Pow2(k) <==> x % Pow2(k) == y % Pow2(k)
    decreases |m|
  {
    if m != [] {
      AbsorbLow(x, y, m[0], k);
      AbsorbAllLow(Absorb(x, m[0]), Absorb(y, m[0]), m[1..], k);
    }
  }

  /** Different low k bits stay different when combined with the same value. */
  lemma XorSeparates(t: nat, x: nat, y: nat, k: nat)
    ensures Xor(t, x) % Pow2(k) == Xor(t, y) % Pow2(k) <==> x % Pow2(k) == y % Pow2(k)
  {
    XorSymmetric(t, x);
    XorSymmetric(t, y);
    XorCancelLow(x, y, t, k);
  }

  lemma ByteIsLow(b: Byte)
    ensures b % Pow2(8) == b
  {
    assert Pow2(8) == 256;
  }

  /** Two bytes absorbed into the same state give states that differ in the low 8 bits. */
  lemma ByteSeparates(x: U64, b: Byte, c: Byte)
    requires b != c
    ensures Absorb(x, b) % Pow2(8) != Absorb(x, c) % Pow2(8)
  {
    ByteIsLow(b);
    ByteIsLow(c);
    XorSeparates(Times(x), b, c, 8);
  }

  lemma SmallPowers()
    ensures Pow2(7) == 128 && Pow2(8) == 256 && Pow2(14) == 0x4000 && Pow2(15) == 0x8000
  {
    assert Pow2(4) == 16;
    assert Pow2(12) == 4096;
  }

  /** The low bits are those of the exclusive or of the low bits. */
  lemma XorAgreeLow(x: nat, x': nat, y: nat, y': nat, k: nat)
    requires x % Pow2(k) == x' % Pow2(k) && y % Pow2(k) == y' % Pow2(k)
    ensures Xor(x, y) % Pow2(k) == Xor(x', y') % Pow2(k)
  {
    XorLow(x, y, k);
    XorLow(x', y', k);
  }

  /** First bytes that differ in their low seven bits separate in the low seven bits. */
  lemma FirstByteLowBits(prefix: U64, b: Byte, c: Byte)
    requires b % 128 != c % 128
    ensures Absorb(Start(prefix, b), b) % Pow2(7) != Absorb(Start(prefix, c), c) % Pow2(7)
  {
    SmallPowers();
    var x, y := Start(prefix, b), Start(prefix, c);
    XorAgreeLow(prefix, prefix, 128 * (b as int), 128 * (c as int), 7);
    TimesLow(x, y, 7);
    XorAgreeLow(Times(x), Times(y), b, b, 7);
    XorSeparates(Times(y), b, c, 7);
  }

  /** Bits 8 to 14 of a step do not depend on the byte. */
  lemma HighBitsOfStep(t: U64, b: Byte)
    ensures Xor(t, b) / 256 == t / 256
  {
    SmallPowers();
    XorHigh(t, b, 8);
    ShrIsDiv(Xor(t, b), 8);
    ShrIsDiv(t, 8);
    ShrIsDiv(b, 8);
    XorZero(t / 256);
  }

  /** First bytes that differ only in their top bit separate in the low fifteen bits. */
  lemma FirstByteTopBit(prefix: U64, b: Byte, c: Byte)
    requires b % 128 == c % 128 && b != c
    ensures Absorb(Start(prefix, b), b) % Pow2(15) != Absorb(Start(prefix, c), c) % Pow2(15)
  {
    SmallPowers();
    var x, y := Start(prefix, b), Start(prefix, c);
    TopBitOfStart(prefix, b, c);
    HighBitsOfStep(Times(x), b);
    HighBitsOfStep(Times(y), c);
    TopBitArgument(Times(x), Times(y), Absorb(x, b), Absorb(y, c));
  }

  lemma TopBitOfStart(prefix: U64, b: Byte, c: Byte)
    requires b % 128 == c % 128 && b != c
    ensures Times(Start(prefix, b)) % 0x4000 == Times(Start(prefix, c)) % 0x4000
    ensures Times(Start(prefix, b)) % 0x8000 != Times(Start(prefix, c)) % 0x8000
  {
    SmallPowers();
    var i, j := 128 * (b as int), 128 * (c as int);
    ShiftedBytes(b, c);
    StartsAgreeLow(prefix, i, j, 14);
    StartsSeparate(prefix, i, j, 15);
  }

  lemma ShiftedBytes(b: Byte, c: Byte)
    requires b % 128 == c % 128 && b != c
    ensures (128 * (b as int)) % 0x4000 == (128 * (c as int)) % 0x4000
    ensures (128 * (b as int)) % 0x8000 != (128 * (c as int)) % 0x8000
  {
    DivModUnique(0x4000, b / 128, 128 * (b % 128));
    DivModUnique(0x4000, c / 128, 128 * (c % 128));
    DivModUnique(0x8000, 0, 128 * b as int);
    DivModUnique(0x8000, 0, 128 * c as int);
  }

  lemma StartsAgreeLow(prefix: U64, i: U64, j: U64, k: nat)
    requires k <= 64 && i % Pow2(k) == j % Pow2(k)
    ensures Times(Xor64(prefix, i)) % Pow2(k) == Times(Xor64(prefix, j)) % Pow2(k)
  {
    XorAgreeLow(prefix, prefix, i, j, k);
    TimesLow(Xor64(prefix, i), Xor64(prefix, j), k);
  }

  lemma StartsSeparate(prefix: U64, i: U64, j: U64, k: nat)
    requires k <= 64 && i % Pow2(k) != j % Pow2(k)
    ensures Times(Xor64(prefix, i)) % Pow2(k) != Times(Xor64(prefix, j)) % Pow2(k)
  {
    XorSeparates(prefix, i, j, k);
    TimesLow(Xor64(prefix, i), Xor64(prefix, j), k);
  }

  lemma TopBitArgument(u: nat, v: nat, p: nat, q: nat)
    requires u % 0x4000 == v % 0x4000 && u % 0x8000 != v % 0x8000
    requires p / 256 == u / 256 && q / 256 == v / 256
    ensures p % 0x8000 != q % 0x8000
  {
    Low15(u);
    Low15(v);
    Low15(p);
    Low15(q);
  }

  lemma Low15(u: nat)
    ensures u % 0x8000 == 256 * ((u / 256) % 128) + u % 256
    ensures (u % 0x4000) % 256 == u % 256
  {
    var q, r := u / 256, u % 256;
    Compose(u, q, r, 128);
    Compose(u, q, r, 64);
  }

  lemma Compose(u: nat, q: nat, r: nat, d: Pos)
    requires u == 256 * q + r && r < 256
    ensures u % (256 * d) == 256 * (q % d) + r
    ensures (u % (256 * d)) % 256 == r
  {
    assert q == d * (q / d) + q % d;
    assert u == (256 * d) * (q / d) + (256 * (q % d) + r);
    DivModUnique(256 * d, q / d, 256 * (q % d) + r);
    DivModUnique(256, q % d, r);
  }

  lemma {:induction false} LowerLow(x: nat, y: nat, k: nat, n: nat)
    requires k <= n && x % Pow2(n) == y % Pow2(n)
    ensures x % Pow2(k) == y % Pow2(k)
  {
    Pow2Divides(k, n);
    ModOfMod(x, Pow2(k), Pow2(n - k));
    ModOfMod(y, Pow2(k), Pow2(n - k));
  }

  /** The first byte enters twice and still separates, in the low fifteen bits. */
  lemma FirstByteSeparates(prefix: U64, b: Byte, c: Byte)
    requires b != c
    ensures Absorb(Start(prefix, b), b) % Pow2(15) != Absorb(Start(prefix, c), c) % Pow2(15)
  {
    if b % 128 != c % 128 {
      FirstByteLowBits(prefix, b, c);
      if Absorb(Start(prefix, b), b) % Pow2(15) == Absorb(Start(prefix, c), c) % Pow2(15) {
        LowerLow(Absorb(Start(prefix, b), b), Absorb(Start(prefix, c), c), 7, 15);
      }
    } else {
      FirstByteTopBit(prefix, b, c);
    }
  }

  lemma {:induction false} AbsorbAllSplit(x: U64, m: seq<Byte>, n: seq<Byte>)
    ensures AbsorbAll(x, m + n) == AbsorbAll(AbsorbAll(x, m), n)
    decreases |m|
  {
    if m == [] {
      assert m + n == n;
    } else {
      assert (m + n)[1..] == m[1..] + n;
      AbsorbAllSplit(Absorb(x, m[0]), m[1..], n);
    }
  }

  /** The messages agree everywhere except at position i. */
  predicate DifferAt(m: seq<Byte>, n: seq<Byte>, i: nat) {
    |m| == |n| && i < |m| && m[i] != n[i] && m[..i] == n[..i] && m[i + 1..] == n[i + 1..]
  }

  /** From a state in which everything up to position i has been absorbed. */
  lemma AbsorbUpTo(x: U64, m: seq<Byte>, i: nat)
    requires i < |m|
    ensures AbsorbAll(x, m) == AbsorbAll(Absorb(AbsorbAll(x, m[..i]), m[i]), m[i + 1..])
  {
    assert m == m[..i] + m[i..];
    AbsorbAllSplit(x, m[..i], m[i..]);
    assert m[i..][0] == m[i] && m[i..][1..] == m[i + 1..];
  }

  lemma LoopSeparates(prefix: U64, m: seq<Byte>, n: seq<Byte>, i: nat)
    requires DifferAt(m, n, i)
    ensures AbsorbAll(Start(prefix, m[0]), m) % Pow2(15) != AbsorbAll(Start(prefix, n[0]), n) % Pow2(15)
  {
    var s, t := Start(prefix, m[0]), Start(prefix, n[0]);
    AbsorbUpTo(s, m, i);
    AbsorbUpTo(t, n, i);
    var u, v := Absorb(AbsorbAll(s, m[..i]), m[i]), Absorb(AbsorbAll(t, n[..i]), n[i]);
    if i == 0 {
      FirstByteSeparates(prefix, m[0], n[0]);
    } else {
      assert m[0] == m[..i][0] == n[..i][0] == n[0];
      ByteSeparates(AbsorbAll(s, m[..i]), m[i], n[i]);
      if u % Pow2(15) == v % Pow2(15) {
        LowerLow(u, v, 8, 15);
      }
    }
    AbsorbAllLow(u, v, m[i + 1..], 15);
  }

  /** Messages of equal length that differ in one byte have different hashes in the low 16 bits. */
  lemma DigestSeparates(prefix: U64, suffix: U64, m: seq<Byte>, n: seq<Byte>, i: nat)
    requires DifferAt(m, n, i) && |m| < TWO64
    ensures Digest(prefix, suffix, m) % TWO16 != Digest(prefix, suffix, n) % TWO16
  {
    Pow2Of64();
    LoopSeparates(prefix, m, n, i);
    var x, y := AbsorbAll(Start(prefix, m[0]), m), AbsorbAll(Start(prefix, n[0]), n);
    if x % Pow2(16) == y % Pow2(16) {
      LowerLow(x, y, 15, 16);
    }
    XorCancelLow(x, y, |m|, 16);
    XorCancelLow(Xor64(x, |m|), Xor64(y, |m|), suffix, 16);
  }
}
