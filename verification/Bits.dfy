/** Bitwise operations on unbounded naturals, bit by bit, and how they split into low and high bits. */
module Bits {
  import opened Words

  function Pow2(k: nat): (p: Pos) {
    if k == 0 then 1 else 2 * Pow2(k - 1)
  }

  function Xor(x: nat, y: nat): nat {
    if x == 0 && y == 0 then 0 else 2 * Xor(x / 2, y / 2) + (x % 2 + y % 2) % 2
  }

  function And(x: nat, y: nat): nat {
    if x == 0 || y == 0 then 0 else 2 * And(x / 2, y / 2) + (x % 2) * (y % 2)
  }

  function Or(x: nat, y: nat): nat {
    if x == 0 && y == 0 then 0 else 2 * Or(x / 2, y / 2) + (if x % 2 + y % 2 == 0 then 0 else 1)
  }

  lemma Pow2Of32()
    ensures Pow2(32) == TWO32
  {
    assert Pow2(8) == 256;
    assert Pow2(16) == TWO16;
    assert Pow2(24) == 0x100_0000;
  }

  /** Halving commutes with taking the low bits. */
  lemma HalveLow(x: nat, k: nat)
    ensures x % Pow2(k + 1) == 2 * ((x / 2) % Pow2(k)) + x % 2
    ensures (x % Pow2(k + 1)) / 2 == (x / 2) % Pow2(k)
    ensures (x % Pow2(k + 1)) % 2 == x % 2
  {
    var p := Pow2(k);
    var q, r := (x / 2) / p, (x / 2) % p;
    assert x / 2 == p * q + r;
    assert x == (2 * p) * q + (2 * r + x % 2);
    DivModUnique(2 * p, q, 2 * r + x % 2);
  }

  /** Halving commutes with dropping the low bits. */
  lemma HalveHigh(x: nat, k: nat)
    ensures x / Pow2(k + 1) == (x / 2) / Pow2(k)
  {
    var p := Pow2(k);
    var q, r := (x / 2) / p, (x / 2) % p;
    assert x / 2 == p * q + r;
    assert x == (2 * p) * q + (2 * r + x % 2);
    DivModUnique(2 * p, q, 2 * r + x % 2);
  }

  lemma XorUnfold(x: nat, y: nat)
    ensures Xor(x, y) / 2 == Xor(x / 2, y / 2)
    ensures Xor(x, y) % 2 == (x % 2 + y % 2) % 2
  {
  }

  lemma XorNothing()
    ensures Xor(0, 0) == 0
  {
  }

  /** The low k bits of an exclusive or are the exclusive or of the low k bits. */
  lemma {:induction false} XorLow(x: nat, y: nat, k: nat)
    ensures Xor(x, y) % Pow2(k) == Xor(x % Pow2(k), y % Pow2(k))
  {
    if k == 0 {
      XorNothing();
    } else {
      XorLow(x / 2, y / 2, k - 1);
      XorLowStep(x, y, k - 1, Pow2(k), Xor(x, y));
    }
  }

  lemma XorLowStep(x: nat, y: nat, k: nat, p: Pos, z: nat)
    requires p == Pow2(k + 1) && z == Xor(x, y)
    requires Xor(x / 2, y / 2) % Pow2(k) == Xor((x / 2) % Pow2(k), (y / 2) % Pow2(k))
    ensures z % p == Xor(x % p, y % p)
  {
    hide Xor, Pow2;
    HalveLow(x, k);
    HalveLow(y, k);
    HalveLow(z, k);
    XorUnfold(x, y);
    XorUnfold(x % p, y % p);
    SameHalves(z % p, Xor(x % p, y % p));
  }

  lemma SameHalves(x: nat, y: nat)
    requires x / 2 == y / 2 && x % 2 == y % 2
    ensures x == y
  {
  }

  /** x shifted right by k. */
  function Shr(x: nat, k: nat): nat {
    if k == 0 then x else Shr(x / 2, k - 1)
  }

  lemma {:induction false} ShrIsDiv(x: nat, k: nat)
    ensures Shr(x, k) == x / Pow2(k)
  {
    if k != 0 {
      ShrIsDiv(x / 2, k - 1);
      HalveHigh(x, k - 1);
    }
  }

  /** The bits above k of an exclusive or are the exclusive or of the bits above k. */
  lemma {:induction false} XorHigh(x: nat, y: nat, k: nat)
    ensures Shr(Xor(x, y), k) == Xor(Shr(x, k), Shr(y, k))
  {
    if k != 0 {
      XorUnfold(x, y);
      XorHigh(x / 2, y / 2, k - 1);
    }
  }

  lemma {:induction false} XorZero(x: nat)
    ensures Xor(x, 0) == x && Xor(0, x) == x
  {
    if x != 0 {
      XorZero(x / 2);
    }
  }

  lemma {:induction false} XorBound(x: nat, y: nat, k: nat)
    requires x < Pow2(k) && y < Pow2(k)
    ensures Xor(x, y) < Pow2(k)
  {
    if k != 0 {
      XorBound(x / 2, y / 2, k - 1);
    }
  }

  /** Either operand is determined by the other one and the result. */
  lemma {:induction false} XorCancel(x: nat, x': nat, y: nat)
    requires Xor(x, y) == Xor(x', y)
    ensures x == x'
    decreases x + x' + y
  {
    hide Xor;
    if x != 0 || x' != 0 {
      XorUnfold(x, y);
      XorUnfold(x', y);
      XorCancel(x / 2, x' / 2, y / 2);
    }
  }

  lemma {:induction false} XorSymmetric(x: nat, y: nat)
    ensures Xor(x, y) == Xor(y, x)
  {
    if x != 0 || y != 0 {
      XorSymmetric(x / 2, y / 2);
    }
  }

  /** Cancellation holds already in the low k bits. */
  lemma XorCancelLow(x: nat, x': nat, y: nat, k: nat)
    ensures Xor(x, y) % Pow2(k) == Xor(x', y) % Pow2(k) <==> x % Pow2(k) == x' % Pow2(k)
  {
    XorLow(x, y, k);
    XorLow(x', y, k);
    if Xor(x, y) % Pow2(k) == Xor(x', y) % Pow2(k) {
      XorCancel(x % Pow2(k), x' % Pow2(k), y % Pow2(k));
    }
  }

  lemma HalvesOf(x: nat, h: int, i: int)
    requires x == 2 * h + i && 0 <= i < 2
    ensures x / 2 == h && x % 2 == i
  {
  }

  lemma XorFromHalves(x: nat, y: nat, h: nat, i: nat)
    requires x / 2 == h && x % 2 == i
    ensures Xor(x, y) == 2 * Xor(h, y / 2) + (if i == y % 2 then 0 else 1)
  {
    XorUnfold(x, y);
  }

  /** One bit of an exclusive or. */
  lemma XorBit(h: nat, i: nat, g: nat, j: nat, q: nat)
    requires i < 2 && j < 2 && Xor(h, g) == q
    ensures Xor(2 * h + i, 2 * g + j) == 2 * q + (i + j) % 2
  {
    HalvesOf(2 * h + i, h, i);
    HalvesOf(2 * g + j, g, j);
    XorFromHalves(2 * h + i, 2 * g + j, h, i);
  }
}
