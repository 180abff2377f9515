/** Computing the hash of particular messages, for the inputs on which a promise of the code fails. */
module HashTrace {
  import opened Words
  import opened Bits
  import opened WordBytes
  import opened Hash
  import opened Shuffle

  // ----- runs of zero bytes ------------------------------------------------------------

  function TimesAll(x: U64, n: nat): U64
    decreases n
  {
    if n == 0 then x else TimesAll(Times(x), n - 1)
  }

  function Zeros(n: nat): (s: seq<Byte>)
    ensures |s| == n
  {
    if n == 0 then [] else [0] + Zeros(n - 1)
  }

  lemma {:induction false} AbsorbZeros(x: U64, n: nat)
    ensures AbsorbAll(x, Zeros(n)) == TimesAll(x, n)
    decreases n
  {
    if n != 0 {
      XorZero(Times(x));
      assert Zeros(n)[1..] == Zeros(n - 1);
      AbsorbZeros(Absorb(x, 0), n - 1);
    }
  }

  function Power(n: nat): nat {
    if n == 0 then 1 else MULTIPLIER * Power(n - 1)
  }

  lemma {:induction false} TimesAllIsPower(x: U64, n: nat)
    ensures TimesAll(x, n) == (Power(n) * x) % TWO64
    decreases n
  {
    if n != 0 {
      TimesAllIsPower(Times(x), n - 1);
      PowerStep(x, Power(n - 1), Times(x), (MULTIPLIER * x) / TWO64);
    }
  }

  lemma PowerStep(x: int, p: int, y: int, q: int)
    requires MULTIPLIER * x == TWO64 * q + y
    ensures (MULTIPLIER * p * x) % TWO64 == (p * y) % TWO64
  {
    assert MULTIPLIER * p * x == p * (MULTIPLIER * x) == p * y + TWO64 * (p * q);
    ModShift(TWO64, p * y, p * q);
  }

  lemma {:induction false} LeZeros(n: nat)
    ensures LeBytes(0, n) == Zeros(n)
  {
    if n != 0 {
      LeZeros(n - 1);
    }
  }

  // ----- a round number and a right half ---------------------------------------------------

  /** The seventh power of the multiplier. */
  const SEVENTH: nat := 1000021000189000945002835005103005103002187

  /** The states of the hash loop: at the start, after either non-zero byte, before and at the end. */
  datatype Chain = Chain(start: U64, first: U64, spread: U64, second: U64, last: U64, sized: U64)

  predicate Linked(c: Chain, seed: U64, j: Byte, right: Byte, p: nat) {
    && c.start == Xor(seed, 128 * j)
    && c.first == Xor(Times(c.start), j)
    && c.spread == (p * c.first) % TWO64
    && c.second == Xor(Times(c.spread), right)
    && c.last == (p * c.second) % TWO64
    && c.sized == Xor(c.last, 16)
  }

  lemma ZerosAfter(x: U64, n: nat, p: nat)
    requires p == Power(n)
    ensures AbsorbAll(x, Zeros(n)) == (p * x) % TWO64
  {
    AbsorbZeros(x, n);
    TimesAllIsPower(x, n);
  }

  lemma AbsorbOne(x: U64, b: Byte)
    ensures AbsorbAll(x, [b]) == Xor(Times(x), b)
  {
    assert [b][1..] == [];
  }

  function Message(j: Byte, right: Byte, n: nat): seq<Byte> {
    ([j] + Zeros(n)) + ([right] + Zeros(n))
  }

  lemma AbsorbMessage(c: Chain, seed: U64, j: Byte, right: Byte, n: nat, p: nat)
    requires p == Power(n) && Linked(c, seed, j, right, p)
    ensures AbsorbAll(c.start, Message(j, right, n)) == c.last
  {
    hide Xor;
    AbsorbAllSplit(c.start, [j] + Zeros(n), [right] + Zeros(n));
    AbsorbAllSplit(c.start, [j], Zeros(n));
    AbsorbOne(c.start, j);
    ZerosAfter(c.first, n, p);
    AbsorbAllSplit(c.spread, [right], Zeros(n));
    AbsorbOne(c.spread, right);
    ZerosAfter(c.second, n, p);
  }

  lemma DigestByChain(c: Chain, seed: U64, j: Byte, right: Byte, n: nat, p: nat)
    requires n == 7 && p == Power(n) && Linked(c, seed, j, right, p)
    ensures Digest(seed, seed, Message(j, right, n)) == Xor(c.sized, seed)
  {
    hide Xor;
    AbsorbMessage(c, seed, j, right, n, p);
  }

  lemma LeUnfold(x: nat, n: nat)
    ensures LeBytes(x, n + 1) == [x % TWO8] + LeBytes(x / TWO8, n)
  {
  }

  lemma SmallLe(b: Byte, n: nat)
    ensures LeBytes(b, n + 1) == [b] + Zeros(n)
  {
    hide LeBytes, Zeros;
    LeZeros(n);
    LeUnfold(b, n);
  }

  lemma HashByChain(c: Chain, seed: U64, j: Byte, right: Byte, n: nat)
    requires n == 7 && Linked(c, seed, j, right, Power(n))
    ensures HashRound(seed)(j, right) == Xor(c.sized, seed)
  {
    SmallLe(j, n);
    SmallLe(right, n);
    DigestByChain(c, seed, j, right, n, Power(n));
  }

  lemma SeventhIs(p: nat)
    requires p == Power(7)
    ensures p == SEVENTH
  {
    assert Power(3) == 1000009000027000027;
    assert Power(5) == 1000015000090000270000405000243;
  }

  lemma Product(p: nat, x: nat, q: nat, r: nat)
    requires p * x == TWO64 * q + r && r < TWO64
    ensures (p * x) % TWO64 == r
  {
    DivModUnique(TWO64, q, r);
  }

  // ----- any message, byte by byte -------------------------------------------------------------

  /** The successive states of the hash loop over m. */
  predicate Trace(s: seq<U64>, m: seq<Byte>) {
    |s| == |m| + 1 && forall i :: 0 <= i < |m| ==> s[i + 1] == Xor(Times(s[i]), m[i])
  }

  lemma {:induction false} AbsorbTrace(s: seq<U64>, m: seq<Byte>, k: nat)
    requires k <= |m| && Trace(s, m)
    ensures AbsorbAll(s[k], m[k..]) == s[|m|]
    decreases |m| - k
  {
    hide Xor;
    if k < |m| {
      assert m[k..][1..] == m[k + 1..];
      AbsorbTrace(s, m, k + 1);
    }
  }

  lemma DigestByTrace(seed: U64, s: seq<U64>, m: seq<Byte>)
    requires |m| == 16 && Trace(s, m) && s[0] == Xor(seed, 128 * m[0] as int)
    ensures Digest(seed, seed, m) == Xor(Xor64(s[16], 16), seed)
  {
    hide Xor;
    AbsorbTrace(s, m, 0);
    assert m[0..] == m;
  }
}
