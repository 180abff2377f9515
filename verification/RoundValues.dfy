/**
What the round function F hashes: all eight bytes of the round number and all eight bytes of the
right half. Numbers that differ in one byte, wherever it is, have different round values.
*/
module RoundValues {
  import opened Words
  import opened Hash
  import opened Shuffle

  /** 256^k. */
  function Radix(k: nat): Pos {
    if k == 0 then 1 else TWO8 * Radix(k - 1)
  }

  lemma DivTwice(x: nat, p: Pos, m: Pos)
    requires m == TWO8 * p
    ensures (x / TWO8) / p == x / m
    ensures x % m == TWO8 * ((x / TWO8) % p) + x % TWO8
  {
    var y := x / TWO8;
    var q, r := y / p, y % p;
    assert x == m * q + (TWO8 * r + x % TWO8) by {
      assert m * q == TWO8 * (p * q);
    }
    DivModUnique(m, q, TWO8 * r + x % TWO8);
  }

  /** Byte k of a number in memory. */
  lemma {:induction false} LeByteAt(x: nat, n: nat, k: nat)
    requires k < n
    ensures LeBytes(x, n)[k] == (x / Radix(k)) % TWO8
    decreases n
  {
    if k != 0 {
      LeByteAt(x / TWO8, n - 1, k - 1);
      DivTwice(x, Radix(k - 1), Radix(k));
    }
  }

  /** x and y are the same but for byte i. */
  predicate SameButByte(x: nat, y: nat, i: nat) {
    x != y && x / Radix(i + 1) == y / Radix(i + 1) && x % Radix(i) == y % Radix(i)
  }

  lemma LowerByte(x: nat, y: nat, i: nat)
    requires i >= 1 && SameButByte(x, y, i)
    ensures x % TWO8 == y % TWO8 && SameButByte(x / TWO8, y / TWO8, i - 1)
  {
    DivTwice(x, Radix(i - 1), Radix(i));
    DivTwice(y, Radix(i - 1), Radix(i));
    LowParts((x / TWO8) % Radix(i - 1), x % TWO8, (y / TWO8) % Radix(i - 1), y % TWO8);
    DivTwice(x, Radix(i), Radix(i + 1));
    DivTwice(y, Radix(i), Radix(i + 1));
  }

  lemma LowParts(h: nat, l: Byte, g: nat, k: Byte)
    requires TWO8 * h + l == TWO8 * g + k
    ensures h == g && l == k
  {
  }

  lemma {:induction false} LeBytesDiffer(x: nat, y: nat, n: nat, i: nat)
    requires i < n && SameButByte(x, y, i)
    ensures DifferAt(LeBytes(x, n), LeBytes(y, n), i)
    decreases n
  {
    if i == 0 {
      assert Radix(1) == TWO8;
    } else {
      LowerByte(x, y, i);
      LeBytesDiffer(x / TWO8, y / TWO8, n - 1, i - 1);
      DifferBehind([x % TWO8], LeBytes(x / TWO8, n - 1), LeBytes(y / TWO8, n - 1), i - 1);
    }
  }

  lemma DifferBehind(a: seq<Byte>, m: seq<Byte>, n: seq<Byte>, i: nat)
    requires DifferAt(m, n, i)
    ensures DifferAt(a + m, a + n, |a| + i)
  {
    assert (a + m)[..|a| + i] == a + m[..i];
    assert (a + n)[..|a| + i] == a + n[..i];
    assert (a + m)[|a| + i + 1..] == m[i + 1..];
    assert (a + n)[|a| + i + 1..] == n[i + 1..];
  }

  lemma DifferBefore(m: seq<Byte>, n: seq<Byte>, a: seq<Byte>, i: nat)
    requires DifferAt(m, n, i)
    ensures DifferAt(m + a, n + a, i)
  {
    assert (m + a)[..i] == m[..i] && (n + a)[..i] == n[..i];
    assert (m + a)[i + 1..] == m[i + 1..] + a && (n + a)[i + 1..] == n[i + 1..] + a;
  }

  /** F hashes sixteen bytes: the round number and then the right half, both little-endian. */
  lemma RoundMessage(seed: U64, j: nat, right: nat) returns (m: seq<Byte>)
    ensures |m| == 16 && HashRound(seed)(j, right) == Digest(seed, seed, m)
    ensures forall k: nat :: k < 8 ==> m[k] == (j / Radix(k)) % 256 && m[8 + k] == (right / Radix(k)) % 256
  {
    hide LeBytes, Radix;
    m := LeBytes(j, 8) + LeBytes(right, 8);
    forall k: nat | k < 8 ensures m[k] == (j / Radix(k)) % 256 && m[8 + k] == (right / Radix(k)) % 256 {
      LeByteAt(j, 8, k);
      LeByteAt(right, 8, k);
    }
  }

  /** Right halves that differ in one byte have different round values, already in the low sixteen bits. */
  lemma RightHalvesSeparate(seed: U64, j: nat, x: nat, y: nat, i: nat)
    requires i < 8 && SameButByte(x, y, i)
    ensures HashRound(seed)(j, x) % TWO16 != HashRound(seed)(j, y) % TWO16
  {
    hide LeBytes, Digest, SameButByte;
    LeBytesDiffer(x, y, 8, i);
    DifferBehind(LeBytes(j, 8), LeBytes(x, 8), LeBytes(y, 8), i);
    DigestSeparates(seed, seed, LeBytes(j, 8) + LeBytes(x, 8), LeBytes(j, 8) + LeBytes(y, 8), 8 + i);
  }

  /** So have round numbers. */
  lemma RoundNumbersSeparate(seed: U64, j: nat, k: nat, right: nat, i: nat)
    requires i < 8 && SameButByte(j, k, i)
    ensures HashRound(seed)(j, right) % TWO16 != HashRound(seed)(k, right) % TWO16
  {
    hide LeBytes, Digest, SameButByte;
    LeBytesDiffer(j, k, 8, i);
    DifferBefore(LeBytes(j, 8), LeBytes(k, 8), LeBytes(right, 8), i);
    DigestSeparates(seed, seed, LeBytes(j, 8) + LeBytes(right, 8), LeBytes(k, 8) + LeBytes(right, 8), i);
  }
}
