/** The internet checksum: computed over little-endian words, folded, complemented. */
module Chksum {
  import opened Words

  /** The sum of the 16-bit words as a little-endian host reads them; an odd last byte counts as itself. */
  function LeSum(s: seq<Byte>): nat {
    if |s| == 0 then 0
    else if |s| == 1 then s[0]
    else s[0] + TWO8 * s[1] + LeSum(s[2..])
  }

  /** The sum of the 16-bit words in network order, an odd last byte padded with zero. */
  function BeSum(s: seq<Byte>): nat {
    if |s| == 0 then 0
    else if |s| == 1 then TWO8 * s[0]
    else TWO8 * s[0] + s[1] + BeSum(s[2..])
  }

  /** End-around carry until the value fits 16 bits. */
  function Fold(x: nat): (r: U16) {
    if x < TWO16 then x else Fold(x / TWO16 + x % TWO16)
  }

  lemma {:induction false} LeSumBound(s: seq<Byte>)
    ensures LeSum(s) <= 65535 * ((|s| + 1) / 2)
  {
    if |s| >= 2 {
      LeSumBound(s[2..]);
    }
  }

  lemma LeSumStep(s: seq<Byte>, i: nat)
    requires i + 1 < |s|
    ensures LeSum(s[i..]) == s[i] + TWO8 * s[i + 1] + LeSum(s[i + 2..])
  {
    assert s[i..][2..] == s[i + 2..];
  }

  lemma LeSumEnd(s: seq<Byte>, i: nat)
    requires |s| - 1 <= i <= |s|
    ensures LeSum(s[i..]) == if i < |s| then s[i] else 0
  {
  }

  /** sum, for the non-empty buffers it is called with: len - 1 would wrap for an empty one. */
  method Sum(s: seq<Byte>) returns (csum: U32)
    requires 1 <= |s| <= 0x20000
    ensures csum == LeSum(s)
  {
    hide LeSum;
    LeSumBound(s);
    csum := 0;
    assert s[0..] == s;
    var i := 0;
    while i < |s| - 1
      invariant 0 <= i <= |s| && i % 2 == 0
      invariant csum + LeSum(s[i..]) == LeSum(s) < TWO32
    {
      LeSumStep(s, i);
      csum := (csum + (s[i] + TWO8 * s[i + 1])) % TWO32;
      i := i + 2;
    }
    LeSumEnd(s, i);
    if |s| % 2 == 1 {
      csum := (csum + s[|s| - 1]) % TWO32;
    }
  }

  /** One round of folding, on a 32-bit value. */
  lemma FoldOnce(x: U32)
    ensures x / TWO16 == 0 ==> Fold(x) == x
    ensures x / TWO16 != 0 ==> var y := x / TWO16 + x % TWO16;
              Fold(y) == Fold(x) && y < x && y <= 0x1FFFE && (x <= 0x1FFFE ==> y <= 0xFFFF)
  {
  }

  /** pkt_chksum: folding takes at most two rounds. */
  method PktChksum(s: seq<Byte>, csum: U32) returns (c: U16, ghost folds: nat)
    requires 1 <= |s| <= 0x20000 && csum + LeSum(s) < TWO32
    ensures c == 0xFFFF - Fold(csum + LeSum(s))
    ensures folds <= 2
  {
    hide LeSum, Fold;
    var x := Sum(s);
    x := (csum + x) % TWO32;
    folds := 0;
    FoldOnce(x);
    while x / TWO16 != 0
      invariant 0 <= x < TWO32 && Fold(x) == Fold(csum + LeSum(s)) && folds <= 2
      invariant x / TWO16 == 0 ==> Fold(x) == x
      invariant folds == 1 ==> x <= 0x1FFFE
      invariant folds == 2 ==> x <= 0xFFFF
      decreases x
    {
      FoldOnce(x);
      x := x / TWO16 + x % TWO16;
      folds := folds + 1;
      FoldOnce(x);
    }
    c := 0xFFFF - x;
  }

  // ----- folding is reduction modulo 65535 ------------------------------------------

  /** The representative of x modulo 65535 that is zero only for zero. */
  function Ones(x: nat): U16 {
    if x == 0 then 0 else if x % 65535 == 0 then 65535 else x % 65535
  }

  lemma {:induction false} FoldIsOnes(x: nat)
    ensures Fold(x) == Ones(x)
  {
    if x >= TWO16 {
      var y := x / TWO16 + x % TWO16;
      assert x == y + 65535 * (x / TWO16);
      ModShift(65535, y, x / TWO16);
      FoldIsOnes(y);
    }
  }

  /** Adding the complement of the folded sum makes the whole sum fold to all ones. */
  lemma ComplementVerifies(x: nat)
    ensures Fold(x + (0xFFFF - Fold(x))) == 0xFFFF
  {
    FoldIsOnes(x);
    FoldIsOnes(x + (0xFFFF - Fold(x)));
    var q := x / 65535;
    assert x == 65535 * q + x % 65535;
    DivModUnique(65535, q, 0);
    DivModUnique(65535, q + 1, 0);
  }

  // ----- byte order independence -------------------------------------------------

  function Swap16(x: U16): U16 {
    TWO8 * (x % TWO8) + x / TWO8
  }

  lemma {:induction false} SumsCongruent(s: seq<Byte>) returns (k: int)
    ensures BeSum(s) == TWO8 * LeSum(s) + 65535 * k
    ensures BeSum(s) == 0 <==> LeSum(s) == 0
  {
    if |s| <= 1 {
      k := 0;
    } else {
      var j := SumsCongruent(s[2..]);
      k := j - s[1];
    }
  }

  lemma SwapCongruent(x: U16)
    ensures Swap16(x) == TWO8 * x + 65535 * (0 - x / TWO8)
  {
  }

  lemma OnesUnique(x: U16, y: nat, k: int)
    requires x == y + 65535 * k && (x == 0 <==> y == 0)
    ensures x == Ones(y)
  {
    ModShift(65535, y, k);
  }

  /** Summing in either byte order gives the same result up to a swap of its bytes. */
  lemma ByteOrderIndependent(s: seq<Byte>)
    ensures Fold(BeSum(s)) == Swap16(Fold(LeSum(s)))
  {
    var x, y := LeSum(s), BeSum(s);
    FoldIsOnes(x);
    FoldIsOnes(y);
    var k := SumsCongruent(s);
    var f := Fold(x);
    SwapCongruent(f);
    var q := OnesQuotient(x);
    assert Swap16(f) == y + 65535 * (TWO8 * q - f / TWO8 - k);
    OnesUnique(Swap16(f), y, TWO8 * q - f / TWO8 - k);
  }

  lemma OnesQuotient(x: nat) returns (q: int)
    ensures Ones(x) == x + 65535 * q
    ensures Ones(x) == 0 <==> x == 0
  {
    q := if x != 0 && x % 65535 == 0 then 1 - x / 65535 else 0 - x / 65535;
  }

  /** The checksum bytes as stored by the code: little-endian, from the little-endian sum. */
  function StoredBytes(s: seq<Byte>): seq<Byte> {
    var c := 0xFFFF - Fold(LeSum(s));
    [c % TWO8, c / TWO8]
  }

  lemma BytesOf(x: nat, h: nat, l: nat)
    requires x == TWO8 * h + l && l < TWO8
    ensures x / TWO8 == h && x % TWO8 == l
  {
    DivModUnique(TWO8, h, l);
  }

  lemma SwapComplement(x: U16)
    ensures (0xFFFF - x) % TWO8 == (0xFFFF - Swap16(x)) / TWO8
    ensures (0xFFFF - x) / TWO8 == (0xFFFF - Swap16(x)) % TWO8
  {
    var h, l := x / TWO8, x % TWO8;
    BytesOf(0xFFFF - x, 255 - h, 255 - l);
    BytesOf(0xFFFF - Swap16(x), 255 - l, 255 - h);
  }

  /** They are the bytes of the big-endian definition: network order, from the network-order sum. */
  lemma StoredBytesAreNetworkOrder(s: seq<Byte>)
    ensures var c := 0xFFFF - Fold(BeSum(s)); StoredBytes(s) == [c / TWO8, c % TWO8]
  {
    ByteOrderIndependent(s);
    SwapComplement(Fold(LeSum(s)));
  }

  // ----- sums of parts -----------------------------------------------------------

  lemma {:induction false} LeSumConcat(s: seq<Byte>, t: seq<Byte>)
    requires |s| % 2 == 0
    ensures LeSum(s + t) == LeSum(s) + LeSum(t)
  {
    if s == [] {
      assert s + t == t;
    } else {
      assert (s + t)[2..] == s[2..] + t;
      LeSumConcat(s[2..], t);
    }
  }

  lemma LeSumOfTwo(x: Byte, y: Byte)
    ensures LeSum([x, y]) == x + TWO8 * y
  {
    assert [x, y][2..] == [];
  }

  /** The sum over s is all ones: a receiver accepts it. */
  predicate Verifies(s: seq<Byte>) {
    Fold(BeSum(s)) == 0xFFFF
  }

  /**
  A block whose two checksum bytes were zero when the checksum was computed, and then stored
  little-endian at an even offset, verifies.
  */
  lemma SealedVerifies(before: seq<Byte>, after: seq<Byte>)
    requires |before| % 2 == 0
    ensures Verifies(before + StoredBytes(before + [0, 0] + after) + after)
  {
    hide LeSum, Fold, BeSum;
    var zeroed := before + [0, 0] + after;
    var c := 0xFFFF - Fold(LeSum(zeroed));
    var sealed := before + StoredBytes(zeroed) + after;
    assert zeroed == before + ([0, 0] + after);
    assert sealed == before + (StoredBytes(zeroed) + after);
    LeSumConcat(before, [0, 0] + after);
    LeSumConcat(before, StoredBytes(zeroed) + after);
    LeSumConcat([0, 0], after);
    LeSumConcat(StoredBytes(zeroed), after);
    LeSumOfTwo(0, 0);
    LeSumOfTwo(c % TWO8, c / TWO8);
    assert LeSum(sealed) == LeSum(zeroed) + c;
    ComplementVerifies(LeSum(zeroed));
    ByteOrderIndependent(sealed);
  }

  /** The checksum at o is exactly the complement of the folded sum without it, so that s verifies. */
  predicate Sealed(s: seq<Byte>, o: nat) {
    && Verifies(s) && o + 2 <= |s|
    && TWO8 * s[o] + s[o + 1] == 0xFFFF - Fold(BeSum(s[o := 0][o + 1 := 0]))
  }
}
