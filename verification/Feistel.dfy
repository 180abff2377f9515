/**
The generalized Feistel cipher of do_shuffle and do_unshuffle, over an arbitrary round
function. Every 64-bit wrap-around of the C code is written out.
*/
module Feistel {
  import opened Words

  /** The round function: round number and right half to a 64-bit value. */
  type RoundFn = (nat, nat) -> U64

  datatype Halves = Halves(left: nat, right: nat)

  /** The modulus of round j: odd rounds work modulo a, even rounds modulo b. */
  function Side(a: Pos, b: Pos, j: nat): Pos {
    if j % 2 == 1 then a else b
  }

  /** What a round does to the left half. */
  function Mix(left: nat, x: U64, s: Pos): nat {
    ((left + x) % TWO64) % s
  }

  /** What a backward round does to the right half, with the code's comparison of the wrapped difference. */
  function Unmix(x: U64, right: nat, s: Pos): nat {
    var tmp := (x - right) % TWO64;
    if tmp > right then Negated(tmp, s) else tmp % s
  }

  function Negated(t: nat, s: Pos): nat {
    var r := s - t % s;
    if r == s then 0 else r
  }

  function Round(f: RoundFn, a: Pos, b: Pos, j: nat, h: Halves): Halves {
    Halves(h.right, Mix(h.left, f(j, h.right), Side(a, b, j)))
  }

  function Unround(f: RoundFn, a: Pos, b: Pos, j: nat, h: Halves): Halves {
    Halves(Unmix(f(j, h.left), h.right, Side(a, b, j)), h.left)
  }

  /** The halves after the first j rounds. */
  function Rounds(f: RoundFn, a: Pos, b: Pos, h: Halves, j: nat): Halves {
    if j == 0 then h else Round(f, a, b, j, Rounds(f, a, b, h, j - 1))
  }

  /** The halves after undoing rounds j, j-1, ..., 1. */
  function Unrounds(f: RoundFn, a: Pos, b: Pos, h: Halves, j: nat): Halves
    decreases j
  {
    if j == 0 then h else Unrounds(f, a, b, Unround(f, a, b, j, h), j - 1)
  }

  function Join(a: Pos, r: nat, h: Halves): nat {
    (if r % 2 == 1 then a * h.left + h.right else a * h.right + h.left) % TWO64
  }

  function Split(a: Pos, r: nat, m: nat): Halves {
    if r % 2 == 1 then Halves(m / a, m % a) else Halves(m % a, m / a)
  }

  function Encrypt(f: RoundFn, r: nat, a: Pos, b: Pos, m: nat): nat {
    Join(a, r, Rounds(f, a, b, Split(a, 0, m), r))
  }

  function Decrypt(f: RoundFn, r: nat, a: Pos, b: Pos, m: nat): nat {
    Join(a, 0, Unrounds(f, a, b, Split(a, r, m), r))
  }

  /** do_shuffle: the loop over the rounds. */
  method DoShuffle(f: RoundFn, r: nat, a: Pos, b: Pos, m: nat) returns (c: nat)
    ensures c == Encrypt(f, r, a, b, m)
  {
    var left: nat, right: nat := m % a, m / a;
    var j := 1;
    while j <= r
      invariant 1 <= j <= r + 1
      invariant Halves(left, right) == Rounds(f, a, b, Split(a, 0, m), j - 1)
    {
      var tmp: nat;
      if j % 2 == 1 {
        tmp := ((left + f(j, right)) % TWO64) % a;
      } else {
        tmp := ((left + f(j, right)) % TWO64) % b;
      }
      left := right;
      right := tmp;
      j := j + 1;
    }
    c := if r % 2 == 1 then (a * left + right) % TWO64 else (a * right + left) % TWO64;
  }

  /** do_unshuffle: the loop over the rounds, backwards. */
  method DoUnshuffle(f: RoundFn, r: nat, a: Pos, b: Pos, m: nat) returns (c: nat)
    ensures c == Decrypt(f, r, a, b, m)
  {
    hide Unrounds, Unround;
    var left: nat, right: nat;
    if r % 2 == 1 {
      right := m % a;
      left := m / a;
    } else {
      left := m % a;
      right := m / a;
    }
    var j := r;
    while j >= 1
      invariant 0 <= j <= r
      invariant Unrounds(f, a, b, Halves(left, right), j) == Unrounds(f, a, b, Split(a, r, m), r)
    {
      UnroundsStep(f, a, b, left, right, j);
      var s := if j % 2 == 1 then a else b;
      var tmp: nat := (f(j, left) - right) % TWO64;
      if tmp > right {
        tmp := s - (tmp % s);
        if tmp == s {
          tmp := 0;
        }
      } else {
        tmp := tmp % s;
      }
      right := left;
      left := tmp;
      j := j - 1;
    }
    UnroundsEnd(f, a, b, Halves(left, right));
    c := (a * right + left) % TWO64;
  }

  lemma UnroundsStep(f: RoundFn, a: Pos, b: Pos, left: nat, right: nat, j: nat)
    requires j >= 1
    ensures Unrounds(f, a, b, Halves(left, right), j)
         == Unrounds(f, a, b, Halves(Unmix(f(j, left), right, Side(a, b, j)), left), j - 1)
  {
  }

  lemma UnroundsEnd(f: RoundFn, a: Pos, b: Pos, h: Halves)
    ensures Unrounds(f, a, b, h, 0) == h
  {
  }

  // ----- one round ---------------------------------------------------------

  /** The additions of a round either never wrap, or wrap harmlessly. */
  predicate MixOk(x: U64, s: Pos) {
    x + s <= TWO64 || TWO64 % s == 0
  }

  /** Where the code's way of subtracting gives the right residue. */
  predicate UnmixOk(x: U64, s: Pos) {
    s <= 2 || x >= 2 * s - 1 || (TWO64 % s == 0 && x <= 1) || (s == 4 && x == 5)
  }

  /** Without a harmful wrap a round adds x modulo s. */
  lemma MixResidue(left: nat, x: U64, s: Pos)
    requires left < s <= TWO64 && MixOk(x, s)
    ensures Mix(left, x, s) == (left + x) % s
  {
    if left + x >= TWO64 {
      MixAboveWrap(left, x, s);
      WholeWraps(left + x, s);
    }
  }

  /** If s divides 2^64, a wrap does not change the residue. */
  lemma WholeWraps(y: nat, s: Pos)
    requires TWO64 <= y < TWO64 + s && TWO64 % s == 0
    ensures y % s == y - TWO64
  {
    var w := TWO64 / s;
    assert TWO64 == s * w;
    DivModUnique(s, w, y - TWO64);
  }

  lemma MixInjective(l1: nat, l2: nat, x: U64, s: Pos)
    requires l1 < s <= TWO64 && l2 < s && MixOk(x, s)
    requires Mix(l1, x, s) == Mix(l2, x, s)
    ensures l1 == l2
  {
    MixResidue(l1, x, s);
    MixResidue(l2, x, s);
    ModClose(s, l1 + x, l2 + x);
  }

  /** The largest 64-bit value is not the last residue, unless s divides 2^64. */
  lemma TopResidue(s: Pos) returns (q: int, e: nat)
    requires TWO64 % s != 0
    ensures TWO64 - 1 == s * q + e && e < s - 1
  {
    q, e := (TWO64 - 1) / s, (TWO64 - 1) % s;
    if e == s - 1 {
      assert TWO64 == s * (q + 1) + 0;
      DivModUnique(s, q + 1, 0);
    }
  }

  lemma MixBelowWrap(left: nat, x: U64, s: Pos, q: int, e: nat)
    requires left + x < TWO64 && left + x == s * q + e && e < s
    ensures Mix(left, x, s) == e
  {
    DivModUnique(s, q, e);
  }

  lemma MixAboveWrap(left: nat, x: U64, s: Pos)
    requires left < s <= TWO64 && left + x >= TWO64
    ensures Mix(left, x, s) == left + x - TWO64
  {
    assert (left + x) % TWO64 == left + x - TWO64;
  }

  /** A harmful wrap makes two different left halves collide. */
  lemma MixCollides(x: U64, s: Pos) returns (l1: nat, l2: nat)
    requires s <= TWO64 && !MixOk(x, s)
    ensures l1 < s && l2 < s && l1 != l2 && Mix(l1, x, s) == Mix(l2, x, s)
  {
    var wrap := TWO64 - x;
    var q, e := TopResidue(s);
    if e < wrap {
      l1, l2 := wrap - 1 - e, wrap;
      MixBelowWrap(l1, x, s, q, 0);
    } else {
      l1, l2 := 0, e + 1;
      MixBelowWrap(l1, x, s, q, e - wrap + 1);
    }
    MixAboveWrap(l2, x, s);
  }

  /** Negated really is the negative residue. */
  lemma NegatedResidue(t: nat, s: Pos) returns (k: int)
    ensures Negated(t, s) + t == s * k && 0 <= Negated(t, s) < s
  {
    k := if t % s == 0 then t / s else t / s + 1;
  }

  /** A residue is known once it is known up to a multiple of s. */
  lemma ResidueUnique(s: Pos, x: nat, y: nat, k: int)
    requires x < s && y < s && x - y == s * k
    ensures x == y
  {
    MultipleFar(s, k);
  }

  lemma UnmixForward(left: nat, x: U64, s: Pos, q: int, right: nat)
    requires left < s && UnmixOk(x, s)
    requires right < s && left + x == s * q + right && x >= right
    ensures Unmix(x, right, s) == left
  {
    var tmp := x - right;
    assert tmp == (x - right) % TWO64;
    if tmp > right {
      var k := NegatedResidue(tmp, s);
      assert s * (k - q) == s * k - s * q;
      ResidueUnique(s, Negated(tmp, s), left, k - q);
    } else {
      SmallDifference(left, x, s, q, right);
    }
  }

  lemma UnmixWrapped(left: nat, x: U64, s: Pos, q: int, right: nat)
    requires left < s <= TWO64 / 2 && TWO64 % s == 0
    requires right < s && left + x == s * q + right && x < right
    ensures Unmix(x, right, s) == left
  {
    var tmp := TWO64 + x - right;
    assert tmp == (x - right) % TWO64;
    var k := NegatedResidue(tmp, s);
    var w := TWO64 / s;
    assert TWO64 == s * w;
    assert s * (k - q - w) == s * k - s * q - s * w;
    ResidueUnique(s, Negated(tmp, s), left, k - q - w);
  }

  /** In the window a backward round undoes a round. */
  lemma UnmixInverts(left: nat, x: U64, s: Pos)
    requires left < s <= TWO64 / 2 && MixOk(x, s) && UnmixOk(x, s)
    ensures Unmix(x, Mix(left, x, s), s) == left
  {
    hide Mix, Unmix, MixOk;
    MixResidue(left, x, s);
    var right, q := (left + x) % s, (left + x) / s;
    if x >= right {
      UnmixForward(left, x, s, q, right);
    } else {
      BelowRight(x, s, right);
      UnmixWrapped(left, x, s, q, right);
    }
  }

  /** In the window, differences wrap only for sides that divide 2^64. */
  lemma BelowRight(x: U64, s: Pos, right: nat)
    requires x < right < s && UnmixOk(x, s)
    ensures TWO64 % s == 0
  {
    if s <= 2 {
      DivideTwo64(s);
    }
  }

  lemma DivideTwo64(s: Pos)
    requires s <= 2
    ensures TWO64 % s == 0
  {
    assert s == 1 || s == 2;
  }

  /** The unnegated branch is right only where x - right is 0 or half of s. */
  lemma SmallDifference(left: nat, x: U64, s: Pos, q: int, right: nat)
    requires UnmixOk(x, s) && left < s && right < s
    requires left + x == s * q + right && 0 <= x - right <= right
    ensures (x - right) % s == left
  {
    var d := x - right;
    assert d == 0 || 2 * d == s;
    assert s * (q - 1) == s * q - s;
    ResidueUnique(s, left, d, if d == 0 then q else q - 1);
  }

  /** A right half that the backward round gets wrong. */
  function BadRight(x: U64, s: Pos): int {
    if x <= 1 then s - 1
    else if x <= s - 1 then x - 1
    else if 2 * (x - (s - 1)) != s then s - 1
    else s - 2
  }

  /** Outside the window some left half is not recovered. */
  lemma UnmixFails(x: U64, s: Pos) returns (left: nat)
    requires s <= TWO64 / 2 && MixOk(x, s) && !UnmixOk(x, s)
    ensures left < s && Unmix(x, Mix(left, x, s), s) != left
  {
    var right := BadRight(x, s);
    var k;
    left, k := LeftFor(x, s, right);
    if x <= 1 {
      WrappedDifferenceFails(left, x, s, k, right);
    } else {
      SmallDifferenceFails(left, x, s, 0 - k, right);
    }
  }

  /** In a round without a harmful wrap every right half has a left half that leads to it. */
  lemma LeftFor(x: U64, s: Pos, right: nat) returns (left: nat, k: int)
    requires right < s <= TWO64 && MixOk(x, s)
    ensures left < s && Mix(left, x, s) == right
    ensures right - x == s * k + left && left + x == s * (0 - k) + right
  {
    left, k := Preimage(x, s, right);
    MixResidue(left, x, s);
    DivModUnique(s, 0 - k, right);
  }

  lemma Preimage(x: U64, s: Pos, right: nat) returns (left: nat, k: int)
    ensures left < s && right - x == s * k + left && left + x == s * (0 - k) + right
  {
    left := (right - x) % s;
    k := (right - x) / s;
    assert s * (0 - k) == 0 - s * k;
  }

  lemma SmallDifferenceFails(left: nat, x: U64, s: Pos, q: int, right: nat)
    requires left < s && right < s
    requires left + x == s * q + right && 0 < x - right <= right && 2 * (x - right) != s
    ensures Unmix(x, right, s) != left
  {
    UnmixSmall(x, right, s);
    ModTwice(s, x - right, q);
  }

  lemma UnmixSmall(x: U64, right: nat, s: Pos)
    requires right < s && 0 <= x - right <= right
    ensures Unmix(x, right, s) == x - right
  {
    assert (x - right) % TWO64 == x - right;
  }

  lemma ModTwice(s: Pos, d: nat, q: int)
    requires 0 < d < s && 2 * d != s
    ensures 2 * d != s * q
  {
    MultipleFar(s, q);
    MultipleFar(s, q - 2);
    assert s * (q - 2) == s * q - 2 * s;
  }

  lemma WrappedDifferenceFails(left: nat, x: U64, s: Pos, k: int, right: nat)
    requires 3 <= s <= TWO64 / 2 && x <= 1 && TWO64 % s != 0
    requires right == s - 1 && right - x == s * k + left && left < s
    ensures Unmix(x, right, s) != left
  {
    var tmp := (x - right) % TWO64;
    assert tmp == TWO64 + x - right;
    var c := NegatedResidue(tmp, s);
    if Unmix(x, right, s) == left {
      assert TWO64 == s * (c + k) + 0;
      DivModUnique(s, c + k, 0);
      assert false;
    }
  }

  // ----- wrong backward rounds that lose information ---------------------------

  /**
  Outside the window there is at most one round value for each side that is wrong and yet keeps
  different right halves apart: about 4/3 of the side, or 2/3 of it if 2^64 has the right residue.
  */
  predicate Peculiar(x: U64, s: Pos) {
    if s <= x then x + x / 2 == 2 * s - 1 else x + x / 2 == s - 1 && TWO64 % s == 1 + x / 2
  }

  lemma UnmixNegative(x: U64, right: nat, s: Pos, v: nat, k: int)
    requires right <= x && x - right > right && v < s && v + x - right == s * k
    ensures Unmix(x, right, s) == v
  {
    var tmp := x - right;
    assert tmp == (x - right) % TWO64;
    var c := NegatedResidue(tmp, s);
    assert s * (c - k) == s * c - s * k;
    ResidueUnique(s, Negated(tmp, s), v, c - k);
  }

  lemma UnmixBelow(x: U64, right: nat, s: Pos, v: nat, k: int)
    requires x < right < s <= TWO64 / 2 && v < s && v + TWO64 + x - right == s * k
    ensures Unmix(x, right, s) == v
  {
    var tmp := TWO64 + x - right;
    assert tmp == (x - right) % TWO64;
    var c := NegatedResidue(tmp, s);
    assert s * (c - k) == s * c - s * k;
    ResidueUnique(s, Negated(tmp, s), v, c - k);
  }

  /** The right halves of two branches, for values from the side up. */
  lemma CollidesAbove(x: U64, s: Pos) returns (p: nat, q: nat)
    requires s <= x < 2 * s - 1 && s <= TWO64 / 2 && x + x / 2 != 2 * s - 1
    ensures p < s && q < s && p != q && Unmix(x, p, s) == Unmix(x, q, s)
  {
    if x + x / 2 < 2 * s - 1 {
      p, q := 2 * x - 2 * s + 1, s - 1;
      UnmixNegative(x, p, s, x - s + 1, 1);
    } else if 2 * s - x >= x - s + 1 {
      p, q := 0, 2 * x - 2 * s;
      UnmixNegative(x, p, s, 2 * s - x, 2);
    } else {
      p, q := 2 * x - 3 * s + 1, s - 1;
      UnmixNegative(x, p, s, x - s + 1, 2);
    }
    UnmixSmall(x, q, s);
  }

  /** The same for values below the side, where differences wrap; u is the residue of 2^64. */
  lemma CollidesBelow(x: U64, s: Pos, w: nat, u: nat) returns (p: nat, q: nat)
    requires 3 <= s <= TWO64 / 2 && x < s && TWO64 == s * w + u && u < s
    requires (u == 0 ==> x >= 2) && !(x + x / 2 == s - 1 && u == 1 + x / 2)
    ensures p < s && q < s && p != q && Unmix(x, p, s) == Unmix(x, q, s)
  {
    if x + x / 2 >= s {
      p, q := 0, 2 * x - s;
      UnmixNegative(x, p, s, s - x, 1);
      UnmixSmall(x, q, s);
    } else if u == 0 {
      p, q := x - 1, x + 1;
      UnmixSmall(x, p, s);
      UnmixBelow(x, q, s, 1, w);
    } else if u <= s - 1 - x {
      p, q := x, x + u;
      UnmixSmall(x, p, s);
      UnmixBelow(x, q, s, 0, w);
    } else {
      p, q := CollidesWrapped(x, s, w, u);
    }
  }

  lemma CollidesWrapped(x: U64, s: Pos, w: nat, u: nat) returns (p: nat, q: nat)
    requires 3 <= s <= TWO64 / 2 && x + x / 2 < s && TWO64 == s * w + u && s - x <= u < s
    requires !(x + x / 2 == s - 1 && u == 1 + x / 2)
    ensures p < s && q < s && p != q && Unmix(x, p, s) == Unmix(x, q, s)
  {
    assert s * (w + 1) == s * w + s;
    if x == 1 {
      p, q := 0, s - 1;
      UnmixNegative(x, p, s, s - 1, 1);
      UnmixBelow(x, q, s, s - 1, w + 1);
    } else if u >= s + 1 - x / 2 {
      p, q := x - (s + 1 - u), x + 1;
      UnmixSmall(x, p, s);
      UnmixBelow(x, q, s, s + 1 - u, w + 1);
    } else if u > x {
      p, q := 0, u;
      UnmixNegative(x, p, s, s - x, 1);
      UnmixBelow(x, q, s, s - x, w + 1);
    } else {
      p, q := x + 1 - u, x + 1;
      UnmixNegative(x, p, s, s + 1 - u, 1);
      UnmixBelow(x, q, s, s + 1 - u, w + 1);
    }
  }

  /** Outside the window, but for the peculiar value, a backward round merges two right halves. */
  lemma UnmixCollides(x: U64, s: Pos) returns (p: nat, q: nat)
    requires s <= TWO64 / 2 && !UnmixOk(x, s) && !Peculiar(x, s)
    ensures p < s && q < s && p != q && Unmix(x, p, s) == Unmix(x, q, s)
  {
    if s <= x {
      p, q := CollidesAbove(x, s);
    } else {
      p, q := CollidesBelow(x, s, TWO64 / s, TWO64 % s);
    }
  }
}
