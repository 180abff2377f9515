/** struct shuffle: set-up, shuffling and unshuffling of an index range. */
module Shuffle {
  import opened Words
  import opened Finite
  import opened Feistel
  import opened FeistelTheorems
  import opened CycleWalk
  import Hash

  const ROUNDS: nat := 4

  /** F: the hash of the round number and the right half, keyed twice with the seed. */
  function HashRound(seed: U64): RoundFn {
    (j: nat, right: nat) => Hash.Digest(seed, seed, LeBytes(j, 8) + LeBytes(right, 8))
  }

  /** The integer part of the square root, which is all the set-up uses of sqrt. */
  function Isqrt(n: nat): nat {
    if n == 0 then 0
    else
      var r := Isqrt(n - 1);
      if (r + 1) * (r + 1) <= n then r + 1 else r
  }

  lemma {:induction false} IsqrtIs(n: nat)
    ensures Isqrt(n) * Isqrt(n) <= n < (Isqrt(n) + 1) * (Isqrt(n) + 1)
  {
    if n != 0 {
      IsqrtIs(n - 1);
      var r := Isqrt(n - 1);
      assert (r + 2) * (r + 2) == (r + 1) * (r + 1) + 2 * r + 3;
    }
  }

  lemma IsqrtUnique(n: nat, r: nat)
    requires r * r <= n < (r + 1) * (r + 1)
    ensures Isqrt(n) == r
  {
    var i := Isqrt(n);
    IsqrtIs(n);
    SquareMono(i + 1, r);
    SquareMono(r + 1, i);
  }

  lemma SquareMono(x: nat, y: nat)
    ensures x <= y ==> x * x <= y * y
  {
    MulMono(x, x, y);
    MulMono(y, x, y);
  }

  lemma IsqrtBounds(n: nat)
    ensures Isqrt(n) <= n && (n >= 4 ==> Isqrt(n) >= 2)
  {
    var r := Isqrt(n);
    IsqrtIs(n);
    MulMono(r, 1, r);
    if r <= 1 {
      MulMono(r + 1, r + 1, 2);
    }
  }

  /** The side that the set-up fixes before it searches for the other one. */
  function FirstSide(range: Pos): Pos {
    IsqrtBounds(range);
    if range <= 2 then 1 else if range == 3 then 2 else Isqrt(range) - 1
  }

  /** The side it finds by counting up. */
  function SecondSide(range: Pos): Pos {
    range / FirstSide(range) + 1
  }

  lemma SidesFor(range: Pos)
    requires range + Isqrt(range) < TWO64
    ensures range < FirstSide(range) * SecondSide(range) <= range + FirstSide(range) < TWO64
  {
    NextMultiple(range, FirstSide(range));
    IsqrtBounds(range);
  }

  /** The first side is one less than the square root, and the second one the least that makes a*b exceed the range. */
  lemma SidesAre(range: Pos)
    ensures var a, b := FirstSide(range), SecondSide(range);
            && (range <= 2 ==> a == 1) && (range == 3 ==> a == 2)
            && (range >= 4 ==> (a + 1) * (a + 1) <= range < (a + 2) * (a + 2))
            && a * (b - 1) <= range < a * b
  {
    NextMultiple(range, FirstSide(range));
    IsqrtIs(range);
    var a := FirstSide(range);
    assert a * (range / a + 1) == a * (range / a) + a;
  }

  lemma NextMultiple(range: Pos, a: Pos)
    ensures range < a * (range / a + 1) <= range + a
  {
    assert range == a * (range / a) + range % a;
    assert a * (range / a + 1) == a * (range / a) + a;
  }

  /** The cipher that a shuffled scan of this range walks with. */
  ghost function Walk(range: Pos, seed: U64): nat -> nat {
    Cipher(HashRound(seed), ROUNDS, FirstSide(range), SecondSide(range))
  }

  /** The order in which a shuffled scan of this range visits the indices. */
  ghost function VisitOrder(range: Pos, seed: U64): nat -> nat {
    FirstReturn(Walk(range, seed), range)
  }

  lemma WalkInto(range: Pos, seed: U64)
    requires range + Isqrt(range) < TWO64
    ensures var n := FirstSide(range) * SecondSide(range);
            range < n && Into(Walk(range, seed), n, n)
  {
    SidesFor(range);
    CipherInto(HashRound(seed), ROUNDS, FirstSide(range), SecondSide(range));
  }

  /**
  A shuffled scan ends each of its walks and visits every index of [0, range) exactly once, if and
  only if the cipher with this seed sends different points of its walks to different points.
  */
  lemma VisitOrderPermutesIff(range: Pos, seed: U64)
    requires range + Isqrt(range) < TWO64
    ensures AllReturn(Walk(range, seed), range) && Permutes(VisitOrder(range, seed), range)
            <==> Separates(Walk(range, seed), range)
  {
    WalkInto(range, seed);
    WalkPermutesIff(Walk(range, seed), FirstSide(range) * SecondSide(range), range);
  }

  /** It does so whenever no round wraps harmfully. */
  lemma ExactSeparates(range: Pos, seed: U64)
    requires range + Isqrt(range) < TWO64
    requires RoundsOk(HashRound(seed), ROUNDS, FirstSide(range), SecondSide(range))
    ensures Separates(Walk(range, seed), range)
  {
    SidesFor(range);
    CipherPermutes(HashRound(seed), ROUNDS, FirstSide(range), SecondSide(range));
    FirstReturnPermutes(Walk(range, seed), FirstSide(range) * SecondSide(range), range);
  }

  class Shuffle {
    var range: U64
    var a: U64
    var b: U64
    var seed: U64
    var rounds: nat

    predicate Valid()
      reads this
    {
      && 1 <= a <= TWO64 / 2 && 1 <= b <= TWO64 / 2
      && range < a * b <= range + a
      && a * b < TWO64
    }

    ghost function Step(): nat -> nat
      requires Valid()
      reads this
    {
      Cipher(HashRound(seed), rounds, a, b)
    }

    ghost function BackStep(): nat -> nat
      requires Valid()
      reads this
    {
      Decipher(HashRound(seed), rounds, a, b)
    }

    /** The order in which indices are visited: the first-return map of the cipher. */
    ghost function Order(): nat -> nat
      requires Valid()
      reads this
    {
      FirstReturn(Step(), range)
    }

    /** shuffle_init, for ranges whose a*b does not overflow. */
    constructor Init(range: U64, seed: U64)
      requires 1 <= range && range + Isqrt(range) < TWO64
      ensures Valid()
      ensures this.range == range && this.seed == seed && rounds == ROUNDS
      ensures a == FirstSide(range) && b == SecondSide(range)
    {
      hide SidesInit, FirstSide, SecondSide, Isqrt, Area;
      var root := Isqrt(range);
      var x: int, y: int;
      StartSides(range);
      if range == 1 {
        x, y := 1, 1;
      } else if range == 2 {
        x, y := 1, 2;
      } else if range == 3 {
        x, y := 2, 2;
      } else {
        x, y := root - 1, root + 1;
      }
      SidesProduct(range, x, y);
      while Area(x, y) % TWO64 <= range
        invariant SidesInit(range, x, y) && x == FirstSide(range) && 0 <= Area(x, y) < TWO64
        decreases range + x - Area(x, y)
      {
        NextSide(range, x, y);
        y := y + 1;
        SidesProduct(range, x, y);
      }
      SidesBound(range, x, y);
      this.a, this.b := x, y;
      this.range, this.seed, this.rounds := range, seed, ROUNDS;
    }

    lemma StepInto()
      requires Valid()
      ensures Into(Step(), a * b, a * b)
    {
      CipherInto(HashRound(seed), rounds, a, b);
    }

    /**
    shuffle, for an index whose walk returns: for any other one the loop does not end. If the
    cipher keeps visited points apart, every walk returns within a*b - range + 1 <= a + 1 steps.
    */
    method Shuffle(m: U64) returns (c: nat, ghost steps: nat)
      requires Valid() && m < range && Returns(Step(), range, m)
      ensures c == Order()(m) && c < range && ReturnsAt(Step(), range, m, steps)
      ensures Separates(Step(), range) ==> steps <= a * b - range + 1 <= a + 1
    {
      hide *;
      ghost var p, k := Step(), ReturnTime(Step(), range, m);
      steps := 1;
      FirstPoint(m);
      c := DoShuffle(HashRound(seed), rounds, a, b, m);
      while c >= range
        invariant 1 <= steps <= k && c == Iterate(p, steps, m)
        decreases k - steps
      {
        BeforeTheEnd(p, range, m, k, steps);
        NextPoint(m, c, steps);
        c := DoShuffle(HashRound(seed), rounds, a, b, c);
        steps := steps + 1;
      }
      BeforeTheEnd(p, range, m, k, steps);
      ShuffleEnd(m);
    }

    lemma FirstPoint(m: nat)
      requires Valid()
      ensures 1 <= a && 1 <= b
      ensures Encrypt(HashRound(seed), rounds, a, b, m) == Iterate(Step(), 1, m)
      ensures Decrypt(HashRound(seed), rounds, a, b, m) == Iterate(BackStep(), 1, m)
    {
    }

    lemma NextPoint(m: nat, c: nat, k: nat)
      requires Valid()
      ensures c == Iterate(Step(), k, m) ==> Encrypt(HashRound(seed), rounds, a, b, c) == Iterate(Step(), k + 1, m)
      ensures c == Iterate(BackStep(), k, m) ==>
                Decrypt(HashRound(seed), rounds, a, b, c) == Iterate(BackStep(), k + 1, m)
    {
    }

    lemma ShuffleEnd(m: nat)
      requires Valid() && m < range && Returns(Step(), range, m)
      ensures Order()(m) == Iterate(Step(), ReturnTime(Step(), range, m), m)
      ensures Separates(Step(), range) ==> ReturnTime(Step(), range, m) <= a * b - range + 1 <= a + 1
    {
      StepInto();
      if Separates(Step(), range) {
        WalkReturns(Step(), a * b, range, m);
      }
    }

    /** unshuffle, for an index whose backward walk returns. */
    method Unshuffle(m: U64) returns (c: nat)
      requires Valid() && m < range && Returns(BackStep(), range, m)
      ensures c == FirstReturn(BackStep(), range)(m) && c < range
    {
      hide *;
      ghost var q, k := BackStep(), ReturnTime(BackStep(), range, m);
      ghost var steps := 1;
      FirstPoint(m);
      c := DoUnshuffle(HashRound(seed), rounds, a, b, m);
      while c >= range
        invariant 1 <= steps <= k && c == Iterate(q, steps, m)
        decreases k - steps
      {
        BeforeTheEnd(q, range, m, k, steps);
        NextPoint(m, c, steps);
        c := DoUnshuffle(HashRound(seed), rounds, a, b, c);
        steps := steps + 1;
      }
      BeforeTheEnd(q, range, m, k, steps);
      FirstReturnIs(q, range, m);
    }

    /** The order visits every index of [0, range) exactly once, if and only if visited points are kept apart. */
    lemma OrderPermutesIff()
      requires Valid()
      ensures AllReturn(Step(), range) && Permutes(Order(), range) <==> Separates(Step(), range)
    {
      StepInto();
      WalkPermutesIff(Step(), a * b, range);
    }

    /** Walking back from m returns to the index whose shuffle is m. */
    lemma UnshuffleTarget(m: nat) returns (x: nat, k: nat)
      requires Valid() && Undoes(BackStep(), Step(), range) && m < range
      ensures x < range && Order()(x) == m && Returns(Step(), range, x)
      ensures ReturnsAt(BackStep(), range, m, k) && Iterate(BackStep(), k, m) == x
    {
      var p, q := Step(), BackStep();
      UndoneSeparates(p, q, range);
      OrderPermutesIff();
      InjectiveIsOnto(Order(), range);
      assert Hits(Order(), range, m);
      x :| 0 <= x < range && Order()(x) == m;
      k := ReturnTime(p, range, x);
      WalkBackReturns(p, q, range, x, k);
    }

    lemma UnshuffleIs(m: nat)
      requires Valid() && Undoes(BackStep(), Step(), range) && m < range
      ensures Returns(BackStep(), range, m)
      ensures var x := FirstReturn(BackStep(), range)(m);
              x < range && Order()(x) == m && Returns(Step(), range, x)
    {
      var x, k := UnshuffleTarget(m);
      ReturnUnique(BackStep(), range, m, k, ReturnTime(BackStep(), range, m));
    }

    /** In the window of DecryptEncrypt everything is undone, visited or not. */
    lemma InvertibleUndoes()
      requires Valid() && RoundsOk(HashRound(seed), rounds, a, b) && UnroundsOk(HashRound(seed), rounds, a, b)
      ensures Undoes(BackStep(), Step(), range)
    {
      var p, q := Step(), BackStep();
      StepInto();
      forall x: nat | Visited(p, range, x) ensures q(p(x)) == x {
        VisitedInto(p, a * b, range, x);
        DecryptEncrypt(HashRound(seed), rounds, a, b, x);
      }
    }

    /**
    unshuffle(shuffle(m)) == m and shuffle(unshuffle(m)) == m, if do_unshuffle undoes do_shuffle at
    the points that the walks visit.
    */
    method RoundTrip(m: U64)
      returns (c: nat, back: nat, d: nat, forth: nat)
      requires Valid() && Undoes(BackStep(), Step(), range) && m < range
      ensures c == Order()(m) && back == m
      ensures Order()(d) == m && forth == m
    {
      UndoneSeparates(Step(), BackStep(), range);
      OrderPermutesIff();
      ghost var steps;
      c, steps := Shuffle(m);
      UnshuffleIs(c);
      back := Unshuffle(c);
      UnshuffleIs(m);
      d := Unshuffle(m);
      forth, steps := Shuffle(d);
    }
  }

  /** What the set-up loop keeps: one more step of b cannot pass range + a. */
  predicate SidesInit(range: U64, x: int, y: int) {
    1 <= x <= TWO32 && 1 <= y && 0 <= x * y <= range + x < TWO64 && (x == 1 ==> range <= 8)
  }

  function Area(x: int, y: int): int {
    x * y
  }

  lemma DefaultSides(range: U64, root: nat)
    requires range >= 4 && root * root <= range < (root + 1) * (root + 1) && root >= 2
    requires range + root < TWO64
    ensures SidesInit(range, root - 1, root + 1)
  {
    assert (root - 1) * (root + 1) == root * root - 1;
    if root > TWO32 {
      MulMono(root, TWO32, root);
    }
  }

  /** The sides that the set-up starts from. */
  lemma StartSides(range: U64)
    requires 1 <= range && range + Isqrt(range) < TWO64
    ensures range <= 2 ==> FirstSide(range) == 1 && SidesInit(range, 1, range)
    ensures range == 3 ==> FirstSide(range) == 2 && SidesInit(range, 2, 2)
    ensures range >= 4 ==> var root := Isqrt(range);
              FirstSide(range) == root - 1 && SidesInit(range, root - 1, root + 1)
  {
    if range >= 4 {
      IsqrtIs(range);
      IsqrtBounds(range);
      DefaultSides(range, Isqrt(range));
    }
  }

  lemma SidesProduct(range: U64, x: int, y: int)
    requires SidesInit(range, x, y)
    ensures 0 <= Area(x, y) < TWO64
  {
  }

  lemma NextSide(range: U64, x: int, y: int)
    requires SidesInit(range, x, y) && Area(x, y) <= range
    ensures SidesInit(range, x, y + 1) && Area(x, y) < Area(x, y + 1) && Area(x, y) < range + x
  {
    assert x * (y + 1) == x * y + x;
  }

  lemma SidesBound(range: U64, x: int, y: int)
    requires SidesInit(range, x, y) && Area(x, y) > range && range >= 1 && x == FirstSide(range)
    ensures x <= TWO32 && y <= TWO64 / 2 && range < x * y <= range + x && x * y < TWO64
    ensures y == SecondSide(range)
  {
    assert x * (y - 1) == x * y - x;
    DivModUnique(x, y - 1, range - x * (y - 1));
    MulMono(y, 1, x);
    MulMono(y, 2, x);
  }
}
