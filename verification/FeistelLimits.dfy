/**
Two round functions that show what the exact conditions have to leave room for. Backward rounds that
are both wrong can make up for each other, which is why DecryptEncryptIff excludes peculiar values
in two rounds; and a wrap that collides at a point no walk visits does not harm a scan.
*/
module FeistelLimits {
  import opened Words
  import opened Finite
  import opened Feistel
  import opened FeistelTheorems

  /** Five rounds of which the first and the last are outside the window, for the sides 5 and 1. */
  function Cancelling(): RoundFn {
    (j: nat, right: nat) => if j == 3 then 14 else 6
  }

  function Back6(right: nat): nat {
    if right == 0 then 4 else if right == 1 then 0 else if right == 2 then 1 else if right == 3 then 3 else 2
  }

  lemma UnmixBySix(right: nat)
    requires right < 5
    ensures Unmix(6, right, 5) == Back6(right)
  {
    assert right == 0 || right == 1 || right == 2 || right == 3 || right == 4;
  }

  lemma UnmixByFourteen(right: nat)
    requires right < 5
    ensures Unmix(14, right, 5) == (right + 1) % 5
  {
    assert right == 0 || right == 1 || right == 2 || right == 3 || right == 4;
  }

  lemma RoundPair(f: RoundFn, j: nat, left: nat, x: U64)
    requires j % 2 == 1 && f(j, 0) == x && left < 5 && x < 100
    ensures Round(f, 5, 1, j + 1, Round(f, 5, 1, j, Halves(left, 0))) == Halves((left + x) % 5, 0)
  {
  }

  lemma EncryptsTo(f: RoundFn, m: nat)
    requires f == Cancelling() && m < 5
    ensures Encrypt(f, 5, 5, 1, m) == (m + 1) % 5
  {
    hide Round, Mix;
    var h := Split(5, 0, m);
    assert h == Halves(m, 0);
    RoundPair(f, 1, m, 6);
    var m2 := (m + 6) % 5;
    assert Rounds(f, 5, 1, h, 2) == Halves(m2, 0) by {
      assert Rounds(f, 5, 1, h, 1) == Round(f, 5, 1, 1, h);
    }
    RoundPair(f, 3, m2, 14);
    var m4 := (m2 + 14) % 5;
    assert Rounds(f, 5, 1, h, 4) == Halves(m4, 0) by {
      assert Rounds(f, 5, 1, h, 3) == Round(f, 5, 1, 3, Rounds(f, 5, 1, h, 2));
    }
    LastRound(f, h, m4);
  }

  lemma LastRound(f: RoundFn, h: Halves, m: nat)
    requires Rounds(f, 5, 1, h, 4) == Halves(m, 0) && m < 5 && f(5, 0) == 6
    ensures Rounds(f, 5, 1, h, 5) == Halves(0, (m + 1) % 5)
  {
    assert Mix(m, 6, 5) == (m + 1) % 5;
  }

  lemma UnroundPair(f: RoundFn, j: nat, right: nat, x: U64)
    requires j >= 2 && j % 2 == 1 && f(j, 0) == x && right < 5
    ensures Unround(f, 5, 1, j - 1, Unround(f, 5, 1, j, Halves(0, right))) == Halves(0, Unmix(x, right, 5))
  {
    var y := Unmix(x, right, 5);
    assert Unround(f, 5, 1, j, Halves(0, right)) == Halves(y, 0);
    assert Unmix(f(j - 1, y), 0, 1) == 0;
  }

  lemma DecryptsTo(f: RoundFn, c: nat)
    requires f == Cancelling() && c < 5
    ensures Decrypt(f, 5, 5, 1, c) == Back6((Back6(c) + 1) % 5)
  {
    hide Unround, Unmix;
    var h := Split(5, 5, c);
    assert h == Halves(0, c);
    UnroundPair(f, 5, c, 6);
    UnmixBySix(c);
    var g := Halves(0, Back6(c));
    assert Unrounds(f, 5, 1, h, 5) == Unrounds(f, 5, 1, g, 3) by {
      assert Unrounds(f, 5, 1, h, 5) == Unrounds(f, 5, 1, Unround(f, 5, 1, 5, h), 4);
    }
    UnroundPair(f, 3, g.right, 14);
    UnmixByFourteen(g.right);
    var e := Halves(0, (g.right + 1) % 5);
    assert Unrounds(f, 5, 1, g, 3) == Unrounds(f, 5, 1, e, 1) by {
      assert Unrounds(f, 5, 1, g, 3) == Unrounds(f, 5, 1, Unround(f, 5, 1, 3, g), 2);
    }
    FirstRound(f, e.right);
  }

  lemma FirstRound(f: RoundFn, right: nat)
    requires right < 5 && f(1, 0) == 6
    ensures Unrounds(f, 5, 1, Halves(0, right), 1) == Halves(Back6(right), 0)
  {
    UnmixBySix(right);
    assert Unrounds(f, 5, 1, Halves(0, right), 1) == Unround(f, 5, 1, 1, Halves(0, right));
  }

  lemma Recovered(f: RoundFn, m: nat)
    requires f == Cancelling() && m < 5
    ensures Decrypt(f, 5, 5, 1, Encrypt(f, 5, 5, 1, m)) == m
  {
    hide Encrypt, Decrypt;
    EncryptsTo(f, m);
    DecryptsTo(f, (m + 1) % 5);
    assert m == 0 || m == 1 || m == 2 || m == 3 || m == 4;
  }

  lemma OutsideWindow(f: RoundFn)
    requires f == Cancelling()
    ensures RoundsOk(f, 5, 5, 1) && !UnroundOk(f, 5, 1, 1) && !UnroundOk(f, 5, 1, 5)
  {
    assert Side(5, 1, 1) == 5 && Side(5, 1, 5) == 5;
    assert !UnmixOk(f(1, 0), 5) && !UnmixOk(f(5, 0), 5);
  }

  /** Everything is recovered although two rounds are outside the window. */
  lemma WrongRoundsCancel()
    ensures var f := Cancelling();
            RoundsOk(f, 5, 5, 1) && AllRecovered(f, 5, 5, 1) && !UnroundOk(f, 5, 1, 1) && !UnroundOk(f, 5, 1, 5)
  {
    hide RoundsOk, UnroundOk, Encrypt, Decrypt;
    var f := Cancelling();
    OutsideWindow(f);
    forall m: nat | m < 5 ensures Decrypt(f, 5, 5, 1, Encrypt(f, 5, 5, 1, m)) == m {
      Recovered(f, m);
    }
  }

  // ----- a harmful wrap that no walk meets --------------------------------------------

  function Unvisited(): RoundFn {
    (j: nat, right: nat) => if j == 2 then TWO64 - 4 else 3
  }

  lemma StaysPut(f: RoundFn, m: nat)
    requires f == Unvisited() && m < 4
    ensures Encrypt(f, 4, 1, 5, m) == m
  {
    var h, y := Halves(0, m), (m + 2) % 5;
    assert Split(1, 0, m) == h;
    assert Rounds(f, 1, 5, h, 1) == Halves(m, 0);
    assert Mix(m, TWO64 - 4, 5) == y;
    assert Rounds(f, 1, 5, h, 2) == Halves(0, y);
    assert Rounds(f, 1, 5, h, 3) == Halves(y, 0);
    assert Mix(y, 3, 5) == m;
    assert Rounds(f, 1, 5, h, 4) == Halves(0, m);
  }

  /** The sides are 1 and 5, the range is 4: a round wraps harmfully, and yet every index stays where it is. */
  lemma HarmfulWrapUnvisited()
    ensures var f := Unvisited();
            !RoundsOk(f, 4, 1, 5) && forall m: nat :: m < 4 ==> Cipher(f, 4, 1, 5)(m) == m
  {
    var f := Unvisited();
    assert !RoundOk(f, 1, 5, 2) by {
      assert Side(1, 5, 2) == 5 && Side(1, 5, 3) == 1;
      assert !MixOk(f(2, 0), 5);
    }
    forall m: nat | m < 4 ensures Cipher(f, 4, 1, 5)(m) == m {
      StaysPut(f, m);
    }
  }
}
