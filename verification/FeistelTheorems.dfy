/**
When the cipher permutes [0, a*b), and when decryption undoes encryption. Both hold for
every number of rounds, odd or even.
*/
module FeistelTheorems {
  import opened Words
  import opened Finite
  import opened Feistel

  ghost function Cipher(f: RoundFn, r: nat, a: Pos, b: Pos): nat -> nat {
    m => Encrypt(f, r, a, b, m)
  }

  ghost function Decipher(f: RoundFn, r: nat, a: Pos, b: Pos): nat -> nat {
    m => Decrypt(f, r, a, b, m)
  }

  /** No addition of round j wraps harmfully. */
  ghost predicate RoundOk(f: RoundFn, a: Pos, b: Pos, j: nat) {
    forall right: nat :: right < Side(a, b, j + 1) ==> MixOk(f(j, right), Side(a, b, j))
  }

  ghost predicate RoundsOk(f: RoundFn, r: nat, a: Pos, b: Pos) {
    forall j: nat :: 1 <= j <= r ==> RoundOk(f, a, b, j)
  }

  /** Every value of the round function is in the window where a backward round is exact. */
  ghost predicate UnroundOk(f: RoundFn, a: Pos, b: Pos, j: nat) {
    forall right: nat :: right < Side(a, b, j + 1) ==> UnmixOk(f(j, right), Side(a, b, j))
  }

  ghost predicate UnroundsOk(f: RoundFn, r: nat, a: Pos, b: Pos) {
    forall j: nat :: 1 <= j <= r ==> UnroundOk(f, a, b, j)
  }

  /** The halves are in range after j rounds. */
  predicate Fits(a: Pos, b: Pos, j: nat, h: Halves) {
    h.left < Side(a, b, j + 1) && h.right < Side(a, b, j)
  }

  lemma RoundFits(f: RoundFn, a: Pos, b: Pos, j: nat, h: Halves)
    requires j >= 1 && Fits(a, b, j - 1, h)
    ensures Fits(a, b, j, Round(f, a, b, j, h))
  {
    assert (j - 1) % 2 == (j + 1) % 2;
  }

  lemma {:induction false} RoundsFit(f: RoundFn, a: Pos, b: Pos, h: Halves, j: nat)
    requires Fits(a, b, 0, h)
    ensures Fits(a, b, j, Rounds(f, a, b, h, j))
  {
    if j != 0 {
      RoundsFit(f, a, b, h, j - 1);
      RoundFits(f, a, b, j, Rounds(f, a, b, h, j - 1));
    }
  }

  lemma JoinThenSplit(a: Pos, b: Pos, r: nat, h: Halves)
    requires a * b <= TWO64 && Fits(a, b, r, h)
    ensures Join(a, r, h) < a * b && Split(a, r, Join(a, r, h)) == h
  {
    var q, rest := if r % 2 == 1 then h.left else h.right, if r % 2 == 1 then h.right else h.left;
    var m := a * q + rest;
    JoinBound(a, b, q, rest);
    DivModUnique(a, q, rest);
    assert Join(a, r, h) == m;
  }

  lemma SplitThenJoin(a: Pos, b: Pos, r: nat, m: nat)
    requires a * b <= TWO64 && m < a * b
    ensures Fits(a, b, r, Split(a, r, m)) && Join(a, r, Split(a, r, m)) == m
  {
    SplitBound(a, b, m);
  }

  lemma EncryptState(f: RoundFn, r: nat, a: Pos, b: Pos, m: nat)
    requires a * b <= TWO64 && m < a * b
    ensures Fits(a, b, 0, Split(a, 0, m))
    ensures Fits(a, b, r, Rounds(f, a, b, Split(a, 0, m), r))
    ensures Encrypt(f, r, a, b, m) < a * b
    ensures Split(a, r, Encrypt(f, r, a, b, m)) == Rounds(f, a, b, Split(a, 0, m), r)
  {
    SplitThenJoin(a, b, 0, m);
    RoundsFit(f, a, b, Split(a, 0, m), r);
    JoinThenSplit(a, b, r, Rounds(f, a, b, Split(a, 0, m), r));
  }

  // ----- encryption is a permutation exactly when no round wraps harmfully ---

  lemma SideBound(a: Pos, b: Pos, j: nat)
    requires a * b <= TWO64
    ensures Side(a, b, j) <= TWO64
  {
    MulMono(a, 1, b);
    MulMono(b, 1, a);
  }

  lemma RoundInjective(f: RoundFn, a: Pos, b: Pos, j: nat, g: Halves, h: Halves)
    requires a * b <= TWO64 && j >= 1 && RoundOk(f, a, b, j)
    requires Fits(a, b, j - 1, g) && Fits(a, b, j - 1, h)
    requires Round(f, a, b, j, g) == Round(f, a, b, j, h)
    ensures g == h
  {
    hide Mix, MixOk;
    assert (j - 1) % 2 == (j + 1) % 2;
    SideBound(a, b, j);
    assert MixOk(f(j, g.right), Side(a, b, j));
    MixInjective(g.left, h.left, f(j, g.right), Side(a, b, j));
  }

  lemma {:induction false} RoundsInjective(f: RoundFn, r: nat, a: Pos, b: Pos, g: Halves, h: Halves)
    requires a * b <= TWO64 && RoundsOk(f, r, a, b)
    requires Fits(a, b, 0, g) && Fits(a, b, 0, h)
    requires Rounds(f, a, b, g, r) == Rounds(f, a, b, h, r)
    ensures g == h
  {
    if r != 0 {
      RoundsFit(f, a, b, g, r - 1);
      RoundsFit(f, a, b, h, r - 1);
      RoundInjective(f, a, b, r, Rounds(f, a, b, g, r - 1), Rounds(f, a, b, h, r - 1));
      RoundsInjective(f, r - 1, a, b, g, h);
    }
  }

  lemma EncryptInjective(f: RoundFn, r: nat, a: Pos, b: Pos, x: nat, y: nat)
    requires a * b <= TWO64 && RoundsOk(f, r, a, b)
    requires x < a * b && y < a * b && Encrypt(f, r, a, b, x) == Encrypt(f, r, a, b, y)
    ensures x == y
  {
    EncryptState(f, r, a, b, x);
    EncryptState(f, r, a, b, y);
    RoundsInjective(f, r, a, b, Split(a, 0, x), Split(a, 0, y));
    SplitThenJoin(a, b, 0, x);
    SplitThenJoin(a, b, 0, y);
  }

  /** Whatever the round function, the cipher stays inside [0, a*b). */
  lemma CipherInto(f: RoundFn, r: nat, a: Pos, b: Pos)
    requires a * b <= TWO64
    ensures Into(Cipher(f, r, a, b), a * b, a * b)
  {
    forall x: nat | x < a * b ensures Cipher(f, r, a, b)(x) < a * b {
      EncryptState(f, r, a, b, x);
    }
  }

  /** Without harmful wraps the cipher is a permutation of [0, a*b). */
  lemma CipherPermutes(f: RoundFn, r: nat, a: Pos, b: Pos)
    requires a * b <= TWO64 && RoundsOk(f, r, a, b)
    ensures Permutes(Cipher(f, r, a, b), a * b)
  {
    var c := Cipher(f, r, a, b);
    CipherInto(f, r, a, b);
    forall x: nat, y: nat | x < a * b && y < a * b && c(x) == c(y) ensures x == y {
      EncryptInjective(f, r, a, b, x, y);
    }
  }

  /** The rounds before a state are onto, so every state occurs. */
  lemma StateReached(f: RoundFn, r: nat, a: Pos, b: Pos, h: Halves) returns (m: nat)
    requires a * b <= TWO64 && RoundsOk(f, r, a, b) && Fits(a, b, r, h)
    ensures m < a * b && Rounds(f, a, b, Split(a, 0, m), r) == h
  {
    JoinThenSplit(a, b, r, h);
    CipherPermutes(f, r, a, b);
    InjectiveIsOnto(Cipher(f, r, a, b), a * b);
    assert Hits(Cipher(f, r, a, b), a * b, Join(a, r, h));
    m :| 0 <= m < a * b && Cipher(f, r, a, b)(m) == Join(a, r, h);
    EncryptState(f, r, a, b, m);
  }

  /** A collision in one round is a collision of the whole cipher. */
  lemma {:induction false} CollisionPersists(f: RoundFn, r: nat, a: Pos, b: Pos, g: Halves, h: Halves, j: nat)
    requires j <= r && Rounds(f, a, b, g, j) == Rounds(f, a, b, h, j)
    ensures Rounds(f, a, b, g, r) == Rounds(f, a, b, h, r)
  {
    if j < r {
      CollisionPersists(f, r - 1, a, b, g, h, j);
    }
  }

  /** The first round that wraps harmfully makes the cipher collide. */
  lemma BadRoundCollides(f: RoundFn, r: nat, a: Pos, b: Pos, j: nat) returns (x: nat, y: nat)
    requires a * b <= TWO64 && 1 <= j <= r
    requires RoundsOk(f, j - 1, a, b) && !RoundOk(f, a, b, j)
    ensures x < a * b && y < a * b && x != y
    ensures Encrypt(f, r, a, b, x) == Encrypt(f, r, a, b, y)
  {
    var right: nat :| right < Side(a, b, j + 1) && !MixOk(f(j, right), Side(a, b, j));
    SideBound(a, b, j);
    var l1, l2 := MixCollides(f(j, right), Side(a, b, j));
    assert (j - 1) % 2 == (j + 1) % 2;
    x := StateReached(f, j - 1, a, b, Halves(l1, right));
    y := StateReached(f, j - 1, a, b, Halves(l2, right));
    CollisionPersists(f, r, a, b, Split(a, 0, x), Split(a, 0, y), j);
  }

  lemma {:induction false} FirstBadRound(f: RoundFn, r: nat, a: Pos, b: Pos) returns (j: nat)
    requires !RoundsOk(f, r, a, b)
    ensures 1 <= j <= r && RoundsOk(f, j - 1, a, b) && !RoundOk(f, a, b, j)
  {
    if RoundsOk(f, r - 1, a, b) {
      j := r;
    } else {
      j := FirstBadRound(f, r - 1, a, b);
    }
  }

  /** The cipher permutes [0, a*b) if and only if no round wraps harmfully. */
  lemma CipherPermutesIff(f: RoundFn, r: nat, a: Pos, b: Pos)
    requires a * b <= TWO64
    ensures Permutes(Cipher(f, r, a, b), a * b) <==> RoundsOk(f, r, a, b)
  {
    if RoundsOk(f, r, a, b) {
      CipherPermutes(f, r, a, b);
    } else {
      var j := FirstBadRound(f, r, a, b);
      var x, y := BadRoundCollides(f, r, a, b, j);
      var c := Cipher(f, r, a, b);
      assert c(x) == c(y);
    }
  }

  // ----- decryption --------------------------------------------------------

  lemma UnroundInverts(f: RoundFn, a: Pos, b: Pos, j: nat, h: Halves)
    requires a <= TWO64 / 2 && b <= TWO64 / 2 && j >= 1
    requires RoundOk(f, a, b, j) && UnroundOk(f, a, b, j) && Fits(a, b, j - 1, h)
    ensures Unround(f, a, b, j, Round(f, a, b, j, h)) == h
  {
    assert (j - 1) % 2 == (j + 1) % 2;
    assert MixOk(f(j, h.right), Side(a, b, j)) && UnmixOk(f(j, h.right), Side(a, b, j));
    UnmixInverts(h.left, f(j, h.right), Side(a, b, j));
  }

  /** A single backward round is the inverse of its round exactly in the window. */
  lemma UnroundInvertsIff(f: RoundFn, a: Pos, b: Pos, j: nat)
    requires a <= TWO64 / 2 && b <= TWO64 / 2 && j >= 1 && RoundOk(f, a, b, j)
    ensures UnroundOk(f, a, b, j) <==>
            forall h :: Fits(a, b, j - 1, h) ==> Unround(f, a, b, j, Round(f, a, b, j, h)) == h
  {
    if UnroundOk(f, a, b, j) {
      forall h | Fits(a, b, j - 1, h)
        ensures Unround(f, a, b, j, Round(f, a, b, j, h)) == h
      {
        UnroundInverts(f, a, b, j, h);
      }
    } else {
      var h := UnroundFails(f, a, b, j);
    }
  }

  lemma UnroundFails(f: RoundFn, a: Pos, b: Pos, j: nat) returns (h: Halves)
    requires a <= TWO64 / 2 && b <= TWO64 / 2 && j >= 1
    requires RoundOk(f, a, b, j) && !UnroundOk(f, a, b, j)
    ensures Fits(a, b, j - 1, h) && Unround(f, a, b, j, Round(f, a, b, j, h)) != h
  {
    var right: nat :| right < Side(a, b, j + 1) && !UnmixOk(f(j, right), Side(a, b, j));
    assert (j - 1) % 2 == (j + 1) % 2;
    var left := UnmixFails(f(j, right), Side(a, b, j));
    h := Halves(left, right);
  }

  lemma {:induction false} UnroundsInvert(f: RoundFn, r: nat, a: Pos, b: Pos, h: Halves)
    requires a <= TWO64 / 2 && b <= TWO64 / 2
    requires RoundsOk(f, r, a, b) && UnroundsOk(f, r, a, b) && Fits(a, b, 0, h)
    ensures Unrounds(f, a, b, Rounds(f, a, b, h, r), r) == h
  {
    if r != 0 {
      RoundsFit(f, a, b, h, r - 1);
      UnroundInverts(f, a, b, r, Rounds(f, a, b, h, r - 1));
      UnroundsInvert(f, r - 1, a, b, h);
    }
  }

  /** In the window decryption undoes encryption on all of [0, a*b). */
  lemma DecryptEncrypt(f: RoundFn, r: nat, a: Pos, b: Pos, m: nat)
    requires a <= TWO64 / 2 && b <= TWO64 / 2 && a * b <= TWO64
    requires RoundsOk(f, r, a, b) && UnroundsOk(f, r, a, b) && m < a * b
    ensures Decrypt(f, r, a, b, Encrypt(f, r, a, b, m)) == m
  {
    EncryptState(f, r, a, b, m);
    UnroundsInvert(f, r, a, b, Split(a, 0, m));
    SplitThenJoin(a, b, 0, m);
  }

  /** Exact backward rounds take the state back to any earlier round. */
  lemma {:induction false} PeelRounds(f: RoundFn, r: nat, a: Pos, b: Pos, h: Halves, j: nat)
    requires a <= TWO64 / 2 && b <= TWO64 / 2 && j <= r && Fits(a, b, 0, h)
    requires forall k: nat :: j < k <= r ==> RoundOk(f, a, b, k) && UnroundOk(f, a, b, k)
    ensures Unrounds(f, a, b, Rounds(f, a, b, h, r), r) == Unrounds(f, a, b, Rounds(f, a, b, h, j), j)
  {
    if j < r {
      RoundsFit(f, a, b, h, r - 1);
      UnroundInverts(f, a, b, r, Rounds(f, a, b, h, r - 1));
      PeelRounds(f, r - 1, a, b, h, j);
    }
  }

  lemma UnroundFits(f: RoundFn, a: Pos, b: Pos, j: nat, h: Halves)
    requires j >= 1 && Fits(a, b, j, h)
    ensures Fits(a, b, j - 1, Unround(f, a, b, j, h))
  {
    assert (j - 1) % 2 == (j + 1) % 2;
  }

  /** The index that exact backward rounds recover from a state is the one that leads to it. */
  lemma RecoveredFrom(f: RoundFn, j: nat, a: Pos, b: Pos, h: Halves) returns (m: nat)
    requires a <= TWO64 / 2 && b <= TWO64 / 2 && a * b <= TWO64 && Fits(a, b, j, h)
    requires RoundsOk(f, j, a, b) && UnroundsOk(f, j, a, b)
    ensures Join(a, 0, Unrounds(f, a, b, h, j)) == m && Rounds(f, a, b, Split(a, 0, m), j) == h
  {
    m := StateReached(f, j, a, b, h);
    SplitThenJoin(a, b, 0, m);
    UnroundsInvert(f, j, a, b, Split(a, 0, m));
  }

  /** A single round outside the window is enough for some index not to be recovered. */
  lemma BadRoundNotRecovered(f: RoundFn, r: nat, a: Pos, b: Pos, j: nat) returns (m: nat)
    requires a <= TWO64 / 2 && b <= TWO64 / 2 && a * b <= TWO64 && RoundsOk(f, r, a, b) && 1 <= j <= r
    requires !UnroundOk(f, a, b, j) && forall k: nat :: 1 <= k <= r && k != j ==> UnroundOk(f, a, b, k)
    ensures m < a * b && Decrypt(f, r, a, b, Encrypt(f, r, a, b, m)) != m
  {
    var h := UnroundFails(f, a, b, j);
    m := StateReached(f, j - 1, a, b, h);
    EncryptState(f, r, a, b, m);
    PeelRounds(f, r, a, b, Split(a, 0, m), j);
    var g := Unround(f, a, b, j, Round(f, a, b, j, h));
    RoundFits(f, a, b, j, h);
    UnroundFits(f, a, b, j, Round(f, a, b, j, h));
    var n := RecoveredFrom(f, j - 1, a, b, g);
    assert Decrypt(f, r, a, b, Encrypt(f, r, a, b, m)) == Join(a, 0, Unrounds(f, a, b, g, j - 1));
  }

  // ----- several rounds outside the window ---------------------------------

  ghost predicate AllRecovered(f: RoundFn, r: nat, a: Pos, b: Pos) {
    forall m: nat :: m < a * b ==> Decrypt(f, r, a, b, Encrypt(f, r, a, b, m)) == m
  }

  /** No value of round j is wrong without losing information. */
  ghost predicate NonePeculiar(f: RoundFn, a: Pos, b: Pos, j: nat) {
    forall right: nat :: right < Side(a, b, j + 1) ==> !Peculiar(f(j, right), Side(a, b, j))
  }

  lemma UnroundCollides(f: RoundFn, a: Pos, b: Pos, j: nat) returns (g: Halves, h: Halves)
    requires a <= TWO64 / 2 && b <= TWO64 / 2 && !UnroundOk(f, a, b, j) && NonePeculiar(f, a, b, j)
    ensures Fits(a, b, j, g) && Fits(a, b, j, h) && g != h && Unround(f, a, b, j, g) == Unround(f, a, b, j, h)
  {
    var left: nat :| left < Side(a, b, j + 1) && !UnmixOk(f(j, left), Side(a, b, j));
    var p, q := UnmixCollides(f(j, left), Side(a, b, j));
    g, h := Halves(left, p), Halves(left, q);
  }

  /** The halves after undoing rounds r, r-1, ..., j+1. */
  function Unroll(f: RoundFn, a: Pos, b: Pos, h: Halves, r: nat, j: nat): Halves
    requires j <= r
    decreases r
  {
    if j == r then h else Unroll(f, a, b, Unround(f, a, b, r, h), r - 1, j)
  }

  lemma {:induction false} UnrollFits(f: RoundFn, a: Pos, b: Pos, h: Halves, r: nat, j: nat)
    requires j <= r && Fits(a, b, r, h)
    ensures Fits(a, b, j, Unroll(f, a, b, h, r, j))
    decreases r
  {
    if j < r {
      UnroundFits(f, a, b, r, h);
      UnrollFits(f, a, b, Unround(f, a, b, r, h), r - 1, j);
    }
  }

  lemma {:induction false} UnrollUnrounds(f: RoundFn, a: Pos, b: Pos, h: Halves, r: nat, j: nat)
    requires j <= r
    ensures Unrounds(f, a, b, h, r) == Unrounds(f, a, b, Unroll(f, a, b, h, r, j), j)
    decreases r
  {
    if j < r {
      UnrollUnrounds(f, a, b, Unround(f, a, b, r, h), r - 1, j);
    }
  }

  /** What decryption has reached when rounds r, ..., j+1 are undone, as a number. */
  ghost function Partly(f: RoundFn, r: nat, a: Pos, b: Pos, j: nat): nat -> nat
    requires j <= r
  {
    (m: nat) => Join(a, j, Unroll(f, a, b, Split(a, r, m), r, j))
  }

  lemma PartlyState(f: RoundFn, r: nat, a: Pos, b: Pos, j: nat, m: nat)
    requires j <= r && a * b <= TWO64 && m < a * b
    ensures Partly(f, r, a, b, j)(m) < a * b
    ensures Split(a, j, Partly(f, r, a, b, j)(m)) == Unroll(f, a, b, Split(a, r, m), r, j)
  {
    SplitThenJoin(a, b, r, m);
    UnrollFits(f, a, b, Split(a, r, m), r, j);
    JoinThenSplit(a, b, j, Unroll(f, a, b, Split(a, r, m), r, j));
  }

  lemma DecryptInjective(f: RoundFn, r: nat, a: Pos, b: Pos, x: nat, y: nat)
    requires a * b <= TWO64 && RoundsOk(f, r, a, b) && AllRecovered(f, r, a, b)
    requires x < a * b && y < a * b && Decrypt(f, r, a, b, x) == Decrypt(f, r, a, b, y)
    ensures x == y
  {
    var c := Cipher(f, r, a, b);
    CipherPermutes(f, r, a, b);
    InjectiveIsOnto(c, a * b);
    assert Hits(c, a * b, x) && Hits(c, a * b, y);
    var m: nat :| m < a * b && c(m) == x;
    var n: nat :| n < a * b && c(n) == y;
  }

  lemma PartlyPermutes(f: RoundFn, r: nat, a: Pos, b: Pos, j: nat)
    requires j <= r && a * b <= TWO64 && RoundsOk(f, r, a, b) && AllRecovered(f, r, a, b)
    ensures Permutes(Partly(f, r, a, b, j), a * b)
  {
    var p := Partly(f, r, a, b, j);
    forall x: nat | x < a * b ensures p(x) < a * b {
      PartlyState(f, r, a, b, j, x);
    }
    forall x: nat, y: nat | x < a * b && y < a * b && p(x) == p(y) ensures x == y {
      PartlyState(f, r, a, b, j, x);
      PartlyState(f, r, a, b, j, y);
      UnrollUnrounds(f, a, b, Split(a, r, x), r, j);
      UnrollUnrounds(f, a, b, Split(a, r, y), r, j);
      DecryptInjective(f, r, a, b, x, y);
    }
  }

  lemma PartlyReached(f: RoundFn, r: nat, a: Pos, b: Pos, j: nat, h: Halves) returns (m: nat)
    requires j <= r && a * b <= TWO64 && RoundsOk(f, r, a, b) && AllRecovered(f, r, a, b) && Fits(a, b, j, h)
    ensures m < a * b && Unroll(f, a, b, Split(a, r, m), r, j) == h
  {
    var p := Partly(f, r, a, b, j);
    PartlyPermutes(f, r, a, b, j);
    InjectiveIsOnto(p, a * b);
    JoinThenSplit(a, b, j, h);
    assert Hits(p, a * b, Join(a, j, h));
    m :| 0 <= m < a * b && p(m) == Join(a, j, h);
    PartlyState(f, r, a, b, j, m);
  }

  /** What a backward round merges, no other round can tell apart again. */
  lemma MergedNotRecovered(f: RoundFn, r: nat, a: Pos, b: Pos, j: nat, g: Halves, h: Halves)
    requires a * b <= TWO64 && RoundsOk(f, r, a, b) && 1 <= j <= r
    requires Fits(a, b, j, g) && Fits(a, b, j, h) && g != h && Unround(f, a, b, j, g) == Unround(f, a, b, j, h)
    ensures !AllRecovered(f, r, a, b)
  {
    if AllRecovered(f, r, a, b) {
      var x := PartlyReached(f, r, a, b, j, g);
      var y := PartlyReached(f, r, a, b, j, h);
      UnrollUnrounds(f, a, b, Split(a, r, x), r, j);
      UnrollUnrounds(f, a, b, Split(a, r, y), r, j);
      DecryptInjective(f, r, a, b, x, y);
      assert false;
    }
  }

  /**
  However many rounds are outside the window: everything is recovered if and only if all rounds are
  in it, as long as the peculiar values occur in at most one round.
  */
  lemma DecryptEncryptIff(f: RoundFn, r: nat, a: Pos, b: Pos, j: nat)
    requires a <= TWO64 / 2 && b <= TWO64 / 2 && a * b <= TWO64 && RoundsOk(f, r, a, b)
    requires forall k: nat :: 1 <= k <= r && k != j ==> NonePeculiar(f, a, b, k)
    ensures AllRecovered(f, r, a, b) <==> UnroundsOk(f, r, a, b)
  {
    if UnroundsOk(f, r, a, b) {
      forall m: nat | m < a * b ensures Decrypt(f, r, a, b, Encrypt(f, r, a, b, m)) == m {
        DecryptEncrypt(f, r, a, b, m);
      }
    } else if k: nat :| 1 <= k <= r && k != j && !UnroundOk(f, a, b, k) {
      var g, h := UnroundCollides(f, a, b, k);
      MergedNotRecovered(f, r, a, b, k, g, h);
    } else {
      var m := BadRoundNotRecovered(f, r, a, b, j);
    }
  }
}
