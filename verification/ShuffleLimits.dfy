/**
The shipped round function can leave the window. With this seed and four targets, the
second-round addition wraps for one left half and not for its neighbour, and the cipher
sends indices 1 and 2 to the same place.
*/
module ShuffleLimits {
  import opened Words
  import opened Finite
  import opened Bits
  import opened WordBytes
  import opened Hash
  import opened HashTrace
  import opened Feistel
  import opened FeistelTheorems
  import opened CycleWalk
  import opened Shuffle

  const SEED: U64 := 2867564111655786338

  lemma SecondBytes(c: Chain)
    requires c == Chain(2867564111655786082, 7901345897541099428, 8121424111536868620,
                        11142941541197939236, 15579179962053765260, 15579179962053765276)
    ensures c.start == Xor(SEED, 128 * 2) && c.first == Xor(Times(c.start), 2)
    ensures c.second == Xor(Times(c.spread), 0) && c.sized == Xor(c.last, 16)
    ensures Xor(c.sized, SEED) == TWO64 - 2
  {
    hide Xor;
    var seed := Word(0x62, 0xd7, 0xe6, 0xd5, 0x5d, 0xa2, 0xcb, 0x27);
    XorIs(seed, SEED, Word(0x00, 0x01, 0x00, 0x00, 0x00, 0x00, 0x00, 0x00), 256, c.start);
    XorSmall(Word(0xa6, 0x5f, 0x6d, 0x0e, 0x3b, 0x38, 0xa7, 0x6d), Times(c.start), 0x02, 2, c.first);
    XorSmall(Word(0x24, 0x02, 0x0c, 0x3c, 0x4b, 0xae, 0xa3, 0x9a), Times(c.spread), 0x00, 0, c.second);
    XorSmall(Word(0x8c, 0x28, 0x19, 0x2a, 0xa2, 0x5d, 0x34, 0xd8), c.last, 0x10, 16, c.sized);
    XorIs(Word(0x9c, 0x28, 0x19, 0x2a, 0xa2, 0x5d, 0x34, 0xd8), c.sized, seed, SEED, TWO64 - 2);
  }

  lemma SecondValue(p: nat)
    requires p == SEVENTH == Power(7)
    ensures HashRound(SEED)(2, 0) == TWO64 - 2
  {
    hide Xor, Power;
    var c := Chain(2867564111655786082, 7901345897541099428, 8121424111536868620,
                   11142941541197939236, 15579179962053765260, 15579179962053765276);
    SecondBytes(c);
    Product(p, c.first, 428341814453836761150984354142625500290551, c.spread);
    Product(p, c.second, 604072756717955148778569673375497650457917, c.last);
    HashByChain(c, SEED, 2, 0, 7);
  }

  /** The value the second round adds when the right half is 0. */
  lemma SecondRound()
    ensures HashRound(SEED)(2, 0) == TWO64 - 2
  {
    SeventhIs(Power(7));
    SecondValue(SEVENTH);
  }

  /** Four targets give the sides 1 and 5; indices 1 and 2 collide in the second round. */
  lemma SecondRoundCollides(f: RoundFn)
    requires f(2, 0) == TWO64 - 2
    ensures Rounds(f, 1, 5, Split(1, 0, 1), 2) == Rounds(f, 1, 5, Split(1, 0, 2), 2)
  {
    assert Rounds(f, 1, 5, Split(1, 0, 1), 1) == Halves(1, 0);
    assert Rounds(f, 1, 5, Split(1, 0, 2), 1) == Halves(2, 0);
    assert Mix(1, TWO64 - 2, 5) == 0 == Mix(2, TWO64 - 2, 5);
  }

  lemma {:induction false} WalksCoincide(p: nat -> nat, x: nat, y: nat, k: nat)
    requires p(x) == p(y) && k >= 1
    ensures Iterate(p, k, x) == Iterate(p, k, y)
  {
    if k > 1 {
      WalksCoincide(p, x, y, k - 1);
    }
  }

  /**
  With the shipped hash, this seed and a scan of four pairs, the walks from indices 1 and 2 agree
  from the first step on: the two indices never give different pairs, so some pair is never visited.
  */
  lemma ShippedShuffleCollides(k: nat)
    requires k >= 1
    ensures FirstSide(4) == 1 && SecondSide(4) == 5
    ensures var p := Cipher(HashRound(SEED), ROUNDS, 1, 5);
            !Permutes(p, 5) && Iterate(p, k, 1) == Iterate(p, k, 2)
  {
    hide Rounds, HashRound, Iterate;
    var f := HashRound(SEED);
    SecondRound();
    SecondRoundCollides(f);
    CollisionPersists(f, ROUNDS, 1, 5, Split(1, 0, 1), Split(1, 0, 2), 2);
    var p := Cipher(f, ROUNDS, 1, 5);
    assert p(1) == p(2);
    WalksCoincide(p, 1, 2, k);
    IsqrtUnique(4, 2);
  }
}
