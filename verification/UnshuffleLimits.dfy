/**
The shipped hash can leave the window of unshuffle. With this seed and 121 pairs the first round
adds 17 modulo 10 where the right half is 2, and index 22 is not recovered.
*/
module UnshuffleLimits {
  import opened Words
  import opened Bits
  import opened WordBytes
  import opened Hash
  import opened Feistel
  import opened FeistelTheorems
  import opened CycleWalk
  import opened Shuffle
  import opened HashTrace

  const SEED: U64 := 59925262542166349

  lemma FirstBytes(c: Chain)
    requires c == Chain(59925262542166477, 10417566545479850662, 16036908042826529442,
                        2491910153580944484, 59925262542166348, 59925262542166364)
    ensures c.start == Xor(SEED, 128 * 1) && c.first == Xor(Times(c.start), 1)
    ensures c.second == Xor(Times(c.spread), 2) && c.sized == Xor(c.last, 16)
    ensures Xor(c.sized, SEED) == 17
  {
    hide Xor;
    var seed := Word(0x4d, 0xd9, 0xe5, 0x72, 0xb5, 0xe5, 0xd4, 0x00);
    XorIs(seed, SEED, Word(0x80, 0x00, 0x00, 0x00, 0x00, 0x00, 0x00, 0x00), 128, c.start);
    XorSmall(Word(0xa7, 0xda, 0x51, 0x17, 0x94, 0xa1, 0x92, 0x90), Times(c.start), 0x01, 1, c.first);
    XorSmall(Word(0x66, 0x9c, 0x61, 0xfc, 0x14, 0x0b, 0x95, 0x22), Times(c.spread), 0x02, 2, c.second);
    XorSmall(Word(0x4c, 0xd9, 0xe5, 0x72, 0xb5, 0xe5, 0xd4, 0x00), c.last, 0x10, 16, c.sized);
    XorIs(Word(0x5c, 0xd9, 0xe5, 0x72, 0xb5, 0xe5, 0xd4, 0x00), c.sized, seed, SEED, 17);
  }

  /** The hash of round 1 and right half 2. */
  lemma FirstValue(p: nat)
    requires p == SEVENTH == Power(7)
    ensures HashRound(SEED)(1, 2) == 17
  {
    hide Xor, Power;
    var c := Chain(59925262542166477, 10417566545479850662, 16036908042826529442,
                   2491910153580944484, 59925262542166348, 59925262542166364);
    FirstBytes(c);
    Product(p, c.first, 564749273623508838542941834194751379918947, c.spread);
    Product(p, c.second, 135089556954211127265826716395488021219010, c.last);
    HashByChain(c, SEED, 1, 2, 7);
  }

  lemma SecondBytes(c: Chain)
    requires c == Chain(59925262542166093, 10417566545095849509, 14291597694894388951,
                        7151836924810119244, 958209931371120196, 958209931371120212)
    ensures c.start == Xor(SEED, 128 * 2) && c.first == Xor(Times(c.start), 2)
    ensures c.second == Xor(Times(c.spread), 9) && c.sized == Xor(c.last, 16)
    ensures Xor(c.sized, SEED) == 979774186077904665
  {
    hide Xor;
    var seed := Word(0x4d, 0xd9, 0xe5, 0x72, 0xb5, 0xe5, 0xd4, 0x00);
    XorIs(seed, SEED, Word(0x00, 0x01, 0x00, 0x00, 0x00, 0x00, 0x00, 0x00), 256, c.start);
    XorSmall(Word(0x27, 0x76, 0x6e, 0x00, 0x94, 0xa1, 0x92, 0x90), Times(c.start), 0x02, 2, c.first);
    XorSmall(Word(0x45, 0x48, 0xd4, 0x82, 0xca, 0x6d, 0x40, 0x63), Times(c.spread), 0x09, 9, c.second);
    XorSmall(Word(0x44, 0x86, 0xa0, 0x13, 0xdb, 0x3e, 0x4c, 0x0d), c.last, 0x10, 16, c.sized);
    XorIs(Word(0x54, 0x86, 0xa0, 0x13, 0xdb, 0x3e, 0x4c, 0x0d), c.sized, seed, SEED, 979774186077904665);
  }

  /** The hash of round 2 and right half 9. */
  lemma SecondValue(p: nat)
    requires p == SEVENTH == Power(7)
    ensures HashRound(SEED)(2, 9) == 979774186077904665
  {
    hide Xor, Power;
    var c := Chain(59925262542166093, 10417566545095849509, 14291597694894388951,
                   7151836924810119244, 958209931371120196, 958209931371120212);
    SecondBytes(c);
    Product(p, c.first, 564749273602691657171401985428268358624002, c.spread);
    Product(p, c.second, 387709998369322741019040301461918214499577, c.last);
    HashByChain(c, SEED, 2, 9, 7);
  }

  lemma ThirdBytes(c: Chain)
    requires c == Chain(59925262542166221, 10417566545223849892, 3789457727129449740,
                        9800672699068529196, 13082955361728930532, 13082955361728930548)
    ensures c.start == Xor(SEED, 128 * 3) && c.first == Xor(Times(c.start), 3)
    ensures c.second == Xor(Times(c.spread), 8) && c.sized == Xor(c.last, 16)
    ensures Xor(c.sized, SEED) == 13068068571064630201
  {
    hide Xor;
    var seed := Word(0x4d, 0xd9, 0xe5, 0x72, 0xb5, 0xe5, 0xd4, 0x00);
    XorIs(seed, SEED, Word(0x80, 0x01, 0x00, 0x00, 0x00, 0x00, 0x00, 0x00), 384, c.start);
    XorSmall(Word(0xa7, 0x97, 0x0f, 0x08, 0x94, 0xa1, 0x92, 0x90), Times(c.start), 0x03, 3, c.first);
    XorSmall(Word(0x24, 0x3a, 0xd9, 0xc3, 0xe4, 0xfb, 0x02, 0x88), Times(c.spread), 0x08, 8, c.second);
    XorSmall(Word(0xe4, 0x22, 0x25, 0xc4, 0x95, 0xfe, 0x8f, 0xb5), c.last, 0x10, 16, c.sized);
    XorIs(Word(0xf4, 0x22, 0x25, 0xc4, 0x95, 0xfe, 0x8f, 0xb5), c.sized, seed, SEED, 13068068571064630201);
  }

  /** The hash of round 3 and right half 8. */
  lemma ThirdValue(p: nat)
    requires p == SEVENTH == Power(7)
    ensures HashRound(SEED)(3, 8) == 13068068571064630201
  {
    hide Xor, Power;
    var c := Chain(59925262542166221, 10417566545223849892, 3789457727129449740,
                   9800672699068529196, 13082955361728930532, 13082955361728930548);
    ThirdBytes(c);
    Product(p, c.first, 564749273609630717556300272288026574737354, c.spread);
    Product(p, c.second, 531306688914052703635076783663544595344320, c.last);
    HashByChain(c, SEED, 3, 8, 7);
  }

  lemma FourthBytes(c: Chain)
    requires c == Chain(59925262542166861, 10417566545863851811, 2977232213241263425,
                        10438417476356174339, 5062798898671918305, 5062798898671918321)
    ensures c.start == Xor(SEED, 128 * 4) && c.first == Xor(Times(c.start), 4)
    ensures c.second == Xor(Times(c.spread), 0) && c.sized == Xor(c.last, 16)
    ensures Xor(c.sized, SEED) == 5086333588345046460
  {
    hide Xor;
    var seed := Word(0x4d, 0xd9, 0xe5, 0x72, 0xb5, 0xe5, 0xd4, 0x00);
    XorIs(seed, SEED, Word(0x00, 0x02, 0x00, 0x00, 0x00, 0x00, 0x00, 0x00), 512, c.start);
    XorSmall(Word(0x27, 0x3f, 0x35, 0x2e, 0x94, 0xa1, 0x92, 0x90), Times(c.start), 0x04, 4, c.first);
    XorSmall(Word(0x03, 0x72, 0x70, 0xbf, 0x63, 0xb5, 0xdc, 0x90), Times(c.spread), 0x00, 0, c.second);
    XorSmall(Word(0xe1, 0x1c, 0x94, 0x44, 0xc6, 0xac, 0x42, 0x46), c.last, 0x10, 16, c.sized);
    XorIs(Word(0xf1, 0x1c, 0x94, 0x44, 0xc6, 0xac, 0x42, 0x46), c.sized, seed, SEED, 5086333588345046460);
  }

  /** The hash of round 4 and right half 0. */
  lemma FourthValue(p: nat)
    requires p == SEVENTH == Power(7)
    ensures HashRound(SEED)(4, 0) == 5086333588345046460
  {
    hide Xor, Power;
    var c := Chain(59925262542166861, 10417566545863851811, 2977232213241263425,
                   10438417476356174339, 5062798898671918305, 5062798898671918321);
    FourthBytes(c);
    Product(p, c.first, 564749273644326019697636694774026028259002, c.spread);
    Product(p, c.second, 565879628588401015059724915953565070514518, c.last);
    HashByChain(c, SEED, 4, 0, 7);
  }

  // ----- the walks of index 22 ----------------------------------------------------------

  /** Values with which index 22 goes to 20, and 20 back to 28. */
  predicate Lossy(f: RoundFn) {
    f(1, 2) == 17 && f(2, 9) == 979774186077904665 && f(3, 8) == 13068068571064630201 && f(4, 0) == 5086333588345046460
  }

  lemma Forward(f: RoundFn)
    requires Lossy(f)
    ensures Encrypt(f, 4, 10, 13, 22) == 20
  {
    var h := Halves(2, 2);
    assert Rounds(f, 10, 13, h, 1) == Halves(2, 9);
    assert Rounds(f, 10, 13, h, 2) == Halves(9, 8);
    assert Rounds(f, 10, 13, h, 3) == Halves(8, 0);
    assert Rounds(f, 10, 13, h, 4) == Halves(0, 2);
  }

  lemma Backward(f: RoundFn)
    requires Lossy(f)
    ensures Decrypt(f, 4, 10, 13, 20) == 28
  {
    assert Unround(f, 10, 13, 4, Halves(0, 2)) == Halves(8, 0);
    assert Unround(f, 10, 13, 3, Halves(8, 0)) == Halves(9, 8);
    assert Unround(f, 10, 13, 2, Halves(9, 8)) == Halves(2, 9);
    assert Unround(f, 10, 13, 1, Halves(2, 9)) == Halves(8, 2);
    assert Unrounds(f, 10, 13, Halves(2, 9), 1) == Halves(8, 2);
    assert Unrounds(f, 10, 13, Halves(9, 8), 2) == Halves(8, 2);
    assert Unrounds(f, 10, 13, Halves(8, 0), 3) == Halves(8, 2);
  }

  lemma ShippedIsLossy()
    ensures Lossy(HashRound(SEED))
  {
    SeventhIs(Power(7));
    FirstValue(SEVENTH);
    SecondValue(SEVENTH);
    ThirdValue(SEVENTH);
    FourthValue(SEVENTH);
  }

  lemma SidesOf121()
    ensures FirstSide(121) == 10 && SecondSide(121) == 13
  {
    IsqrtUnique(121, 11);
  }

  lemma OneStep(p: nat -> nat, range: nat, m: nat)
    requires p(m) < range
    ensures Returns(p, range, m) && FirstReturn(p, range)(m) == p(m)
  {
    assert Iterate(p, 1, m) == p(m);
    assert ReturnsAt(p, range, m, 1);
    ReturnUnique(p, range, m, 1, ReturnTime(p, range, m));
  }

  /** With the shipped hash, this seed and a scan of 121 pairs: shuffle(22) == 20, but unshuffle(20) == 28. */
  lemma ShippedUnshuffleFails()
    ensures FirstSide(121) == 10 && SecondSide(121) == 13
    ensures var p, q := Walk(121, SEED), Decipher(HashRound(SEED), ROUNDS, 10, 13);
            && Returns(p, 121, 22) && FirstReturn(p, 121)(22) == 20
            && Returns(q, 121, 20) && FirstReturn(q, 121)(20) == 28
  {
    hide Encrypt, Decrypt, HashRound, Lossy, FirstReturn, Returns;
    SidesOf121();
    ShippedIsLossy();
    Forward(HashRound(SEED));
    Backward(HashRound(SEED));
    OneStep(Walk(121, SEED), 121, 22);
    OneStep(Decipher(HashRound(SEED), ROUNDS, 10, 13), 121, 20);
  }
}
