/**
The one acknowledgement number that recv cannot match: there is a seed under which the probe from
64.0.0.2 to port 64 of 8.8.4.4 carries the sequence number 2^32 - 1.
*/
module SynLimits {
  import opened Words
  import opened Bits
  import opened WordBytes
  import opened Hash
  import opened HashTrace
  import opened Headers
  import opened Cookie
  import opened Syn

  const LOCAL: Addr := [64, 0, 0, 2]
  const TARGET: Addr := [8, 8, 4, 4]
  const PORT: U16 := 64

  const SEED: U64 := 297006

  lemma MessageIs(m: seq<Byte>)
    requires m == [8, 8, 4, 4, 64, 0, 0, 0, 64, 0, 0, 2, 178, 251, 0, 0]
    ensures Buffer(ProbeTuple(LOCAL, TARGET, PORT)) == m
  {
    PortBytes(PORT);
    PortBytes(LOCAL_PORT);
  }

  lemma Steps0()
    ensures Xor(Times(298030), 8) == 298030894082
    ensures Xor(Times(298030894082), 8) == 298031788174682254
    ensures Xor(Times(298031788174682254), 4) == 7085015195262138670
    ensures Xor(Times(7085015195262138670), 4) == 10986477359871742734
  {
    hide Xor;
    XorSmall(Word(0x0a, 0x8c, 0x06, 0x64, 0x45, 0x00, 0x00, 0x00), Times(298030), 0x08, 8, 298030894082);
    XorSmall(Word(0x86, 0x28, 0xed, 0x11, 0x55, 0xd2, 0x22, 0x04), Times(298030894082),
             0x08, 8, 298031788174682254);
    XorSmall(Word(0x2a, 0x39, 0xd8, 0x35, 0xc8, 0x07, 0x53, 0x62), Times(298031788174682254),
             0x04, 4, 7085015195262138670);
    XorSmall(Word(0x0a, 0xd3, 0x06, 0x30, 0xf3, 0xce, 0x77, 0x98), Times(7085015195262138670),
             0x04, 4, 10986477359871742734);
  }

  lemma Steps1()
    ensures Xor(Times(10986477359871742734), 64) == 16930627961307322602
    ensures Xor(Times(16930627961307322602), 0) == 17234667621826631998
    ensures Xor(Times(17234667621826631998), 0) == 124738958241273658
    ensures Xor(Times(124738958241273658), 0) == 2449031724393793582
  {
    hide Xor;
    XorSmall(Word(0xaa, 0xd8, 0x04, 0xb2, 0x6d, 0xac, 0xf5, 0xea), Times(10986477359871742734),
             0x40, 64, 16930627961307322602);
    XorSmall(Word(0x3e, 0x19, 0xe7, 0x8c, 0xe3, 0xd6, 0x2d, 0xef), Times(16930627961307322602),
             0x00, 0, 17234667621826631998);
    XorSmall(Word(0x3a, 0x97, 0x9f, 0xef, 0x6b, 0x29, 0xbb, 0x01), Times(17234667621826631998),
             0x00, 0, 124738958241273658);
    XorSmall(Word(0x2e, 0x88, 0x27, 0xb8, 0x60, 0xb5, 0xfc, 0x21), Times(124738958241273658),
             0x00, 0, 2449031724393793582);
  }

  lemma Steps2()
    ensures Xor(Times(2449031724393793582), 64) == 12434775139271737418
    ensures Xor(Times(12434775139271737418), 0) == 9837462136165279582
    ensures Xor(Times(9837462136165279582), 0) == 9054739047586990490
    ensures Xor(Times(9054739047586990490), 2) == 15862527136454293324
  {
    hide Xor;
    XorSmall(Word(0x0a, 0x80, 0x26, 0x5e, 0x1b, 0x32, 0x91, 0xac), Times(2449031724393793582),
             0x40, 64, 12434775139271737418);
    XorSmall(Word(0x5e, 0xa7, 0x7c, 0x15, 0xb1, 0xaf, 0x85, 0x88), Times(12434775139271737418),
             0x00, 0, 9837462136165279582);
    XorSmall(Word(0x9a, 0x09, 0x48, 0x91, 0x30, 0xe5, 0xa8, 0x7d), Times(9837462136165279582),
             0x00, 0, 9054739047586990490);
    XorSmall(Word(0x4e, 0x37, 0x5a, 0x28, 0x63, 0x04, 0x23, 0xdc), Times(9054739047586990490),
             0x02, 2, 15862527136454293324);
  }

  lemma Steps3()
    ensures Xor(Times(15862527136454293324), 178) == 16580868048447213654
    ensures Xor(Times(16580868048447213654), 251) == 6540165307396944505
    ensures Xor(Times(6540165307396944505), 0) == 2497023587427690411
    ensures Xor(Times(2497023587427690411), 0) == 6013704832949123009
  {
    hide Xor;
    XorSmall(Word(0xe4, 0x10, 0x52, 0x0f, 0xa4, 0x13, 0x1b, 0xe6), Times(15862527136454293324),
             0xb2, 178, 16580868048447213654);
    XorSmall(Word(0x82, 0x72, 0xba, 0x1f, 0xb2, 0x55, 0xc3, 0x5a), Times(16580868048447213654),
             0xfb, 251, 6540165307396944505);
    XorSmall(Word(0xab, 0x27, 0x66, 0x14, 0xb9, 0x35, 0xa7, 0x22), Times(6540165307396944505),
             0x00, 0, 2497023587427690411);
    XorSmall(Word(0xc1, 0x77, 0xfb, 0xff, 0xae, 0xf8, 0x74, 0x53), Times(2497023587427690411),
             0x00, 0, 6013704832949123009);
  }

  lemma States(m: seq<Byte>) returns (s: seq<U64>)
    requires m == [8, 8, 4, 4, 64, 0, 0, 0, 64, 0, 0, 2, 178, 251, 0, 0]
    ensures Trace(s, m) && s[0] == 298030 && s[16] == 6013704832949123009
  {
    hide Xor, Times;
    Steps0();
    Steps1();
    Steps2();
    Steps3();
    s := [298030, 298030894082, 298031788174682254, 7085015195262138670,
          10986477359871742734, 16930627961307322602, 17234667621826631998, 124738958241273658,
          2449031724393793582, 12434775139271737418, 9837462136165279582, 9054739047586990490,
          15862527136454293324, 16580868048447213654, 6540165307396944505, 2497023587427690411,
          6013704832949123009];
  }

  lemma Ends()
    ensures Xor(SEED, 1024) == 298030 && Xor(6013704832949123009, 16) == 6013704832949123025
    ensures Xor(6013704832949123025, SEED) == 6013704832949420031
  {
    hide Xor;
    var seed := Word(0x2e, 0x88, 0x04, 0x00, 0x00, 0x00, 0x00, 0x00);
    XorIs(seed, SEED, Word(0x00, 0x04, 0x00, 0x00, 0x00, 0x00, 0x00, 0x00), 1024, 298030);
    XorSmall(Word(0xc1, 0x77, 0xfb, 0xff, 0xae, 0xf8, 0x74, 0x53), 6013704832949123009, 0x10, 16, 6013704832949123025);
    XorIs(Word(0xd1, 0x77, 0xfb, 0xff, 0xae, 0xf8, 0x74, 0x53), 6013704832949123025, seed, SEED, 6013704832949420031);
  }

  lemma DigestIs(m: seq<Byte>)
    requires m == [8, 8, 4, 4, 64, 0, 0, 0, 64, 0, 0, 2, 178, 251, 0, 0]
    ensures Digest(SEED, SEED, m) == 6013704832949420031
  {
    hide Xor, Digest, Trace;
    var s := States(m);
    Ends();
    TraceSize(s, m);
    DigestByTrace(SEED, s, m);
  }

  lemma TraceSize(s: seq<U64>, m: seq<Byte>)
    requires Trace(s, m)
    ensures |s| == |m| + 1
  {
  }

  /** With this seed a reply that acknowledges exactly what was sent is never recognised. */
  lemma UnmatchedProbe()
    ensures ProbeNumber(LOCAL, TARGET, PORT, SEED) == TWO32 - 1
    ensures forall ip, tcp :: Answers(ip, tcp, LOCAL, TARGET, PORT, SEED) ==> !Acknowledges(ip, tcp, SEED)
  {
    hide Buffer, Digest, Acknowledges;
    var m: seq<Byte> := [8, 8, 4, 4, 64, 0, 0, 0, 64, 0, 0, 2, 178, 251, 0, 0];
    MessageIs(m);
    DigestIs(m);
    forall ip, tcp | Answers(ip, tcp, LOCAL, TARGET, PORT, SEED) ensures !Acknowledges(ip, tcp, SEED) {
      AnswerRecognisedIff(ip, tcp, LOCAL, TARGET, PORT, SEED);
    }
  }
}
