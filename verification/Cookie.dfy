/** The connection cookie: a hash of addresses and ports under the seed. */
module Cookie {
  import opened Words
  import opened Headers
  import opened Hash

  /** A connection, from the side that sends the probe. */
  datatype Tuple = Tuple(saddr: Addr, daddr: Addr, sport: U16, dport: U16)

  /** The sixteen bytes that are hashed: four 32-bit words, the ports widened. */
  function Buffer(t: Tuple): (s: seq<Byte>)
    ensures |s| == 16
  {
    t.daddr + LeBytes(t.dport, 4) + t.saddr + LeBytes(t.sport, 4)
  }

  function Cookie(t: Tuple, seed: U64): U64 {
    Digest(seed, seed, Buffer(t))
  }

  /** cookie16 and cookie32 truncate the cookie. */
  function Cookie16(t: Tuple, seed: U64): U16 {
    Cookie(t, seed) % TWO16
  }

  function Cookie32(t: Tuple, seed: U64): U32 {
    Cookie(t, seed) % TWO32
  }

  /** pkt_cookie. */
  method PktCookie(saddr: Addr, daddr: Addr, sport: U16, dport: U16, seed: U64) returns (c: U64)
    ensures c == Cookie(Tuple(saddr, daddr, sport, dport), seed)
  {
    var buf := daddr + LeBytes(dport, 4) + saddr + LeBytes(sport, 4);
    c := Pyrhash(seed, seed, buf);
  }

  /** Two connections that differ in exactly one byte of the hashed buffer. */
  ghost predicate OneByteApart(t: Tuple, u: Tuple) {
    exists i: nat :: DifferAt(Buffer(t), Buffer(u), i)
  }

  /** They have different cookies under every seed, already in the low sixteen bits. */
  lemma CookieSeparates(t: Tuple, u: Tuple, seed: U64)
    requires OneByteApart(t, u)
    ensures Cookie16(t, seed) != Cookie16(u, seed)
    ensures Cookie32(t, seed) != Cookie32(u, seed)
    ensures Cookie(t, seed) != Cookie(u, seed)
  {
    var i: nat :| DifferAt(Buffer(t), Buffer(u), i);
    DigestSeparates(seed, seed, Buffer(t), Buffer(u), i);
    LowHalf(Cookie(t, seed));
    LowHalf(Cookie(u, seed));
  }

  lemma LowHalf(x: U64)
    ensures (x % TWO32) % TWO16 == x % TWO16
  {
    ModOfMod(x, TWO16, TWO16);
  }

  lemma PortBytes(p: U16)
    ensures LeBytes(p, 4) == [p % TWO8, p / TWO8, 0, 0]
  {
    assert LeBytes(p, 4) == [p % TWO8] + LeBytes(p / TWO8, 3);
    assert LeBytes(p / TWO8, 3) == [(p / TWO8) % TWO8] + LeBytes(p / TWO8 / TWO8, 2);
    assert LeBytes(0, 2) == [0] + LeBytes(0, 1);
  }

  /** The hashed bytes: the addresses as they are in memory, the ports little-endian in words of their own. */
  lemma BufferIs(t: Tuple)
    ensures Buffer(t) == [t.daddr[0], t.daddr[1], t.daddr[2], t.daddr[3], t.dport % 256, t.dport / 256, 0, 0,
                          t.saddr[0], t.saddr[1], t.saddr[2], t.saddr[3], t.sport % 256, t.sport / 256, 0, 0]
  {
    PortBytes(t.dport);
    PortBytes(t.sport);
  }

  /** Two probes from the same source to destination ports that differ in one byte are never confused. */
  lemma NeighbouringPorts(t: Tuple, dport: U16)
    requires dport != t.dport && (dport / TWO8 == t.dport / TWO8 || dport % TWO8 == t.dport % TWO8)
    ensures OneByteApart(t, t.(dport := dport))
  {
    var u := t.(dport := dport);
    PortBytes(t.dport);
    PortBytes(dport);
    var i := if dport % TWO8 != t.dport % TWO8 then 4 else 5;
    var x, y := Buffer(t), Buffer(u);
    assert forall k :: 0 <= k < 16 && k != i ==> x[k] == y[k];
    assert DifferAt(x, y, i);
  }
}
