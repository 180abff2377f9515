/** Machine words as the C code uses them, and the division facts the models share. */
module Words {
  const TWO8: int := 0x100
  const TWO16: int := 0x1_0000
  const TWO32: int := 0x1_0000_0000
  const TWO64: int := 0x1_0000_0000_0000_0000

  type Byte = x: int | 0 <= x < TWO8
  type U4 = x: int | 0 <= x < 16
  type U16 = x: int | 0 <= x < TWO16
  type U32 = x: int | 0 <= x < TWO32
  type U64 = x: int | 0 <= x < TWO64
  type Pos = x: int | 1 <= x witness 1

  /** The n low bytes of x, least significant first, as a little-endian host keeps them. */
  function LeBytes(x: nat, n: nat): (s: seq<Byte>)
    ensures |s| == n
  {
    if n == 0 then [] else [x % TWO8] + LeBytes(x / TWO8, n - 1)
  }

  /** A non-zero multiple of m is at least m away from zero. */
  lemma MultipleFar(m: Pos, k: int)
    ensures k >= 1 ==> m * k >= m
    ensures k <= -1 ==> m * k <= 0 - m
  {
  }

  lemma MulMono(a: nat, x: int, y: int)
    ensures x <= y ==> a * x <= a * y
  {
    if x <= y {
      assert a * (y - x) >= 0;
    }
  }

  /** A number has one quotient and one remainder, negative quotients included. */
  lemma DivModUnique(m: Pos, q: int, r: nat)
    requires r < m
    ensures (m * q + r) / m == q && (m * q + r) % m == r
  {
    var y := m * q + r;
    QuotientUnique(m, y, q, r, y / m, y % m);
  }

  lemma QuotientUnique(m: Pos, y: int, q: int, r: nat, q': int, r': nat)
    requires y == m * q + r && r < m
    requires y == m * q' + r' && r' < m
    ensures q == q' && r == r'
  {
    assert m * (q - q') == r' - r;
    MultipleFar(m, q - q');
  }

  /** Splitting an index below a*b gives a remainder below a and a quotient below b. */
  lemma SplitBound(a: Pos, b: Pos, m: nat)
    requires m < a * b
    ensures m % a < a && 0 <= m / a < b && m == a * (m / a) + m % a
  {
    MulMono(a, b, m / a);
  }

  /** Joining a remainder below a and a quotient below b gives an index below a*b. */
  lemma JoinBound(a: Pos, b: Pos, q: nat, r: nat)
    requires q < b && r < a
    ensures 0 <= a * q + r < a * b
  {
    MulMono(a, q, b - 1);
  }

  /** Adding a multiple of m does not change the remainder. */
  lemma ModShift(m: Pos, x: int, k: int)
    ensures (x + m * k) % m == x % m
  {
    var q := x / m;
    var r := x % m;
    assert x + m * k == m * (q + k) + r;
    DivModUnique(m, q + k, r);
  }

  /** Two numbers less than m apart with the same remainder are equal. */
  lemma ModClose(m: Pos, x: int, y: int)
    requires x % m == y % m && x - y < m && y - x < m
    ensures x == y
  {
    assert x - y == m * (x / m - y / m);
    MultipleFar(m, x / m - y / m);
  }
}
