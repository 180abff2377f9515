/** Target specifications in prefix notation: the mask arithmetic and the list they build. */
module Cidr {
  import opened Words
  import opened Bits
  import opened Ranges
  import opened RangeOrder

  /** The 32 low bits of 0xffffffff00000000 shifted right. */
  function Mask(bits: nat): U32
    requires bits <= 32
  {
    Shr(0xffff_ffff_0000_0000, bits) % TWO32
  }

  /** The first and last address of a block. */
  function Block(addr: U32, bits: nat): (r: Range)
    requires bits <= 32
  {
    BlockBounds(addr, bits, Pow2(32 - bits));
    var start := And(addr, Mask(bits));
    Range(start, Or(start, TWO32 - 1 - Mask(bits)))
  }

  lemma {:induction false} PowSplit(i: nat, j: nat)
    ensures Pow2(i + j) == Pow2(i) * Pow2(j)
  {
    if i != 0 {
      PowSplit(i - 1, j);
    }
  }

  lemma MaskIs(bits: nat)
    requires bits <= 32
    ensures Mask(bits) == TWO32 - Pow2(32 - bits)
  {
    Pow2Of32();
    PowSplit(bits, 32 - bits);
    ShrIsDiv(0xffff_ffff_0000_0000, bits);
    MaskArithmetic(0xffff_ffff_0000_0000, Pow2(bits), Pow2(32 - bits));
  }

  lemma MaskArithmetic(x: nat, p: Pos, s: Pos)
    requires x == TWO32 * TWO32 - TWO32 && p * s == TWO32
    ensures (x / p) % TWO32 == TWO32 - s
  {
    var y := TWO32 * s - s;
    assert p * y == TWO32 * (p * s) - p * s;
    DivModUnique(p, y, 0);
    assert y == TWO32 * (s - 1) + (TWO32 - s);
    MulMono(s, 1, p);
    DivModUnique(TWO32, s - 1, TWO32 - s);
  }

  /** Masking with the bits from k up to n clears the low k bits. */
  lemma {:induction false} AndMask(x: nat, n: nat, k: nat)
    requires k <= n && x < Pow2(n)
    ensures Pow2(k) <= Pow2(n) && And(x, Pow2(n) - Pow2(k)) == x - x % Pow2(k)
    decreases n
  {
    if n != 0 {
      var y := Pow2(n) - Pow2(k);
      if k == 0 {
        AndMask(x / 2, n - 1, 0);
        assert y / 2 == Pow2(n - 1) - 1 && y % 2 == 1;
      } else {
        AndMask(x / 2, n - 1, k - 1);
        HalveLow(x, k - 1);
        assert y / 2 == Pow2(n - 1) - Pow2(k - 1) && y % 2 == 0;
      }
      AndUnfold(x, y);
    }
  }

  lemma {:induction false} AndUnfold(x: nat, y: nat)
    ensures And(x, y) == 2 * And(x / 2, y / 2) + (x % 2) * (y % 2)
  {
  }

  /** Setting the low k bits of a number that has none of them set. */
  lemma {:induction false} OrLow(x: nat, k: nat)
    requires x % Pow2(k) == 0
    ensures Or(x, Pow2(k) - 1) == x + Pow2(k) - 1
  {
    if k == 0 {
      OrZero(x);
    } else {
      HalveLow(x, k - 1);
      OrLow(x / 2, k - 1);
      var y := Pow2(k) - 1;
      assert y / 2 == Pow2(k - 1) - 1 && y % 2 == 1;
    }
  }

  lemma {:induction false} OrZero(x: nat)
    ensures Or(x, 0) == x
  {
    if x != 0 {
      OrZero(x / 2);
    }
  }

  /** The mask arithmetic gives the aligned block of 2^(32-bits) addresses around the address. */
  lemma BlockBounds(addr: U32, bits: nat, size: Pos)
    requires bits <= 32 && size == Pow2(32 - bits)
    ensures And(addr, Mask(bits)) == addr - addr % size
    ensures Or(addr - addr % size, TWO32 - 1 - Mask(bits)) == addr - addr % size + size - 1
    ensures 0 <= addr - addr % size && addr - addr % size + size <= TWO32
  {
    hide And, Or, Mask;
    Pow2Of32();
    MaskIs(bits);
    AndMask(addr, 32, 32 - bits);
    AlignedStart(addr, size);
    OrLow(addr - addr % size, 32 - bits);
    PowSplit(32 - bits, bits);
    LastBlockFits(addr, size, Pow2(bits));
  }

  lemma BlockIs(addr: U32, bits: nat, size: Pos)
    requires bits <= 32 && size == Pow2(32 - bits)
    ensures Block(addr, bits).start == addr - addr % size
    ensures Block(addr, bits).end == addr - addr % size + size - 1
  {
    BlockBounds(addr, bits, size);
  }

  lemma AlignedStart(addr: U32, size: Pos)
    ensures 0 <= addr - addr % size && (addr - addr % size) % size == 0
  {
    var q := addr / size;
    assert addr == size * q + addr % size;
    DivModUnique(size, q, 0);
  }

  lemma LastBlockFits(addr: U32, size: Pos, count: Pos)
    requires size * count == TWO32
    ensures addr - addr % size + size <= TWO32
  {
    SplitBound(size, count, addr);
    MulMono(size, addr / size, count - 1);
    assert size * (count - 1) == size * count - size;
  }

  predicate Inside(r: Range, s: Range) {
    s.start <= r.start && r.end <= s.end
  }

  predicate StrictlyInside(r: Range, s: Range) {
    Inside(r, s) && r != s
  }

  /** An aligned block of size s lies inside the aligned block of size s*d around a, or apart from it. */
  lemma AlignedNested(a: U32, b: U32, s: Pos, d: Pos, big: Pos)
    requires big == s * d
    ensures var x, y := a - a % big, b - b % s;
            y + s <= x || x + big <= y || (x <= y && y + s <= x + big)
  {
    var p, q := a / big, b / s;
    assert big * p == s * (d * p);
    BlockOrder(s, d, q - d * p);
    assert s * (q - d * p) == s * q - s * (d * p);
  }

  lemma BlockOrder(s: Pos, d: Pos, k: int)
    ensures k <= -1 ==> s * k + s <= 0
    ensures k >= d ==> s * d <= s * k
    ensures 0 <= k < d ==> 0 <= s * k && s * k + s <= s * d
  {
    MultipleFar(s, k);
    MulMono(s, d, k);
    MulMono(s, k + 1, d);
  }

  lemma CoarserBlock(a1: U32, b1: nat, a2: U32, b2: nat)
    requires b1 <= b2 <= 32
    ensures Inside(Block(a2, b2), Block(a1, b1)) || Apart(Block(a2, b2), Block(a1, b1))
  {
    var s, big := Pow2(32 - b2), Pow2(32 - b1);
    BlockIs(a1, b1, big);
    BlockIs(a2, b2, s);
    PowSplit(32 - b2, b2 - b1);
    AlignedNested(a1, a2, s, Pow2(b2 - b1), big);
    NestedRanges(Block(a2, b2), Block(a1, b1), a2 - a2 % s, s, a1 - a1 % big, big);
  }

  lemma NestedRanges(r: Range, t: Range, y: int, s: int, x: int, big: int)
    requires r.start == y && r.end == y + s - 1 && t.start == x && t.end == x + big - 1
    requires y + s <= x || x + big <= y || (x <= y && y + s <= x + big)
    ensures Inside(r, t) || Apart(r, t)
  {
  }

  /** Any two blocks are nested or disjoint. */
  lemma BlocksNestedOrApart(a1: U32, b1: nat, a2: U32, b2: nat)
    requires b1 <= 32 && b2 <= 32
    ensures var r, s := Block(a1, b1), Block(a2, b2);
            Inside(r, s) || Inside(s, r) || Apart(r, s)
  {
    if b1 <= b2 {
      CoarserBlock(a1, b1, a2, b2);
    } else {
      CoarserBlock(a2, b2, a1, b1);
    }
  }

  datatype Spec = Spec(addr: U32, bits: nat)

  predicate ValidSpec(s: Spec) {
    s.bits <= 32
  }

  predicate ValidSpecs(specs: seq<Spec>) {
    forall i :: 0 <= i < |specs| ==> ValidSpec(specs[i])
  }

  function Blocks(specs: seq<Spec>): (rs: seq<Range>)
    requires ValidSpecs(specs)
    ensures |rs| == |specs|
    ensures forall i :: 0 <= i < |specs| ==> rs[i] == Block(specs[i].addr, specs[i].bits)
  {
    if specs == [] then []
    else var n := |specs| - 1; Blocks(specs[..n]) + [Block(specs[n].addr, specs[n].bits)]
  }

  /** range_parse_targets, after each specification has been resolved to an address and a prefix. */
  method ParseTargets(specs: seq<Spec>) returns (list: RangeList)
    requires ValidSpecs(specs)
    ensures fresh(list) && list.ranges == AddedAll(Blocks(specs))
  {
    list := new RangeList();
    var i := 0;
    while i < |specs|
      invariant 0 <= i <= |specs| && fresh(list)
      invariant list.ranges == AddedAll(Blocks(specs)[..i])
    {
      AddedAllStep(Blocks(specs), i);
      BlockBounds(specs[i].addr, specs[i].bits, Pow2(32 - specs[i].bits));
      var start: U32 := And(specs[i].addr, Mask(specs[i].bits));
      var end: U32 := Or(start, TWO32 - 1 - Mask(specs[i].bits));
      list.Add(start, end);
      i := i + 1;
    }
    assert Blocks(specs)[..i] == Blocks(specs);
  }

  /** No block is listed after a block that lies strictly inside it. */
  predicate WideFirst(rs: seq<Range>) {
    forall i, j :: 0 <= i < j < |rs| ==> !StrictlyInside(rs[i], rs[j])
  }

  predicate NestedOrApart(rs: seq<Range>) {
    forall i, j :: 0 <= i < |rs| && 0 <= j < |rs| ==>
      Inside(rs[i], rs[j]) || Inside(rs[j], rs[i]) || Apart(rs[i], rs[j])
  }

  /** Adding a block that is inside or apart from every range of the list. */
  lemma AddBlock(list: seq<Range>, r: Range, x: int)
    requires AllProper(list) && Disjoint(list) && Proper(r)
    requires forall i :: 0 <= i < |list| ==> Inside(r, list[i]) || Apart(list[i], r)
    ensures var out := Added(list, r.start, r.end);
            && AllProper(out) && Disjoint(out)
            && (forall s :: s in out ==> s in list || s == r)
            && (Covers(out, x) <==> Covers(list, x) || Within(r, x))
  {
    AddedCovers(list, r.start, r.end, x);
    if FirstMatch(list, r.start, r.end) < |list| {
      InsideIsKept(list, r);
    } else {
      InsertKeepsDisjoint(list, r.start, r.end);
      AddedProper(list, r.start, r.end);
    }
  }

  /** A range that matches is inside the range it matches, so nothing changes. */
  lemma InsideIsKept(list: seq<Range>, r: Range)
    requires AllProper(list) && Proper(r) && FirstMatch(list, r.start, r.end) < |list|
    requires forall i :: 0 <= i < |list| ==> Inside(r, list[i]) || Apart(list[i], r)
    ensures Added(list, r.start, r.end) == list && KeptEnd(list, r.start, r.end) == r.end
  {
    var k := FirstMatch(list, r.start, r.end);
    assert Contains(list[k], r.start, r.end);
  }

  lemma {:induction false} BlocksList(rs: seq<Range>, x: int)
    requires AllProper(rs) && NestedOrApart(rs) && WideFirst(rs)
    ensures var list := AddedAll(rs);
            && AllProper(list) && Disjoint(list)
            && (forall s :: s in list ==> s in rs)
            && (Covers(list, x) <==> Covers(rs, x))
  {
    if rs != [] {
      var n := |rs| - 1;
      var init, last := rs[..n], rs[n];
      BlocksList(init, x);
      var list := AddedAll(init);
      forall i | 0 <= i < |list| ensures Inside(last, list[i]) || Apart(list[i], last) {
        assert list[i] in init;
        var j :| 0 <= j < n && rs[j] == list[i];
        assert !StrictlyInside(rs[j], rs[n]);
      }
      AddBlock(list, last, x);
      CoversLast(rs, x);
    }
  }

  lemma BlocksProper(specs: seq<Spec>)
    requires ValidSpecs(specs)
    ensures AllProper(Blocks(specs)) && NestedOrApart(Blocks(specs))
  {
    var rs := Blocks(specs);
    forall i | 0 <= i < |rs| ensures Proper(rs[i]) {
      BlockIs(specs[i].addr, specs[i].bits, Pow2(32 - specs[i].bits));
    }
    forall i, j | 0 <= i < |rs| && 0 <= j < |rs|
      ensures Inside(rs[i], rs[j]) || Inside(rs[j], rs[i]) || Apart(rs[i], rs[j])
    {
      BlocksNestedOrApart(specs[i].addr, specs[i].bits, specs[j].addr, specs[j].bits);
    }
  }

  /** The parsed target list is sorted, disjoint and stands for exactly the union of the blocks. */
  lemma TargetsExact(specs: seq<Spec>, x: int)
    requires ValidSpecs(specs) && WideFirst(Blocks(specs))
    ensures var list := AddedAll(Blocks(specs));
            && AllProper(list) && Disjoint(list)
            && (forall r :: r in list ==> r in Blocks(specs))
            && (Covers(list, x) <==> Covers(Blocks(specs), x))
  {
    BlocksProper(specs);
    BlocksList(Blocks(specs), x);
  }

  lemma WideFirstOrderly(specs: seq<Spec>)
    requires ValidSpecs(specs) && WideFirst(Blocks(specs))
    ensures Orderly(Blocks(specs))
  {
    hide Orderly;
    BlocksProper(specs);
    var rs := Blocks(specs);
    forall k | 0 <= k <= |rs| ensures Exact(AddedAll(rs[..k]), rs[..k]) {
      BlocksList(rs[..k], 0);
      forall x ensures Covers(AddedAll(rs[..k]), x) <==> Covers(rs[..k], x) {
        BlocksList(rs[..k], x);
      }
    }
    AddsExactIff(rs);
  }

  /** A narrow block followed by the block around it: the addresses above the narrow one are lost. */
  lemma WideLastLoses(r: Range, s: Range, x: int)
    requires Proper(r) && s.start < r.start && r.end < s.end
    ensures Covers(AddedAll([r, s]), x) <==> s.start <= x <= r.end
  {
    assert [r, s][..1] == [r] && [r][..0] == [];
    assert AddedAll([r]) == [r];
    var list := AddedAll([r, s]);
    assert list == [Range(s.start, r.end)];
    if s.start <= x <= r.end {
      assert Within(list[0], x);
    }
  }
}
