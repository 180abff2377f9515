/** Counting a list of ranges and picking its k-th element. */
module RangePick {
  import opened Words
  import opened Ranges

  /** The number of elements as the code computes it, in 32 bits. */
  function Length32(r: Range): U32 {
    ((r.end - r.start) % TWO32 + 1) % TWO32
  }

  /** The elements of a range, in order. */
  function Elements(r: Range): (s: seq<int>)
    requires Proper(r)
    ensures |s| == r.end - r.start + 1
    ensures forall i :: 0 <= i < |s| ==> s[i] == r.start + i
  {
    seq(r.end - r.start + 1, i => r.start + i)
  }

  /** The elements of a list, range by range. */
  function Flatten(list: seq<Range>): seq<int>
    requires AllProper(list)
  {
    if list == [] then [] else Elements(list[0]) + Flatten(list[1..])
  }

  /** No range spans all 2^32 values, so that no length wraps to zero. */
  predicate NoneFull(list: seq<Range>) {
    forall i :: 0 <= i < |list| ==> list[i].end - list[i].start + 1 < TWO32
  }

  function Count(list: seq<Range>): nat {
    if list == [] then 0 else Length32(list[0]) + Count(list[1..])
  }

  /** range_list_count, for lists that fit a 64-bit counter. */
  method CountList(list: seq<Range>) returns (count: U64)
    requires Count(list) < TWO64
    ensures count == Count(list)
  {
    count := 0;
    var i := 0;
    while i < |list|
      invariant 0 <= i <= |list|
      invariant count + Count(list[i..]) == Count(list)
    {
      count := count + Length32(list[i]);
      i := i + 1;
    }
  }

  function Picked(list: seq<Range>, index: nat): nat
    decreases |list|
  {
    if list == [] then 0
    else if index < Length32(list[0]) then (list[0].start + index) % TWO32
    else Picked(list[1..], index - Length32(list[0]))
  }

  /** range_list_pick. */
  method Pick(list: seq<Range>, index: U32) returns (x: U32)
    ensures x == Picked(list, index)
  {
    var rest := index;
    var i := 0;
    while i < |list|
      invariant 0 <= i <= |list| && 0 <= rest < TWO32
      invariant Picked(list[i..], rest) == Picked(list, index)
    {
      var cnt := Length32(list[i]);
      if rest < cnt {
        return (list[i].start + rest) % TWO32;
      }
      rest := rest - cnt;
      i := i + 1;
    }
    return 0;
  }

  predicate Full(r: Range) {
    r.start == 0 && r.end == TWO32 - 1
  }

  /** How many ranges of the list span everything. */
  function FullRanges(list: seq<Range>): nat {
    if list == [] then 0 else (if Full(list[0]) then 1 else 0) + FullRanges(list[1..])
  }

  lemma LengthOf(r: Range)
    requires Proper(r)
    ensures Length32(r) == if Full(r) then 0 else |Elements(r)|
  {
  }

  /** The count falls short of the number of elements by 2^32 for every full range. */
  lemma {:induction false} CountShort(list: seq<Range>)
    requires AllProper(list)
    ensures Count(list) + TWO32 * FullRanges(list) == |Flatten(list)|
  {
    if list != [] {
      LengthOf(list[0]);
      CountShort(list[1..]);
    }
  }

  lemma {:induction false} FullRangesNone(list: seq<Range>)
    requires AllProper(list)
    ensures FullRanges(list) == 0 <==> NoneFull(list)
  {
    if list != [] {
      FullRangesNone(list[1..]);
      if FullRanges(list) == 0 {
        forall i | 0 <= i < |list| ensures list[i].end - list[i].start + 1 < TWO32 {
          assert i == 0 || list[i] == list[1..][i - 1];
        }
      }
      if NoneFull(list) {
        assert list[0].end - list[0].start + 1 < TWO32;
      }
    }
  }

  /** The count is right if and only if no range spans all 2^32 values. */
  lemma CountIff(list: seq<Range>)
    requires AllProper(list)
    ensures Count(list) == |Flatten(list)| <==> NoneFull(list)
  {
    CountShort(list);
    FullRangesNone(list);
  }

  /**
  A range that starts where another one ends is neither merged with it nor skipped: both are kept,
  and the address they share is counted twice and picked twice.
  */
  lemma TouchingCountedTwice(r: Range, end: U32)
    requires Proper(r) && r.end < end && end - r.end + 1 < TWO32
    ensures var list := Added([r], r.end, end);
            && list == [r, Range(r.end, end)]
            && Count(list) == (r.end - r.start + 1) + (end - r.end + 1)
            && Picked(list, r.end - r.start) == r.end == Picked(list, r.end - r.start + 1)
  {
    hide Length32, Picked, Count;
    var s := Range(r.end, end);
    assert FirstMatch([r], r.end, end) == 1 && InsertAt([r], end) == 1;
    assert Added([r], r.end, end) == [r, s];
    TwoRanges(r, s);
  }

  lemma TwoRanges(r: Range, s: Range)
    requires Proper(r) && Proper(s) && !Full(r) && !Full(s)
    ensures Count([r, s]) == (r.end - r.start + 1) + (s.end - s.start + 1)
    ensures Picked([r, s], r.end - r.start) == r.end && Picked([r, s], r.end - r.start + 1) == s.start
  {
    hide Length32;
    LengthOf(r);
    LengthOf(s);
    assert [r, s][1..] == [s] && [s][1..] == [];
    assert Count([s]) == Length32(s) + Count([]);
    assert Picked([s], 0) == s.start;
  }

  /** At the lower end it is different: a range that ends where another one starts is merged with it. */
  lemma TouchingBelowMerged(r: Range, start: U32)
    requires Proper(r) && start < r.start
    ensures Added([r], start, r.start) == [Range(start, r.end)]
  {
    assert FirstMatch([r], start, r.start) == 0;
  }

  /** Picking index k gives the k-th element of the flattened list. */
  lemma {:induction false} PickedIsElement(list: seq<Range>, index: nat)
    requires AllProper(list) && NoneFull(list) && index < |Flatten(list)|
    ensures Picked(list, index) == Flatten(list)[index]
    decreases |list|
  {
    LengthOf(list[0]);
    assert list[0].end - list[0].start + 1 < TWO32;
    if index >= Length32(list[0]) {
      PickedIsElement(list[1..], index - Length32(list[0]));
    }
  }

  /** The flattened list holds exactly the covered values. */
  lemma {:induction false} FlattenCovers(list: seq<Range>, x: int)
    requires AllProper(list)
    ensures x in Flatten(list) <==> Covers(list, x)
  {
    if list != [] {
      var rest := list[1..];
      FlattenCovers(rest, x);
      if Within(list[0], x) {
        assert Elements(list[0])[x - list[0].start] == x;
      }
      if Covers(rest, x) {
        var i :| 0 <= i < |rest| && Within(rest[i], x);
        assert Within(list[i + 1], x);
      }
      if Covers(list, x) {
        var i :| 0 <= i < |list| && Within(list[i], x);
        assert i == 0 || Within(rest[i - 1], x);
      }
    }
  }

  predicate Increasing(s: seq<int>) {
    forall i, j :: 0 <= i < j < |s| ==> s[i] < s[j]
  }

  /** Flattening a sorted disjoint list gives a strictly increasing sequence. */
  lemma {:induction false} FlattenIncreasing(list: seq<Range>)
    requires AllProper(list) && Disjoint(list)
    ensures Increasing(Flatten(list))
  {
    if list != [] {
      var rest := list[1..];
      FlattenIncreasing(rest);
      forall j | 0 <= j < |Flatten(rest)| ensures list[0].end < Flatten(rest)[j] {
        FlattenCovers(rest, Flatten(rest)[j]);
        var i :| 0 <= i < |rest| && Within(rest[i], Flatten(rest)[j]);
        assert list[0].end < list[i + 1].start;
      }
    }
  }

  /** A strictly increasing sequence of 32-bit values has at most 2^32 of them. */
  lemma {:induction false} IncreasingBound(s: seq<int>, hi: int)
    requires Increasing(s) && forall i :: 0 <= i < |s| ==> 0 <= s[i] < hi
    requires hi >= 0
    ensures |s| <= hi
  {
    if s != [] {
      var n := |s| - 1;
      assert forall i :: 0 <= i < n ==> s[i] < s[n];
      IncreasingBound(s[..n], s[n]);
    }
  }

  lemma DisjointCountBound(list: seq<Range>)
    requires AllProper(list) && Disjoint(list)
    ensures |Flatten(list)| <= TWO32
  {
    FlattenIncreasing(list);
    var s := Flatten(list);
    forall i | 0 <= i < |s| ensures 0 <= s[i] < TWO32 {
      FlattenCovers(list, s[i]);
    }
    IncreasingBound(s, TWO32);
  }
}
