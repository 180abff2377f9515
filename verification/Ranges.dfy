/** Lists of address or port ranges, and what adding a range does to them. */
module Ranges {
  import opened Words

  datatype Range = Range(start: U32, end: U32)

  predicate Proper(r: Range) {
    r.start <= r.end
  }

  predicate AllProper(list: seq<Range>) {
    forall i :: 0 <= i < |list| ==> Proper(list[i])
  }

  predicate Within(r: Range, x: int) {
    r.start <= x <= r.end
  }

  /** The set a list stands for. */
  predicate Covers(list: seq<Range>, x: int) {
    exists i :: 0 <= i < |list| && Within(list[i], x)
  }

  /** Sorted, and no two ranges share a point. */
  predicate Disjoint(list: seq<Range>) {
    forall i, j :: 0 <= i < j < |list| ==> list[i].end < list[j].start
  }

  // ----- range_list_add ------------------------------------------------------

  predicate Contains(r: Range, start: U32, end: U32) {
    start >= r.start && end <= r.end
  }

  predicate ExtendsDown(r: Range, start: U32, end: U32) {
    start < r.start && end >= r.start
  }

  predicate ExtendsUp(r: Range, start: U32, end: U32) {
    start < r.end && end >= r.end
  }

  predicate Matches(r: Range, start: U32, end: U32) {
    Contains(r, start, end) || ExtendsDown(r, start, end) || ExtendsUp(r, start, end)
  }

  /** What the first range that matches becomes. */
  function Merged(r: Range, start: U32, end: U32): Range {
    if Contains(r, start, end) then r
    else if ExtendsDown(r, start, end) then r.(start := start)
    else r.(end := end)
  }

  /** The first matching position, or the length of the list. */
  function FirstMatch(list: seq<Range>, start: U32, end: U32): (k: nat)
    ensures k <= |list|
    ensures k < |list| ==> Matches(list[k], start, end)
    ensures forall i :: 0 <= i < k ==> !Matches(list[i], start, end)
  {
    if |list| == 0 || Matches(list[0], start, end) then 0
    else 1 + FirstMatch(list[1..], start, end)
  }

  /** Where a new range goes: before the first range that starts after it. */
  function InsertAt(list: seq<Range>, end: U32): (k: nat)
    ensures k <= |list|
    ensures k < |list| ==> end < list[k].start
    ensures forall i :: 0 <= i < k ==> end >= list[i].start
  {
    if |list| == 0 || end < list[0].start then 0 else 1 + InsertAt(list[1..], end)
  }

  function Added(list: seq<Range>, start: U32, end: U32): seq<Range> {
    var k := FirstMatch(list, start, end);
    if k < |list| then list[k := Merged(list[k], start, end)]
    else var p := InsertAt(list, end); list[..p] + [Range(start, end)] + list[p..]
  }

  class RangeList {
    var ranges: seq<Range>

    constructor ()
      ensures ranges == []
    {
      ranges := [];
    }

    /** range_list_add. */
    method Add(start: U32, end: U32)
      modifies this
      ensures ranges == Added(old(ranges), start, end)
    {
      ghost var k := FirstMatch(ranges, start, end);
      var i := 0;
      while i < |ranges|
        invariant 0 <= i <= k && ranges == old(ranges)
      {
        var cur := ranges[i];
        if start >= cur.start && end <= cur.end {
          return;
        }
        if start < cur.start && end >= cur.start {
          ranges := ranges[i := cur.(start := start)];
          return;
        }
        if start < cur.end && end >= cur.end {
          ranges := ranges[i := cur.(end := end)];
          return;
        }
        i := i + 1;
      }
      ghost var p := InsertAt(ranges, end);
      i := 0;
      while i < |ranges|
        invariant 0 <= i <= p && ranges == old(ranges)
      {
        if end < ranges[i].start {
          ranges := ranges[..i] + [Range(start, end)] + ranges[i..];
          return;
        }
        i := i + 1;
      }
      ranges := ranges + [Range(start, end)];
    }
  }

  /** The first matching range lies strictly inside the new one: its upper part is dropped. */
  predicate Lossy(list: seq<Range>, start: U32, end: U32) {
    var k := FirstMatch(list, start, end);
    k < |list| && start < list[k].start && end > list[k].end
  }

  /** The last address of the new range that is kept. */
  function KeptEnd(list: seq<Range>, start: U32, end: U32): U32 {
    if Lossy(list, start, end) then list[FirstMatch(list, start, end)].end else end
  }

  lemma MergedWithin(r: Range, start: U32, end: U32, x: int)
    requires Proper(r) && start <= end && Matches(r, start, end)
    ensures Proper(Merged(r, start, end))
    ensures Within(Merged(r, start, end), x) <==>
            Within(r, x) || start <= x <= (if start < r.start && end > r.end then r.end else end)
  {
  }

  lemma CoversUpdate(list: seq<Range>, k: nat, r: Range, x: int)
    requires k < |list| && forall y :: Within(list[k], y) ==> Within(r, y)
    ensures Covers(list[k := r], x) <==> Covers(list, x) || Within(r, x)
  {
    var out := list[k := r];
    if Covers(list, x) {
      var i :| 0 <= i < |list| && Within(list[i], x);
      assert Within(out[i], x);
    }
    if Within(r, x) {
      assert Within(out[k], x);
    }
    if Covers(out, x) {
      var i :| 0 <= i < |out| && Within(out[i], x);
      assert i == k || out[i] == list[i];
    }
  }

  lemma CoversInsert(list: seq<Range>, p: nat, r: Range, x: int)
    requires p <= |list|
    ensures Covers(list[..p] + [r] + list[p..], x) <==> Covers(list, x) || Within(r, x)
  {
    var out := list[..p] + [r] + list[p..];
    if Covers(list, x) {
      var i :| 0 <= i < |list| && Within(list[i], x);
      assert out[if i < p then i else i + 1] == list[i];
    }
    if Within(r, x) {
      assert out[p] == r;
    }
    if Covers(out, x) {
      var i :| 0 <= i < |out| && Within(out[i], x);
      assert i == p || out[i] == list[if i < p then i else i - 1];
    }
  }

  /** What adding a range does to the set: exactly the kept part is added. */
  lemma AddedCovers(list: seq<Range>, start: U32, end: U32, x: int)
    requires AllProper(list) && start <= end
    ensures Covers(Added(list, start, end), x) <==>
            Covers(list, x) || start <= x <= KeptEnd(list, start, end)
  {
    var k := FirstMatch(list, start, end);
    if k < |list| {
      var r := Merged(list[k], start, end);
      forall y ensures Within(list[k], y) ==> Within(r, y) {
        MergedWithin(list[k], start, end, y);
      }
      CoversUpdate(list, k, r, x);
      MergedWithin(list[k], start, end, x);
      if Within(list[k], x) {
        assert Covers(list, x);
      }
    } else {
      CoversInsert(list, InsertAt(list, end), Range(start, end), x);
    }
  }

  lemma AddedProper(list: seq<Range>, start: U32, end: U32)
    requires AllProper(list) && start <= end
    ensures AllProper(Added(list, start, end))
  {
    var k := FirstMatch(list, start, end);
    if k < |list| {
      MergedWithin(list[k], start, end, 0);
    }
  }

  /** Adding a range gives exactly the union if and only if nothing uncovered is dropped. */
  lemma AddedIsUnionIff(list: seq<Range>, start: U32, end: U32)
    requires AllProper(list) && start <= end
    ensures (forall x :: Covers(Added(list, start, end), x) <==> Covers(list, x) || start <= x <= end)
            <==> (forall x :: KeptEnd(list, start, end) < x <= end ==> Covers(list, x))
  {
    forall x
      ensures Covers(Added(list, start, end), x) <==>
              Covers(list, x) || start <= x <= KeptEnd(list, start, end)
    {
      AddedCovers(list, start, end, x);
    }
  }
}
