/** Sorted disjoint lists: when adding keeps them so, over one add and over a run of adds. */
module RangeOrder {
  import opened Words
  import opened Ranges

  // ----- adding to a sorted disjoint list --------------------------------------

  /** Adding this range keeps a sorted disjoint list sorted and disjoint. */
  predicate Clean(list: seq<Range>, start: U32, end: U32) {
    var k := FirstMatch(list, start, end);
    if k == |list| then forall i :: 0 <= i < |list| ==> list[i].end != start
    else if Contains(list[k], start, end) then true
    else if ExtendsDown(list[k], start, end) then k == 0 || list[k - 1].end != start
    else k + 1 == |list| || end < list[k + 1].start
  }

  /** A range that matches nothing lies above what comes before it and below what comes after. */
  lemma InsertPlace(list: seq<Range>, start: U32, end: U32, i: nat)
    requires AllProper(list) && Disjoint(list) && start <= end
    requires FirstMatch(list, start, end) == |list| && i < |list|
    ensures if i < InsertAt(list, end) then list[i].end <= start else end < list[i].start
  {
    var p := InsertAt(list, end);
    assert !Matches(list[i], start, end);
    if p < i {
      assert list[p].end < list[i].start;
    }
  }

  lemma DisjointInsert(list: seq<Range>, p: nat, r: Range)
    requires p <= |list| && Disjoint(list)
    requires forall i :: 0 <= i < p ==> list[i].end < r.start
    requires forall i :: p <= i < |list| ==> r.end < list[i].start
    ensures Disjoint(list[..p] + [r] + list[p..])
  {
  }

  lemma InsertKeepsDisjoint(list: seq<Range>, start: U32, end: U32)
    requires AllProper(list) && Disjoint(list) && start <= end
    requires FirstMatch(list, start, end) == |list|
    ensures Disjoint(Added(list, start, end)) <==> Clean(list, start, end)
  {
    var p := InsertAt(list, end);
    var r := Range(start, end);
    if Clean(list, start, end) {
      forall i | 0 <= i < |list|
        ensures if i < p then list[i].end < start else end < list[i].start
      {
        InsertPlace(list, start, end, i);
      }
      DisjointInsert(list, p, r);
    } else {
      var i :| 0 <= i < |list| && list[i].end == start;
      InsertPlace(list, start, end, i);
      var out := list[..p] + [r] + list[p..];
      assert out[i] == list[i] && out[p] == r;
    }
  }

  lemma DisjointUpdate(list: seq<Range>, k: nat, r: Range)
    requires k < |list| && Disjoint(list)
    requires forall i :: 0 <= i < k ==> list[i].end < r.start
    requires forall i :: k < i < |list| ==> r.end < list[i].start
    ensures Disjoint(list[k := r])
  {
  }

  lemma ExtendDownDisjoint(list: seq<Range>, start: U32, end: U32, k: nat)
    requires AllProper(list) && Disjoint(list) && start <= end
    requires k == FirstMatch(list, start, end) < |list| && ExtendsDown(list[k], start, end)
    ensures Disjoint(list[k := list[k].(start := start)]) <==> (k == 0 || list[k - 1].end != start)
  {
    var r := list[k].(start := start);
    if k != 0 {
      assert !Matches(list[k - 1], start, end);
      assert list[k - 1].end <= start;
      if list[k - 1].end == start {
        var out := list[k := r];
        assert out[k - 1].end == out[k].start;
        return;
      }
    }
    forall i | 0 <= i < k ensures list[i].end < start {
      assert i == k - 1 || list[i].end < list[k - 1].start;
    }
    DisjointUpdate(list, k, r);
  }

  lemma ExtendUpDisjoint(list: seq<Range>, end: U32, k: nat)
    requires AllProper(list) && Disjoint(list) && k < |list|
    ensures Disjoint(list[k := list[k].(end := end)]) <==> (k + 1 == |list| || end < list[k + 1].start)
  {
    var r := list[k].(end := end);
    if k + 1 == |list| || end < list[k + 1].start {
      forall j | k < j < |list| ensures end < list[j].start {
        assert j == k + 1 || list[k + 1].end < list[j].start;
      }
      DisjointUpdate(list, k, r);
    } else {
      var out := list[k := r];
      assert out[k].end == end && out[k + 1] == list[k + 1];
    }
  }

  lemma MergeKeepsDisjoint(list: seq<Range>, start: U32, end: U32)
    requires AllProper(list) && Disjoint(list) && start <= end
    requires FirstMatch(list, start, end) < |list|
    ensures Disjoint(Added(list, start, end)) <==> Clean(list, start, end)
  {
    var k := FirstMatch(list, start, end);
    if Contains(list[k], start, end) {
      assert Added(list, start, end) == list;
    } else if ExtendsDown(list[k], start, end) {
      ExtendDownDisjoint(list, start, end, k);
    } else {
      ExtendUpDisjoint(list, end, k);
    }
  }

  /** Adding to a sorted disjoint list keeps it so if and only if the new range is clean. */
  lemma AddedDisjointIff(list: seq<Range>, start: U32, end: U32)
    requires AllProper(list) && Disjoint(list) && start <= end
    ensures Disjoint(Added(list, start, end)) <==> Clean(list, start, end)
  {
    if FirstMatch(list, start, end) == |list| {
      InsertKeepsDisjoint(list, start, end);
    } else {
      MergeKeepsDisjoint(list, start, end);
    }
  }

  // ----- any run of adds -------------------------------------------------------

  /** The list after adding the specifications in order. */
  function AddedAll(specs: seq<Range>): seq<Range> {
    if specs == [] then []
    else var last := specs[|specs| - 1];
      Added(AddedAll(specs[..|specs| - 1]), last.start, last.end)
  }

  /** Over any run of adds no address outside the specifications ever enters the list. */
  lemma {:induction false} AddedAllSound(specs: seq<Range>, x: int)
    requires AllProper(specs)
    ensures AllProper(AddedAll(specs))
    ensures Covers(AddedAll(specs), x) ==> Covers(specs, x)
  {
    if specs != [] {
      var n := |specs| - 1;
      var init, last := specs[..n], specs[n];
      AddedAllSound(init, x);
      AddedProper(AddedAll(init), last.start, last.end);
      AddedCovers(AddedAll(init), last.start, last.end, x);
      if Covers(init, x) {
        var i :| 0 <= i < |init| && Within(init[i], x);
        assert Within(specs[i], x);
      }
      if Covers(AddedAll(specs), x) && !Covers(init, x) {
        assert Within(specs[n], x);
      }
    }
  }

  // ----- exactness over a run of adds ----------------------------------------------

  lemma AddedAllStep(rs: seq<Range>, i: nat)
    requires i < |rs|
    ensures AddedAll(rs[..i + 1]) == Added(AddedAll(rs[..i]), rs[i].start, rs[i].end)
  {
    assert rs[..i + 1][..i] == rs[..i];
  }

  lemma CoversLast(rs: seq<Range>, x: int)
    requires rs != []
    ensures Covers(rs, x) <==> Covers(rs[..|rs| - 1], x) || Within(rs[|rs| - 1], x)
  {
    CoversInsert(rs[..|rs| - 1], |rs| - 1, rs[|rs| - 1], x);
    assert rs == rs[..|rs| - 1] + [rs[|rs| - 1]] + [];
    assert rs[..|rs| - 1][..|rs| - 1] == rs[..|rs| - 1];
  }

  /** The list is sorted and disjoint and stands for exactly the ranges that were added. */
  ghost predicate Exact(list: seq<Range>, rs: seq<Range>) {
    AllProper(list) && Disjoint(list) && forall x :: Covers(list, x) <==> Covers(rs, x)
  }

  /** What an add would drop of the new range is covered already. */
  ghost predicate Whole(list: seq<Range>, start: U32, end: U32) {
    forall x :: KeptEnd(list, start, end) < x <= end ==> Covers(list, x)
  }

  /** No add of the run finds a list on which it would go wrong. */
  ghost predicate Orderly(rs: seq<Range>) {
    forall k :: 0 <= k < |rs| ==>
      var list := AddedAll(rs[..k]); Clean(list, rs[k].start, rs[k].end) && Whole(list, rs[k].start, rs[k].end)
  }

  /** One add to an exact list. */
  lemma AddExactIff(list: seq<Range>, rs: seq<Range>, r: Range, out: seq<Range>, all: seq<Range>)
    requires Exact(list, rs) && Proper(r) && out == Added(list, r.start, r.end)
    requires forall x :: Covers(all, x) <==> Covers(rs, x) || Within(r, x)
    ensures Exact(out, all) <==> Clean(list, r.start, r.end) && Whole(list, r.start, r.end)
  {
    hide Added, Covers, Clean, KeptEnd, Disjoint, AllProper;
    AddedDisjointIff(list, r.start, r.end);
    AddedIsUnionIff(list, r.start, r.end);
    AddedProper(list, r.start, r.end);
    assert forall x :: Within(r, x) <==> r.start <= x <= r.end;
  }

  lemma AddExactStep(rs: seq<Range>, k: nat)
    requires AllProper(rs) && k < |rs| && Exact(AddedAll(rs[..k]), rs[..k])
    ensures Exact(AddedAll(rs[..k + 1]), rs[..k + 1]) <==>
            var list := AddedAll(rs[..k]); Clean(list, rs[k].start, rs[k].end) && Whole(list, rs[k].start, rs[k].end)
  {
    hide Clean, Whole, Exact, AddedAll, Covers;
    forall x ensures Covers(rs[..k + 1], x) <==> Covers(rs[..k], x) || Within(rs[k], x) {
      CoversLast(rs[..k + 1], x);
      assert rs[..k + 1][..k] == rs[..k];
    }
    AddedAllStep(rs, k);
    AddExactIff(AddedAll(rs[..k]), rs[..k], rs[k], AddedAll(rs[..k + 1]), rs[..k + 1]);
  }

  lemma {:induction false} OrderlyIsExact(rs: seq<Range>, k: nat)
    requires AllProper(rs) && Orderly(rs) && k <= |rs|
    ensures Exact(AddedAll(rs[..k]), rs[..k])
  {
    hide Clean, Whole;
    if k != 0 {
      OrderlyIsExact(rs, k - 1);
      AddExactStep(rs, k - 1);
    }
  }

  /**
  The list is exact after every add of a run if and only if no add finds a list on which it would
  drop something or overlap something.
  */
  lemma AddsExactIff(rs: seq<Range>)
    requires AllProper(rs)
    ensures (forall k :: 0 <= k <= |rs| ==> Exact(AddedAll(rs[..k]), rs[..k])) <==> Orderly(rs)
  {
    hide Exact, Clean, Whole;
    if Orderly(rs) {
      forall k | 0 <= k <= |rs| ensures Exact(AddedAll(rs[..k]), rs[..k]) {
        OrderlyIsExact(rs, k);
      }
    } else {
      var k :| 0 <= k < |rs| && var list := AddedAll(rs[..k]);
               !(Clean(list, rs[k].start, rs[k].end) && Whole(list, rs[k].start, rs[k].end));
      if Exact(AddedAll(rs[..k]), rs[..k]) {
        AddExactStep(rs, k);
      }
    }
  }

  // ----- disjoint specifications ----------------------------------------------

  predicate Apart(r: Range, s: Range) {
    r.end < s.start || s.end < r.start
  }

  predicate PairwiseApart(specs: seq<Range>) {
    forall i, j :: 0 <= i < j < |specs| ==> Apart(specs[i], specs[j])
  }

  /** A range apart from every range of a sorted disjoint list is inserted in its place. */
  lemma AddApart(list: seq<Range>, r: Range)
    requires AllProper(list) && Disjoint(list) && Proper(r)
    requires forall i :: 0 <= i < |list| ==> Apart(list[i], r)
    ensures Disjoint(Added(list, r.start, r.end)) && AllProper(Added(list, r.start, r.end))
    ensures multiset(Added(list, r.start, r.end)) == multiset(list) + multiset{r}
  {
    assert FirstMatch(list, r.start, r.end) == |list|;
    InsertKeepsDisjoint(list, r.start, r.end);
    AddedProper(list, r.start, r.end);
    InsertMultiset(list, InsertAt(list, r.end), r);
  }

  lemma InsertMultiset(list: seq<Range>, p: nat, r: Range)
    requires p <= |list|
    ensures multiset(list[..p] + [r] + list[p..]) == multiset(list) + multiset{r}
  {
    assert list == list[..p] + list[p..];
  }

  lemma {:induction false} AddedAllApart(specs: seq<Range>)
    requires AllProper(specs) && PairwiseApart(specs)
    ensures AllProper(AddedAll(specs)) && Disjoint(AddedAll(specs))
    ensures multiset(AddedAll(specs)) == multiset(specs)
  {
    if specs != [] {
      var n := |specs| - 1;
      var init, last := specs[..n], specs[n];
      AddedAllApart(init);
      var list := AddedAll(init);
      ApartFromAll(specs, list);
      AddApart(list, last);
      InitMultiset(specs);
      assert AddedAll(specs) == Added(list, last.start, last.end);
    }
  }

  lemma InitMultiset(s: seq<Range>)
    requires s != []
    ensures multiset(s) == multiset(s[..|s| - 1]) + multiset{s[|s| - 1]}
  {
    assert s == s[..|s| - 1] + [s[|s| - 1]];
  }

  lemma ApartFromAll(specs: seq<Range>, list: seq<Range>)
    requires specs != [] && PairwiseApart(specs)
    requires multiset(list) == multiset(specs[..|specs| - 1])
    ensures forall i :: 0 <= i < |list| ==> Apart(list[i], specs[|specs| - 1])
  {
    var init := specs[..|specs| - 1];
    forall i | 0 <= i < |list| ensures Apart(list[i], specs[|specs| - 1]) {
      assert list[i] in multiset(init);
      var j :| 0 <= j < |init| && init[j] == list[i];
      assert specs[j] == list[i];
    }
  }

  /** A sorted disjoint list of proper ranges is determined by which ranges it holds. */
  lemma {:induction false} SortedUnique(s: seq<Range>, t: seq<Range>)
    requires AllProper(s) && Disjoint(s) && AllProper(t) && Disjoint(t)
    requires multiset(s) == multiset(t)
    ensures s == t
    decreases |s|
  {
    if s == [] {
      assert |multiset(t)| == 0;
    } else {
      assert |multiset(t)| == |s|;
      SameHead(s, t);
      TailMultiset(s);
      TailMultiset(t);
      SortedUnique(s[1..], t[1..]);
      assert s == [s[0]] + s[1..] && t == [t[0]] + t[1..];
    }
  }

  lemma TailMultiset(s: seq<Range>)
    requires s != []
    ensures multiset(s[1..]) == multiset(s) - multiset{s[0]}
  {
    assert s == [s[0]] + s[1..];
  }

  /** The first range is the only one that no other range of the list precedes. */
  lemma SameHead(s: seq<Range>, t: seq<Range>)
    requires AllProper(s) && Disjoint(s) && AllProper(t) && Disjoint(t)
    requires s != [] && t != [] && multiset(s) == multiset(t)
    ensures s[0] == t[0]
  {
    assert s[0] in multiset(t) && t[0] in multiset(s);
    var i :| 0 <= i < |t| && t[i] == s[0];
    var j :| 0 <= j < |s| && s[j] == t[0];
  }

  lemma {:induction false} TwoPlaces(s: seq<Range>, r: Range) returns (i: nat, j: nat)
    requires multiset(s)[r] >= 2
    ensures i < j < |s| && s[i] == r == s[j]
  {
    assert s != [];
    TailMultiset(s);
    if s[0] == r {
      assert r in multiset(s[1..]);
      var k :| 0 <= k < |s[1..]| && s[1..][k] == r;
      i, j := 0, k + 1;
    } else {
      i, j := TwoPlaces(s[1..], r);
      i, j := i + 1, j + 1;
    }
  }

  lemma TwoPlacesCount(s: seq<Range>, i: nat, j: nat)
    requires i < j < |s| && s[i] == s[j]
    ensures multiset(s)[s[i]] >= 2
  {
    assert s == s[..j] + s[j..];
    assert s[..j][i] == s[i] && s[j..][0] == s[j];
    assert multiset(s) == multiset(s[..j]) + multiset(s[j..]);
  }

  /** Being pairwise disjoint does not depend on the order. */
  lemma ReorderedApart(specs: seq<Range>, other: seq<Range>)
    requires AllProper(specs) && PairwiseApart(specs) && multiset(specs) == multiset(other)
    ensures AllProper(other) && PairwiseApart(other)
  {
    forall i | 0 <= i < |other| ensures Proper(other[i]) && other[i] in specs {
      assert other[i] in multiset(specs);
    }
    forall i, j | 0 <= i < j < |other| ensures Apart(other[i], other[j]) {
      if other[i] == other[j] {
        TwoPlacesCount(other, i, j);
        var k, l := TwoPlaces(specs, other[i]);
        assert Apart(specs[k], specs[l]);
      } else {
        var k :| 0 <= k < |specs| && specs[k] == other[i];
        var l :| 0 <= l < |specs| && specs[l] == other[j];
        assert k < l || l < k;
      }
    }
  }

  /** The order in which pairwise disjoint ranges are listed does not matter. */
  lemma OrderIrrelevant(specs: seq<Range>, other: seq<Range>)
    requires AllProper(specs) && PairwiseApart(specs) && multiset(specs) == multiset(other)
    ensures AddedAll(specs) == AddedAll(other)
  {
    ReorderedApart(specs, other);
    AddedAllApart(specs);
    AddedAllApart(other);
    SortedUnique(AddedAll(specs), AddedAll(other));
  }
}
