/**
Cycle walking: a map of [0, n) to itself is applied again and again until the point is back
in [0, range). Nothing is assumed of the map: whether the walks return, and whether they lead
to different points, is decided by the points they visit.
*/
module CycleWalk {
  import opened Finite

  function Iterate(p: nat -> nat, k: nat, x: nat): nat {
    if k == 0 then x else p(Iterate(p, k - 1, x))
  }

  /** After k applications the walk from m is back below range for the first time. */
  ghost predicate ReturnsAt(p: nat -> nat, range: nat, m: nat, k: nat) {
    && 1 <= k
    && Iterate(p, k, m) < range
    && forall j: nat :: 1 <= j < k ==> Iterate(p, j, m) >= range
  }

  /** The first k points of the walk after m are all outside [0, range). */
  ghost predicate OutsideFor(p: nat -> nat, range: nat, m: nat, k: nat) {
    forall j: nat :: 1 <= j <= k ==> Iterate(p, j, m) >= range
  }

  /** The map is applied to x on the walk from some point of [0, range). */
  ghost predicate Visited(p: nat -> nat, range: nat, x: nat) {
    exists m: nat, j: nat :: m < range && OutsideFor(p, range, m, j) && Iterate(p, j, m) == x
  }

  /** The map sends different visited points to different points. */
  ghost predicate Separates(p: nat -> nat, range: nat) {
    forall x: nat, y: nat :: Visited(p, range, x) && Visited(p, range, y) && p(x) == p(y) ==> x == y
  }

  lemma {:induction false} IterateInto(p: nat -> nat, n: nat, k: nat, x: nat)
    requires Into(p, n, n) && x < n
    ensures Iterate(p, k, x) < n
  {
    if k != 0 {
      IterateInto(p, n, k - 1, x);
    }
  }

  lemma {:induction false} IterateAdd(p: nat -> nat, i: nat, j: nat, x: nat)
    ensures Iterate(p, i, Iterate(p, j, x)) == Iterate(p, i + j, x)
  {
    if i != 0 {
      IterateAdd(p, i - 1, j, x);
    }
  }

  lemma OutsideBefore(p: nat -> nat, range: nat, m: nat, k: nat, j: nat)
    requires OutsideFor(p, range, m, k) && j <= k
    ensures OutsideFor(p, range, m, j)
  {
  }

  lemma ReturnsOutside(p: nat -> nat, range: nat, m: nat, k: nat, j: nat)
    requires ReturnsAt(p, range, m, k) && j < k
    ensures OutsideFor(p, range, m, j)
  {
  }

  lemma VisitedAt(p: nat -> nat, range: nat, m: nat, j: nat)
    requires m < range && OutsideFor(p, range, m, j)
    ensures Visited(p, range, Iterate(p, j, m))
  {
  }

  // ----- separated walks return to different points -----------------------------------

  /** Points that two walks visit, and from which they go on to the same point, are the same. */
  lemma SamePoint(p: nat -> nat, range: nat, x: nat, i: nat, y: nat, j: nat)
    requires Separates(p, range) && x < range && y < range
    requires OutsideFor(p, range, x, i) && OutsideFor(p, range, y, j)
    requires p(Iterate(p, i, x)) == p(Iterate(p, j, y))
    ensures Iterate(p, i, x) == Iterate(p, j, y)
  {
    hide OutsideFor, Visited, Iterate;
    VisitedAt(p, range, x, i);
    VisitedAt(p, range, y, j);
  }

  lemma OutsideAt(p: nat -> nat, range: nat, m: nat, k: nat)
    requires OutsideFor(p, range, m, k) && 1 <= k
    ensures Iterate(p, k, m) >= range
  {
  }

  /** Two walks that meet outside have started at the same point and taken as many steps. */
  lemma {:induction false} MeetBack(p: nat -> nat, range: nat, x: nat, i: nat, y: nat, j: nat)
    requires Separates(p, range) && x < range && y < range
    requires OutsideFor(p, range, x, i) && OutsideFor(p, range, y, j) && Iterate(p, i, x) == Iterate(p, j, y)
    ensures i == j && x == y
    decreases i
  {
    hide OutsideFor, Visited, Separates;
    if i != 0 {
      OutsideAt(p, range, x, i);
      if j != 0 {
        OutsideBefore(p, range, x, i, i - 1);
        OutsideBefore(p, range, y, j, j - 1);
        SamePoint(p, range, x, i - 1, y, j - 1);
        MeetBack(p, range, x, i - 1, y, j - 1);
      }
    } else if j != 0 {
      OutsideAt(p, range, y, j);
    }
  }

  /** Points of the walk before the return, numbered from 0 and shifted down by range. */
  ghost function Excursion(p: nat -> nat, range: nat, m: nat): nat -> nat {
    (i: nat) => var c := Iterate(p, i + 1, m); if c >= range then c - range else 0
  }

  lemma ExcursionAt(p: nat -> nat, range: nat, m: nat, k: nat, i: nat)
    requires OutsideFor(p, range, m, k) && i < k
    ensures Excursion(p, range, m)(i) == Iterate(p, i + 1, m) - range
  {
    assert Iterate(p, i + 1, m) >= range;
  }

  lemma ExcursionInto(p: nat -> nat, n: nat, range: nat, m: nat, k: nat)
    requires Into(p, n, n) && m < range <= n && OutsideFor(p, range, m, k)
    ensures Into(Excursion(p, range, m), k, n - range)
  {
    forall i: nat | i < k ensures Excursion(p, range, m)(i) < n - range {
      IterateInto(p, n, i + 1, m);
      assert Iterate(p, i + 1, m) >= range;
    }
  }

  /** A walk outside [0, range) never repeats a point. */
  lemma NoRepeat(p: nat -> nat, range: nat, m: nat, k: nat, i: nat, j: nat)
    requires Separates(p, range) && m < range && OutsideFor(p, range, m, k) && i < k && j < k
    requires Excursion(p, range, m)(i) == Excursion(p, range, m)(j)
    ensures i == j
  {
    hide OutsideFor, Visited, Separates;
    ExcursionAt(p, range, m, k, i);
    ExcursionAt(p, range, m, k, j);
    OutsideBefore(p, range, m, k, i + 1);
    OutsideBefore(p, range, m, k, j + 1);
    MeetBack(p, range, m, i + 1, m, j + 1);
  }

  /** A walk that is still outside after k steps has visited k different points. */
  lemma OutsidePointsDistinct(p: nat -> nat, n: nat, range: nat, m: nat, k: nat)
    requires Into(p, n, n) && Separates(p, range) && m < range <= n && OutsideFor(p, range, m, k)
    ensures k <= n - range
  {
    var e := Excursion(p, range, m);
    ExcursionInto(p, n, range, m, k);
    forall i: nat, j: nat | i < k && j < k && e(i) == e(j) ensures i == j {
      NoRepeat(p, range, m, k, i, j);
    }
    Pigeonhole(e, k, n - range);
  }

  lemma FindReturn(p: nat -> nat, n: nat, range: nat, m: nat, k: nat) returns (t: nat)
    requires Into(p, n, n) && Separates(p, range) && m < range <= n && OutsideFor(p, range, m, k)
    ensures ReturnsAt(p, range, m, t) && k < t <= n - range + 1
    decreases n - range - k
  {
    OutsidePointsDistinct(p, n, range, m, k);
    if Iterate(p, k + 1, m) < range {
      t := k + 1;
    } else {
      OutsidePointsDistinct(p, n, range, m, k + 1);
      t := FindReturn(p, n, range, m, k + 1);
    }
  }

  // ----- the first-return map -----------------------------------------------------------

  ghost predicate Returns(p: nat -> nat, range: nat, m: nat) {
    exists k: nat :: ReturnsAt(p, range, m, k)
  }

  ghost predicate AllReturn(p: nat -> nat, range: nat) {
    forall m: nat :: m < range ==> Returns(p, range, m)
  }

  lemma ReturnUnique(p: nat -> nat, range: nat, m: nat, i: nat, j: nat)
    requires ReturnsAt(p, range, m, i) && ReturnsAt(p, range, m, j)
    ensures i == j
  {
  }

  /** The number of applications until the first return. */
  ghost function ReturnTime(p: nat -> nat, range: nat, m: nat): (k: nat)
    requires Returns(p, range, m)
    ensures 1 <= k && ReturnsAt(p, range, m, k)
  {
    var k: nat :| ReturnsAt(p, range, m, k);
    k
  }

  /** The first-return map; points from which the walk does not return stay where they are. */
  ghost function FirstReturn(p: nat -> nat, range: nat): nat -> nat {
    (m: nat) => if Returns(p, range, m) then Iterate(p, ReturnTime(p, range, m), m) else m
  }

  /** A point of the walk is in range only at the return. */
  lemma BeforeTheEnd(p: nat -> nat, range: nat, m: nat, k: nat, j: nat)
    requires ReturnsAt(p, range, m, k) && 1 <= j <= k
    ensures Iterate(p, j, m) < range <==> j == k
  {
  }

  lemma FirstReturnIs(p: nat -> nat, range: nat, m: nat)
    requires Returns(p, range, m)
    ensures FirstReturn(p, range)(m) == Iterate(p, ReturnTime(p, range, m), m)
  {
  }

  /** A separated walk is back after at most n - range + 1 applications. */
  lemma WalkReturns(p: nat -> nat, n: nat, range: nat, m: nat)
    requires Into(p, n, n) && Separates(p, range) && m < range <= n
    ensures Returns(p, range, m) && ReturnTime(p, range, m) <= n - range + 1
  {
    var k := FindReturn(p, n, range, m, 0);
    ReturnUnique(p, range, m, k, ReturnTime(p, range, m));
  }

  /** Two starting points with the same first return are the same point. */
  lemma FirstReturnSeparates(p: nat -> nat, range: nat, x: nat, i: nat, y: nat, j: nat)
    requires Separates(p, range) && x < range && y < range
    requires ReturnsAt(p, range, x, i) && ReturnsAt(p, range, y, j)
    requires Iterate(p, i, x) == Iterate(p, j, y)
    ensures x == y
  {
    hide OutsideFor, Visited, Separates;
    ReturnsOutside(p, range, x, i, i - 1);
    ReturnsOutside(p, range, y, j, j - 1);
    SamePoint(p, range, x, i - 1, y, j - 1);
    MeetBack(p, range, x, i - 1, y, j - 1);
  }

  lemma SeparatedPermutes(p: nat -> nat, n: nat, range: nat)
    requires Into(p, n, n) && Separates(p, range) && range <= n
    ensures AllReturn(p, range) && Permutes(FirstReturn(p, range), range)
  {
    forall m: nat | m < range ensures Returns(p, range, m) {
      WalkReturns(p, n, range, m);
    }
    var w := FirstReturn(p, range);
    forall x: nat, y: nat | x < range && y < range && w(x) == w(y) ensures x == y {
      FirstReturnSeparates(p, range, x, ReturnTime(p, range, x), y, ReturnTime(p, range, y));
    }
  }

  // ----- and conversely ------------------------------------------------------------------

  /** A walk that meets another one, i and j steps out, is back no later than the other one. */
  lemma MeetAhead(p: nat -> nat, range: nat, x: nat, i: nat, k: nat, y: nat, j: nat, l: nat)
    requires ReturnsAt(p, range, x, k) && ReturnsAt(p, range, y, l) && i < k && j < l
    requires p(Iterate(p, i, x)) == p(Iterate(p, j, y))
    ensures Iterate(p, k - i + j, y) == Iterate(p, k, x) && l <= k - i + j
  {
    IterateAdd(p, k - i - 1, i + 1, x);
    IterateAdd(p, k - i - 1, j + 1, y);
  }

  lemma MeetSame(p: nat -> nat, range: nat, x: nat, i: nat, k: nat, y: nat, j: nat, l: nat)
    requires ReturnsAt(p, range, x, k) && ReturnsAt(p, range, y, l) && i < k && j < l
    requires p(Iterate(p, i, x)) == p(Iterate(p, j, y))
    ensures Iterate(p, k, x) == Iterate(p, l, y) && k - i == l - j
  {
    hide ReturnsAt, Iterate;
    MeetAhead(p, range, x, i, k, y, j, l);
    MeetAhead(p, range, y, j, l, x, i, k);
  }

  lemma BeforeReturn(p: nat -> nat, range: nat, m: nat, j: nat, k: nat)
    requires OutsideFor(p, range, m, j) && ReturnsAt(p, range, m, k)
    ensures j < k
  {
    assert k <= j ==> Iterate(p, k, m) >= range;
  }

  lemma PermutedSeparates(p: nat -> nat, range: nat)
    requires AllReturn(p, range) && Injective(FirstReturn(p, range), range)
    ensures Separates(p, range)
  {
    forall u: nat, v: nat | Visited(p, range, u) && Visited(p, range, v) && p(u) == p(v) ensures u == v {
      var x: nat, i: nat :| x < range && OutsideFor(p, range, x, i) && Iterate(p, i, x) == u;
      var y: nat, j: nat :| y < range && OutsideFor(p, range, y, j) && Iterate(p, j, y) == v;
      var k, l := ReturnTime(p, range, x), ReturnTime(p, range, y);
      BeforeReturn(p, range, x, i, k);
      BeforeReturn(p, range, y, j, l);
      MeetSame(p, range, x, i, k, y, j, l);
      assert FirstReturn(p, range)(x) == FirstReturn(p, range)(y);
    }
  }

  /**
  Every walk returns and the first returns are a permutation of [0, range), if and only if the map
  sends different visited points to different points.
  */
  lemma WalkPermutesIff(p: nat -> nat, n: nat, range: nat)
    requires Into(p, n, n) && range <= n
    ensures AllReturn(p, range) && Permutes(FirstReturn(p, range), range) <==> Separates(p, range)
  {
    if Separates(p, range) {
      SeparatedPermutes(p, n, range);
    }
    if AllReturn(p, range) && Permutes(FirstReturn(p, range), range) {
      PermutedSeparates(p, range);
    }
  }

  lemma VisitedInto(p: nat -> nat, n: nat, range: nat, x: nat)
    requires Into(p, n, n) && range <= n && Visited(p, range, x)
    ensures x < n
  {
    var m: nat, j: nat :| m < range && OutsideFor(p, range, m, j) && Iterate(p, j, m) == x;
    IterateInto(p, n, j, m);
  }

  /** A permutation of [0, n) separates everything, so cycle walking turns it into one of [0, range). */
  lemma FirstReturnPermutes(p: nat -> nat, n: nat, range: nat)
    requires Permutes(p, n) && range <= n
    ensures Separates(p, range) && AllReturn(p, range) && Permutes(FirstReturn(p, range), range)
  {
    forall x: nat | Visited(p, range, x) ensures x < n {
      VisitedInto(p, n, range, x);
    }
    SeparatedPermutes(p, n, range);
  }

  // ----- walking back ---------------------------------------------------------------------

  /** q undoes p at every visited point. */
  ghost predicate Undoes(q: nat -> nat, p: nat -> nat, range: nat) {
    forall x: nat :: Visited(p, range, x) ==> q(p(x)) == x
  }

  /** Walking back visits the same points in reverse. */
  lemma {:induction false} WalkBack(p: nat -> nat, q: nat -> nat, range: nat, m: nat, k: nat, j: nat)
    requires Undoes(q, p, range) && m < range && ReturnsAt(p, range, m, k) && j <= k
    ensures Iterate(q, j, Iterate(p, k, m)) == Iterate(p, k - j, m)
  {
    if j != 0 {
      WalkBack(p, q, range, m, k, j - 1);
      ReturnsOutside(p, range, m, k, k - j);
      VisitedAt(p, range, m, k - j);
    }
  }

  /** Walking with q from every return visits the points of the walk in reverse. */
  ghost predicate Retraces(q: nat -> nat, p: nat -> nat, range: nat) {
    forall m: nat, k: nat, j: nat :: m < range && ReturnsAt(p, range, m, k) && j <= k ==>
      Iterate(q, j, Iterate(p, k, m)) == Iterate(p, k - j, m)
  }

  /** Every walk is retraced if and only if q undoes p at every visited point. */
  lemma RetracesIff(p: nat -> nat, q: nat -> nat, range: nat)
    requires AllReturn(p, range)
    ensures Retraces(q, p, range) <==> Undoes(q, p, range)
  {
    if Undoes(q, p, range) {
      forall m: nat, k: nat, j: nat | m < range && ReturnsAt(p, range, m, k) && j <= k
        ensures Iterate(q, j, Iterate(p, k, m)) == Iterate(p, k - j, m)
      {
        WalkBack(p, q, range, m, k, j);
      }
    }
    if Retraces(q, p, range) {
      forall x: nat | Visited(p, range, x) ensures q(p(x)) == x {
        RetracedPoint(p, q, range, x);
      }
    }
  }

  lemma RetracedPoint(p: nat -> nat, q: nat -> nat, range: nat, x: nat)
    requires AllReturn(p, range) && Retraces(q, p, range) && Visited(p, range, x)
    ensures q(p(x)) == x
  {
    var m: nat, i: nat :| m < range && OutsideFor(p, range, m, i) && Iterate(p, i, m) == x;
    var k := ReturnTime(p, range, m);
    BeforeReturn(p, range, m, i, k);
    assert Iterate(q, k - i - 1, Iterate(p, k, m)) == Iterate(p, k - (k - i - 1), m);
    assert Iterate(q, k - i, Iterate(p, k, m)) == Iterate(p, k - (k - i), m);
  }

  /** The walk with the inverse returns to where the walk started, in as many steps. */
  lemma WalkBackReturns(p: nat -> nat, q: nat -> nat, range: nat, m: nat, k: nat)
    requires Undoes(q, p, range) && m < range && ReturnsAt(p, range, m, k)
    ensures ReturnsAt(q, range, Iterate(p, k, m), k)
    ensures Iterate(q, k, Iterate(p, k, m)) == m
  {
    var c := Iterate(p, k, m);
    forall j: nat | 1 <= j < k ensures Iterate(q, j, c) >= range {
      WalkBack(p, q, range, m, k, j);
    }
    WalkBack(p, q, range, m, k, k);
  }

  /** A map that is undone at every visited point separates them. */
  lemma UndoneSeparates(p: nat -> nat, q: nat -> nat, range: nat)
    requires Undoes(q, p, range)
    ensures Separates(p, range)
  {
    forall x: nat, y: nat | Visited(p, range, x) && Visited(p, range, y) && p(x) == p(y) ensures x == y {
      assert q(p(x)) == x && q(p(y)) == y;
    }
  }
}
