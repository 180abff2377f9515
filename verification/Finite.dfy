/** Maps of the finite interval [0, n) to itself: pigeonhole and bijectivity. */
module Finite {
  ghost predicate Into(f: nat -> nat, n: nat, bound: nat) {
    forall x: nat :: x < n ==> f(x) < bound
  }

  ghost predicate Injective(f: nat -> nat, n: nat) {
    forall x: nat, y: nat :: x < n && y < n && f(x) == f(y) ==> x == y
  }

  ghost predicate Hits(f: nat -> nat, n: nat, y: nat) {
    exists x: nat :: x < n && f(x) == y
  }

  ghost predicate Onto(f: nat -> nat, n: nat) {
    forall y: nat :: y < n ==> Hits(f, n, y)
  }

  ghost predicate Permutes(f: nat -> nat, n: nat) {
    Into(f, n, n) && Injective(f, n)
  }

  ghost function Below(n: nat): (s: set<nat>)
    ensures |s| == n
    ensures forall i: nat :: i in s <==> i < n
  {
    if n == 0 then {} else Below(n - 1) + {n - 1}
  }

  ghost function Image(f: nat -> nat, n: nat): set<nat> {
    if n == 0 then {} else Image(f, n - 1) + {f(n - 1)}
  }

  lemma {:induction false} ImageHits(f: nat -> nat, n: nat, y: nat)
    ensures y in Image(f, n) <==> Hits(f, n, y)
  {
    if n != 0 {
      ImageHits(f, n - 1, y);
      if y == f(n - 1) {
        assert Hits(f, n, y);
      }
    }
  }

  lemma {:induction false} ImageSize(f: nat -> nat, n: nat)
    requires Injective(f, n)
    ensures |Image(f, n)| == n
  {
    if n != 0 {
      ImageSize(f, n - 1);
      ImageHits(f, n - 1, f(n - 1));
    }
  }

  lemma {:induction false} ImageBelow(f: nat -> nat, n: nat, bound: nat)
    requires Into(f, n, bound)
    ensures Image(f, n) <= Below(bound)
  {
    if n != 0 {
      ImageBelow(f, n - 1, bound);
    }
  }

  lemma {:induction false} SubsetSize<T>(s: set<T>, t: set<T>)
    requires s <= t
    ensures |s| <= |t|
    ensures |s| == |t| ==> s == t
  {
    if s != {} {
      var e :| e in s;
      SubsetSize(s - {e}, t - {e});
    }
  }

  /** An injective map into [0, bound) has a domain no larger than bound. */
  lemma Pigeonhole(f: nat -> nat, n: nat, bound: nat)
    requires Into(f, n, bound) && Injective(f, n)
    ensures n <= bound
  {
    ImageSize(f, n);
    ImageBelow(f, n, bound);
    SubsetSize(Image(f, n), Below(bound));
  }

  /** On a finite interval an injective map is onto. */
  lemma InjectiveIsOnto(f: nat -> nat, n: nat)
    requires Permutes(f, n)
    ensures Onto(f, n)
  {
    ImageSize(f, n);
    ImageBelow(f, n, n);
    SubsetSize(Image(f, n), Below(n));
    forall y: nat | y < n
      ensures Hits(f, n, y)
    {
      ImageHits(f, n, y);
    }
  }
}
