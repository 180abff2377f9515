/** Counting the numbers below n that have a property. */
module Counting {
  import opened Words
  import opened Finite

  function Tally(f: nat -> bool, n: nat): nat {
    if n == 0 then 0 else Tally(f, n - 1) + if f(n - 1) then 1 else 0
  }

  /** The numbers themselves. */
  ghost function Having(f: nat -> bool, n: nat): (s: set<nat>)
    ensures |s| == Tally(f, n)
    ensures forall i: nat :: i in s <==> i < n && f(i)
  {
    if n == 0 then {} else Having(f, n - 1) + if f(n - 1) then {n - 1} else {}
  }

  lemma {:induction false} TallyBoth(f: nat -> bool, g: nat -> bool, n: nat)
    requires forall i: nat :: i < n ==> f(i) != g(i)
    ensures Tally(f, n) + Tally(g, n) == n
  {
    if n != 0 {
      TallyBoth(f, g, n - 1);
    }
  }

  /** An interval, as far as it reaches below n. */
  lemma {:induction false} TallyInterval(f: nat -> bool, lo: nat, hi: nat, n: nat)
    requires lo <= hi && forall i: nat :: i < n ==> f(i) == (lo <= i < hi)
    ensures Tally(f, n) == if n <= lo then 0 else if n <= hi then n - lo else hi - lo
  {
    if n != 0 {
      TallyInterval(f, lo, hi, n - 1);
    }
  }

  // ----- rows and columns ------------------------------------------------------------

  predicate Cell(f: nat -> bool, row: nat -> bool, col: nat -> bool, n: Pos, q: nat, r: nat) {
    f(n * q + r) == (row(q) && col(r))
  }

  /** f depends on the row and the column of a number in a table of m rows of width n. */
  ghost predicate Tabulated(f: nat -> bool, row: nat -> bool, col: nat -> bool, n: Pos, m: nat) {
    forall q: nat, r: nat :: q < m && r < n ==> Cell(f, row, col, n, q, r)
  }

  lemma {:induction false} TallyRow(f: nat -> bool, row: nat -> bool, col: nat -> bool, n: Pos, m: nat, q: nat, r: nat)
    requires Tabulated(f, row, col, n, m) && q < m && r <= n
    ensures Tally(f, n * q + r) == Tally(f, n * q) + if row(q) then Tally(col, r) else 0
    decreases r
  {
    if r != 0 {
      TallyRow(f, row, col, n, m, q, r - 1);
      assert Cell(f, row, col, n, q, r - 1);
    }
  }

  lemma {:induction false} TallyTable(f: nat -> bool, row: nat -> bool, col: nat -> bool, n: Pos, m: nat)
    requires Tabulated(f, row, col, n, m)
    ensures Tally(f, n * m) == Tally(row, m) * Tally(col, n)
  {
    if m == 0 {
      assert n * m == 0;
    } else {
      TallyTable(f, row, col, n, m - 1);
      TallyRow(f, row, col, n, m, m - 1, n);
      assert n * m == n * (m - 1) + n;
      OneMore(Tally(row, m - 1), Tally(col, n));
    }
  }

  lemma OneMore(x: nat, y: nat)
    ensures (x + 1) * y == x * y + y
  {
  }

  // ----- in another order -------------------------------------------------------------

  lemma {:induction false} ImageOfSet(f: nat -> nat, s: set<nat>, t: set<nat>)
    requires forall x: nat, y: nat :: x in s && y in s && f(x) == f(y) ==> x == y
    requires forall x: nat :: x in s ==> f(x) in t
    ensures |s| <= |t|
    decreases s
  {
    if s != {} {
      var x :| x in s;
      ImageOfSet(f, s - {x}, t - {f(x)});
    }
  }

  lemma TallyNoMore(f: nat -> bool, g: nat -> bool, order: nat -> nat, n: nat)
    requires Permutes(order, n) && forall i: nat :: i < n ==> g(i) == f(order(i))
    ensures Tally(g, n) <= Tally(f, n)
  {
    ImageOfSet(order, Having(g, n), Having(f, n));
  }

  /** A permutation of the numbers does not change how many have the property. */
  lemma TallyPermuted(f: nat -> bool, g: nat -> bool, order: nat -> nat, n: nat)
    requires Permutes(order, n) && forall i: nat :: i < n ==> g(i) == f(order(i))
    ensures Tally(g, n) == Tally(f, n)
  {
    var nf: nat -> bool, ng: nat -> bool := (i: nat) => !f(i), (i: nat) => !g(i);
    TallyNoMore(f, g, order, n);
    TallyNoMore(nf, ng, order, n);
    TallyBoth(f, nf, n);
    TallyBoth(g, ng, n);
  }

  /** How often a value occurs in a sequence. */
  lemma {:induction false} TallyOccurrences<T>(s: seq<T>, x: T, f: nat -> bool, n: nat)
    requires n <= |s| && forall i: nat :: i < n ==> f(i) == (s[i] == x)
    ensures multiset(s[..n])[x] == Tally(f, n)
  {
    if n != 0 {
      TallyOccurrences(s, x, f, n - 1);
      assert s[..n] == s[..n - 1] + [s[n - 1]];
    }
  }
}
