/** How often a scan hands out each pair, for every count. */
module Duplicates {
  import opened Words
  import opened Finite
  import opened Counting
  import opened Ranges
  import opened RangePick
  import opened Scan

  /**
  How often the t-th of n targets comes with each port: count times for each of the target's
  places, which are count consecutive ones of the n, as far as there are any left.
  */
  function Times(n: nat, count: Pos, t: nat): nat {
    var first := t * count;
    if n <= first then 0 else if n - first <= count then count * (n - first) else count * count
  }

  function PairOf(targets: seq<Range>, ports: seq<Range>, t: nat, p: nat): Probe
    requires AllProper(targets) && AllProper(ports) && t < |Flatten(targets)| && p < |Flatten(ports)|
  {
    Probe(Flatten(targets)[t], Flatten(ports)[p])
  }

  /** The indices at which the pair is picked. */
  ghost function Gives(targets: seq<Range>, ports: seq<Range>, count: Pos, pair: Probe): nat -> bool
    requires Count(targets) >= 1
  {
    (index: nat) => ProbeAt(targets, ports, count, index) == pair
  }

  /** The numbers with quotient k. */
  ghost function Quotient(count: Pos, k: nat): nat -> bool {
    (x: nat) => x / count == k
  }

  lemma QuotientInterval(count: Pos, k: nat, x: nat)
    ensures x / count == k <==> count * k <= x < count * k + count
  {
    if count * k <= x < count * k + count {
      DivModUnique(count, k, x - count * k);
    }
  }

  lemma TallyQuotient(count: Pos, k: nat, n: nat)
    ensures Tally(Quotient(count, k), n)
         == if n <= count * k then 0 else if n <= count * k + count then n - count * k else count
  {
    forall x: nat ensures Quotient(count, k)(x) == (count * k <= x < count * k + count) {
      QuotientInterval(count, k, x);
    }
    TallyInterval(Quotient(count, k), count * k, count * k + count, n);
  }

  /** The index in row q and column r picks the pair if and only if q and r have the right quotients. */
  lemma GivesCell(targets: seq<Range>, ports: seq<Range>, count: Pos, t: nat, p: nat, q: nat, r: nat)
    requires Scannable(targets) && PortList(ports) && t < |Flatten(targets)| && p < |Flatten(ports)|
    requires r < Count(targets) && q < count * Count(ports)
    ensures Cell(Gives(targets, ports, count, PairOf(targets, ports, t, p)), Quotient(count, p), Quotient(count, t),
                 Count(targets), q, r)
  {
    hide Flatten, Count, Picked, Covers, AllProper, Disjoint, NoneFull, Increasing;
    var n := Count(targets);
    var index := n * q + r;
    DivModUnique(n, q, r);
    SplitBound(count, Count(ports), q);
    QuotientSmall(r, count);
    ListFacts(targets);
    ListFacts(ports);
    ProbeFrom(targets, ports, count, index, r / count, q / count);
    SamePair(targets, ports, r / count, q / count, t, p);
  }

  lemma QuotientSmall(r: nat, count: Pos)
    ensures 0 <= r / count <= r
  {
    MulMono(r / count, 1, count);
  }

  lemma SamePair(targets: seq<Range>, ports: seq<Range>, t: nat, p: nat, u: nat, q: nat)
    requires AllProper(targets) && AllProper(ports) && Increasing(Flatten(targets)) && Increasing(Flatten(ports))
    requires t < |Flatten(targets)| && u < |Flatten(targets)| && p < |Flatten(ports)| && q < |Flatten(ports)|
    ensures PairOf(targets, ports, t, p) == PairOf(targets, ports, u, q) <==> t == u && p == q
  {
    hide Flatten;
  }

  lemma TimesIs(n: nat, count: Pos, t: nat)
    ensures Times(n, count, t) == count * Tally(Quotient(count, t), n)
  {
    TallyQuotient(count, t, n);
    assert t * count == count * t;
  }

  /** How many indices pick a pair. */
  lemma IndicesOfPair(targets: seq<Range>, ports: seq<Range>, count: Pos, t: nat, p: nat)
    requires Scannable(targets) && PortList(ports) && t < |Flatten(targets)| && p < |Flatten(ports)|
    ensures Tally(Gives(targets, ports, count, PairOf(targets, ports, t, p)), Total(targets, ports, count))
         == Times(Count(targets), count, t)
  {
    hide Flatten, Count, Picked, Covers, AllProper, Disjoint, NoneFull, Increasing, Times, Tally, Gives, Quotient, Cell;
    var n, m := Count(targets), count * Count(ports);
    var f := Gives(targets, ports, count, PairOf(targets, ports, t, p));
    var row, col := Quotient(count, p), Quotient(count, t);
    forall q: nat, r: nat | q < m && r < n ensures Cell(f, row, col, n, q, r) {
      GivesCell(targets, ports, count, t, p, q, r);
    }
    TallyTable(f, row, col, n, m);
    TotalIs(n, Count(ports), count);
    AllRows(targets, ports, count, p);
    TimesIs(n, count, t);
  }

  lemma TotalIs(n: nat, ports: nat, count: nat)
    ensures n * ports * count == n * (count * ports)
  {
  }

  lemma AllRows(targets: seq<Range>, ports: seq<Range>, count: Pos, p: nat)
    requires Scannable(targets) && PortList(ports) && p < |Flatten(ports)|
    ensures Tally(Quotient(count, p), count * Count(ports)) == count
  {
    ListFacts(ports);
    TallyQuotient(count, p, count * Count(ports));
    MulMono(count, p + 1, Count(ports));
    assert count * (p + 1) == count * p + count;
  }

  // ----- in a run -----------------------------------------------------------------------

  /**
  A scan that visits every index once hands out the pair of the t-th address and any port
  count * min(count, n - t * count) times, or never if that is not positive.
  */
  lemma PairMultiplicity(targets: seq<Range>, ports: seq<Range>, count: Pos, order: nat -> nat, t: nat, p: nat)
    requires Scannable(targets) && PortList(ports) && t < |Flatten(targets)| && p < |Flatten(ports)|
    requires Permutes(order, Total(targets, ports, count))
    ensures multiset(Trace(targets, ports, count, order, Total(targets, ports, count)))[PairOf(targets, ports, t, p)]
         == Times(Count(targets), count, t)
  {
    hide Flatten, Count, Times, Tally, PairOf, Permutes, ProbeAt;
    var total := Total(targets, ports, count);
    var pair := PairOf(targets, ports, t, p);
    var trace := Trace(targets, ports, count, order, total);
    var f: nat -> bool := Gives(targets, ports, count, pair);
    var g: nat -> bool := (i: nat) => f(order(i));
    TallyOccurrences(trace, pair, g, total);
    assert trace[..total] == trace;
    TallyPermuted(f, g, order, total);
    IndicesOfPair(targets, ports, count, t, p);
  }

  /** The address of the pair is number (index % n) / count and the port number (index / n) / count. */
  predicate SplitInto(targets: seq<Range>, ports: seq<Range>, count: Pos, index: nat, pair: Probe)
    requires AllProper(targets) && AllProper(ports) && Count(targets) >= 1
  {
    var n: Pos := Count(targets);
    var t: int, p: int := (index % n) / count, (index / n) / count;
    && 0 <= t < |Flatten(targets)| && pair.daddr == Flatten(targets)[t]
    && 0 <= p < |Flatten(ports)| && pair.dport == Flatten(ports)[p]
  }

  /** Each index picks the address and the port that its quotients number, so nothing else is handed out. */
  lemma IndexPair(targets: seq<Range>, ports: seq<Range>, count: Pos, index: nat)
    requires Scannable(targets) && PortList(ports) && index < Total(targets, ports, count)
    ensures SplitInto(targets, ports, count, index, ProbeAt(targets, ports, count, index))
    ensures Wanted(targets, ports, ProbeAt(targets, ports, count, index))
  {
    var n := Count(targets);
    TotalIs(n, Count(ports), count);
    SplitBound(n, count * Count(ports), index);
    SplitBound(count, Count(ports), index / n);
    QuotientSmall(index % n, count);
    var t, p := (index % n) / count, (index / n) / count;
    ProbeFrom(targets, ports, count, index, t, p);
  }

  ghost predicate Reached(targets: seq<Range>, ports: seq<Range>, count: Pos, p: Probe)
    requires Count(targets) >= 1
  {
    exists index: nat :: index < Total(targets, ports, count) && ProbeAt(targets, ports, count, index) == p
  }

  ghost predicate AllReached(targets: seq<Range>, ports: seq<Range>, count: Pos)
    requires Count(targets) >= 1
  {
    forall p :: Wanted(targets, ports, p) ==> Reached(targets, ports, count, p)
  }

  /** A pair is reached at all if and only if its address has a place left. */
  lemma ReachedIff(targets: seq<Range>, ports: seq<Range>, count: Pos, t: nat, p: nat)
    requires Scannable(targets) && PortList(ports) && t < |Flatten(targets)| && p < |Flatten(ports)|
    ensures Reached(targets, ports, count, PairOf(targets, ports, t, p)) <==> t * count < Count(targets)
  {
    hide Flatten, Count, PairOf, ProbeAt;
    var f := Gives(targets, ports, count, PairOf(targets, ports, t, p));
    var s := Having(f, Total(targets, ports, count));
    IndicesOfPair(targets, ports, count, t, p);
    TimesPositive(Count(targets), count, t);
    if s != {} {
      var index :| index in s;
    } else {
      forall index: nat | index < Total(targets, ports, count)
        ensures ProbeAt(targets, ports, count, index) != PairOf(targets, ports, t, p)
      {
        assert index !in s;
        assert !f(index);
      }
    }
  }

  lemma TimesPositive(n: nat, count: Pos, t: nat)
    ensures Times(n, count, t) > 0 <==> t * count < n
  {
    if t * count < n {
      MulMono(count, 1, n - t * count);
      MulMono(count, 1, count);
    }
  }

  lemma WantedPair(targets: seq<Range>, ports: seq<Range>, pair: Probe) returns (t: nat, p: nat)
    requires Scannable(targets) && PortList(ports) && Wanted(targets, ports, pair)
    ensures t < |Flatten(targets)| && p < |Flatten(ports)| && pair == PairOf(targets, ports, t, p)
  {
    FlattenCovers(targets, pair.daddr);
    FlattenCovers(ports, pair.dport);
    t :| 0 <= t < |Flatten(targets)| && Flatten(targets)[t] == pair.daddr;
    p :| 0 <= p < |Flatten(ports)| && Flatten(ports)[p] == pair.dport;
  }

  lemma PairWanted(targets: seq<Range>, ports: seq<Range>, t: nat, p: nat)
    requires Scannable(targets) && PortList(ports) && t < |Flatten(targets)| && p < |Flatten(ports)|
    ensures Wanted(targets, ports, PairOf(targets, ports, t, p))
  {
    FlattenCovers(targets, Flatten(targets)[t]);
    FlattenCovers(ports, Flatten(ports)[p]);
  }

  lemma LastPlace(n: Pos, count: Pos, t: nat)
    requires t < n
    ensures count == 1 || n == 1 ==> t * count < n
    ensures t == n - 1 && count >= 2 && n >= 2 ==> t * count >= n
  {
    MulMono(t, 2, count);
  }

  /** Every wanted pair is probed if and only if the count is 1 or there is a single target. */
  lemma AllReachedIff(targets: seq<Range>, ports: seq<Range>, count: Pos)
    requires Scannable(targets) && PortList(ports)
    ensures AllReached(targets, ports, count) <==> count == 1 || Count(targets) == 1
  {
    hide Reached, PairOf, Flatten, Count, Scannable, PortList, Wanted;
    SomeOfEach(targets, ports);
    var n := Count(targets);
    if count == 1 || n == 1 {
      forall pair | Wanted(targets, ports, pair) ensures Reached(targets, ports, count, pair) {
        var t, p := WantedPair(targets, ports, pair);
        ReachedIff(targets, ports, count, t, p);
        LastPlace(n, count, t);
      }
    } else {
      PairWanted(targets, ports, n - 1, 0);
      ReachedIff(targets, ports, count, n - 1, 0);
      LastPlace(n, count, n - 1);
    }
  }

  lemma SomeOfEach(targets: seq<Range>, ports: seq<Range>)
    requires Scannable(targets) && PortList(ports)
    ensures 1 <= Count(targets) == |Flatten(targets)| && 1 <= Count(ports) == |Flatten(ports)|
  {
    ListFacts(targets);
    ListFacts(ports);
  }

  /** Each wanted pair is handed out exactly count times. */
  ghost predicate CountTimes(trace: seq<Probe>, targets: seq<Range>, ports: seq<Range>, count: Pos) {
    forall pair :: Wanted(targets, ports, pair) ==> multiset(trace)[pair] == count
  }

  lemma TimesIsCount(n: Pos, count: Pos, t: nat)
    requires t < n
    ensures count == 1 || n == 1 ==> Times(n, count, t) == count
    ensures t == 0 && Times(n, count, t) == count ==> count == 1 || n == 1
  {
    if t == 0 && count >= 2 && n >= 2 {
      MulMono(count, 2, n);
      MulMono(count, 2, count);
    }
  }

  /** The documented meaning of the count holds if and only if the count is 1 or there is a single target. */
  lemma CountTimesIff(targets: seq<Range>, ports: seq<Range>, count: Pos, order: nat -> nat)
    requires Scannable(targets) && PortList(ports) && Permutes(order, Total(targets, ports, count))
    ensures Count(targets) >= 1
    ensures CountTimes(Trace(targets, ports, count, order, Total(targets, ports, count)), targets, ports, count)
            <==> count == 1 || Count(targets) == 1
  {
    hide PairOf, Flatten, Count, Times, Permutes, Scannable, PortList, Wanted;
    SomeOfEach(targets, ports);
    var n := Count(targets);
    var trace := Trace(targets, ports, count, order, Total(targets, ports, count));
    if count == 1 || n == 1 {
      forall pair | Wanted(targets, ports, pair) ensures multiset(trace)[pair] == count {
        var t, p := WantedPair(targets, ports, pair);
        PairMultiplicity(targets, ports, count, order, t, p);
        TimesIsCount(n, count, t);
      }
    } else {
      PairWanted(targets, ports, 0, 0);
      PairMultiplicity(targets, ports, count, order, 0, 0);
      TimesIsCount(n, count, 0);
    }
  }
}
