/** Which (address, port) pair an index stands for, and what a whole scan visits. */
module Scan {
  import opened Words
  import opened Finite
  import opened Ranges
  import opened RangePick

  datatype Probe = Probe(daddr: int, dport: int)

  /** Lists as a scan needs them: sorted, disjoint, no full range, and not empty. */
  predicate Scannable(list: seq<Range>) {
    AllProper(list) && Disjoint(list) && NoneFull(list) && Count(list) >= 1
  }

  predicate PortList(ports: seq<Range>) {
    Scannable(ports) && forall i :: 0 <= i < |ports| ==> ports[i].end < TWO16
  }

  /** The number of steps of a scan. */
  function Total(targets: seq<Range>, ports: seq<Range>, count: nat): nat {
    Count(targets) * Count(ports) * count
  }

  function TargetIndex(n: Pos, count: Pos, index: nat): nat {
    (index % n) / count
  }

  function PortIndex(n: Pos, count: Pos, index: nat): nat {
    (index / n) / count
  }

  /** The pair that loop_cb picks for the (possibly shuffled) index. */
  function ProbeAt(targets: seq<Range>, ports: seq<Range>, count: Pos, index: nat): Probe
    requires Count(targets) >= 1
  {
    Probe(Picked(targets, TargetIndex(Count(targets), count, index) % TWO32),
          Picked(ports, PortIndex(Count(targets), count, index) % TWO32) % TWO16)
  }

  predicate Wanted(targets: seq<Range>, ports: seq<Range>, p: Probe) {
    Covers(targets, p.daddr) && Covers(ports, p.dport)
  }

  /** Every wanted pair occurs in the trace at exactly one place, and nothing else occurs. */
  ghost predicate EachPairOnce(trace: seq<Probe>, targets: seq<Range>, ports: seq<Range>) {
    && (forall i :: 0 <= i < |trace| ==> Wanted(targets, ports, trace[i]))
    && (forall i, j :: 0 <= i < j < |trace| ==> trace[i] != trace[j])
    && (forall p :: Wanted(targets, ports, p) ==> p in trace)
  }

  lemma ListFacts(list: seq<Range>)
    requires Scannable(list)
    ensures Count(list) == |Flatten(list)| <= TWO32 && Increasing(Flatten(list))
  {
    CountIff(list);
    DisjointCountBound(list);
    FlattenIncreasing(list);
  }

  lemma PickFacts(list: seq<Range>, k: nat)
    requires Scannable(list) && k < Count(list)
    ensures k < |Flatten(list)| && Picked(list, k % TWO32) == Flatten(list)[k] && Covers(list, Flatten(list)[k])
  {
    ListFacts(list);
    assert k % TWO32 == k;
    PickedIsElement(list, k);
    FlattenCovers(list, Flatten(list)[k]);
  }

  lemma PortSmall(ports: seq<Range>, x: int)
    requires PortList(ports) && Covers(ports, x)
    ensures 0 <= x < TWO16
  {
  }

  /** The pair for a target index and a port index. */
  lemma ProbeFrom(targets: seq<Range>, ports: seq<Range>, count: Pos, index: nat, t: nat, p: nat)
    requires Scannable(targets) && PortList(ports) && t < Count(targets) && p < Count(ports)
    requires TargetIndex(Count(targets), count, index) == t && PortIndex(Count(targets), count, index) == p
    ensures t < |Flatten(targets)| && p < |Flatten(ports)|
    ensures ProbeAt(targets, ports, count, index) == Probe(Flatten(targets)[t], Flatten(ports)[p])
    ensures Wanted(targets, ports, ProbeAt(targets, ports, count, index))
  {
    hide Picked, Flatten, Count, Covers, Disjoint, NoneFull, AllProper, TargetIndex, PortIndex;
    PickFacts(targets, t);
    PickFacts(ports, p);
    PortSmall(ports, Flatten(ports)[p]);
  }

  /** With count 1 an index below the total is a target index and a port index. */
  lemma IndexParts(n: Pos, ports: Pos, index: nat)
    requires index < n * ports
    ensures TargetIndex(n, 1, index) < n && PortIndex(n, 1, index) < ports
    ensures index == n * PortIndex(n, 1, index) + TargetIndex(n, 1, index)
  {
    SplitBound(n, ports, index);
  }

  lemma ProbeIs(targets: seq<Range>, ports: seq<Range>, index: nat)
    requires Scannable(targets) && PortList(ports) && index < Count(targets) * Count(ports)
    ensures var t, p := TargetIndex(Count(targets), 1, index), PortIndex(Count(targets), 1, index);
            && t < |Flatten(targets)| && p < |Flatten(ports)|
            && ProbeAt(targets, ports, 1, index) == Probe(Flatten(targets)[t], Flatten(ports)[p])
            && Wanted(targets, ports, ProbeAt(targets, ports, 1, index))
  {
    var n := Count(targets);
    IndexParts(n, Count(ports), index);
    ProbeFrom(targets, ports, 1, index, TargetIndex(n, 1, index), PortIndex(n, 1, index));
  }

  lemma ProbeInjective(targets: seq<Range>, ports: seq<Range>, x: nat, y: nat)
    requires Scannable(targets) && PortList(ports)
    requires x < Count(targets) * Count(ports) && y < Count(targets) * Count(ports)
    requires ProbeAt(targets, ports, 1, x) == ProbeAt(targets, ports, 1, y)
    ensures x == y
  {
    ListFacts(targets);
    ListFacts(ports);
    ProbeIs(targets, ports, x);
    ProbeIs(targets, ports, y);
    var n := Count(targets);
    IncreasingInjective(Flatten(targets), TargetIndex(n, 1, x), TargetIndex(n, 1, y));
    IncreasingInjective(Flatten(ports), PortIndex(n, 1, x), PortIndex(n, 1, y));
    IndexParts(n, Count(ports), x);
    IndexParts(n, Count(ports), y);
  }

  lemma IncreasingInjective(s: seq<int>, i: nat, j: nat)
    requires Increasing(s) && i < |s| && j < |s| && s[i] == s[j]
    ensures i == j
  {
  }

  lemma ProbeOnto(targets: seq<Range>, ports: seq<Range>, p: Probe) returns (index: nat)
    requires Scannable(targets) && PortList(ports) && Wanted(targets, ports, p)
    ensures index < Count(targets) * Count(ports) && ProbeAt(targets, ports, 1, index) == p
  {
    ListFacts(targets);
    ListFacts(ports);
    FlattenCovers(targets, p.daddr);
    FlattenCovers(ports, p.dport);
    var t :| 0 <= t < |Flatten(targets)| && Flatten(targets)[t] == p.daddr;
    var q :| 0 <= q < |Flatten(ports)| && Flatten(ports)[q] == p.dport;
    index := IndexOf(Count(targets), Count(ports), q, t);
    ProbeFrom(targets, ports, 1, index, t, q);
  }

  /** The index that has the given parts. */
  lemma IndexOf(n: Pos, ports: Pos, q: nat, t: nat) returns (index: nat)
    requires q < ports && t < n
    ensures index < n * ports && TargetIndex(n, 1, index) == t && PortIndex(n, 1, index) == q
  {
    JoinBound(n, ports, q, t);
    DivModUnique(n, q, t);
    index := n * q + t;
  }

  /** The pairs handed out by the first n steps of a scan that visits indices in the given order. */
  ghost function Trace(targets: seq<Range>, ports: seq<Range>, count: Pos, order: nat -> nat, n: nat): (s: seq<Probe>)
    requires Count(targets) >= 1
    ensures |s| == n
    ensures forall i :: 0 <= i < n ==> s[i] == ProbeAt(targets, ports, count, order(i))
  {
    if n == 0 then []
    else Trace(targets, ports, count, order, n - 1) + [ProbeAt(targets, ports, count, order(n - 1))]
  }

  /** A whole scan with count 1 that visits every index once probes every pair exactly once. */
  lemma ScanComplete(targets: seq<Range>, ports: seq<Range>, order: nat -> nat)
    requires Scannable(targets) && PortList(ports)
    requires Permutes(order, Total(targets, ports, 1))
    ensures EachPairOnce(Trace(targets, ports, 1, order, Total(targets, ports, 1)), targets, ports)
  {
    var n := Total(targets, ports, 1);
    assert n == Count(targets) * Count(ports);
    var trace := Trace(targets, ports, 1, order, n);
    forall i | 0 <= i < n ensures Wanted(targets, ports, trace[i]) {
      ProbeIs(targets, ports, order(i));
    }
    forall i, j | 0 <= i < j < n ensures trace[i] != trace[j] {
      if trace[i] == trace[j] {
        ProbeInjective(targets, ports, order(i), order(j));
      }
    }
    InjectiveIsOnto(order, n);
    forall p | Wanted(targets, ports, p) ensures p in trace {
      var index := ProbeOnto(targets, ports, p);
      assert Hits(order, n, index);
      var i: nat :| i < n && order(i) == index;
      assert trace[i] == p;
    }
  }

  /** And only such a scan does. */
  lemma ScanCompleteIff(targets: seq<Range>, ports: seq<Range>, order: nat -> nat)
    requires Scannable(targets) && PortList(ports) && Into(order, Total(targets, ports, 1), Total(targets, ports, 1))
    ensures EachPairOnce(Trace(targets, ports, 1, order, Total(targets, ports, 1)), targets, ports)
            <==> Permutes(order, Total(targets, ports, 1))
  {
    var n := Total(targets, ports, 1);
    var trace := Trace(targets, ports, 1, order, n);
    if Permutes(order, n) {
      ScanComplete(targets, ports, order);
    } else {
      var x: nat, y: nat :| x < n && y < n && order(x) == order(y) && x != y;
      assert trace[x] == trace[y];
    }
  }
}
