/** From target specifications to a finished scan. */
module Targets {
  import opened Words
  import opened Finite
  import opened Bits
  import opened Ranges
  import opened RangeOrder
  import opened RangePick
  import opened Cidr
  import opened Scan
  import opened CycleWalk
  import opened ScanLoop
  import B = Bucket
  import S = Shuffle

  /** Specifications that are parsed exactly, to a list in which no range spans everything. */
  ghost predicate GoodSpecs(specs: seq<Spec>) {
    && specs != [] && ValidSpecs(specs)
    && Orderly(Blocks(specs)) && NoneFull(AddedAll(Blocks(specs)))
  }

  /** A simple way to be good: no /0, and no block after one strictly inside it. */
  predicate Descending(specs: seq<Spec>) {
    && specs != [] && ValidSpecs(specs) && WideFirst(Blocks(specs))
    && forall i :: 0 <= i < |specs| ==> specs[i].bits >= 1
  }

  lemma HalfOfAll(k: nat)
    requires k <= 31
    ensures Pow2(k) < TWO32
  {
    Pow2Of32();
    PowSplit(k, 32 - k);
    assert Pow2(32 - k) == 2 * Pow2(31 - k);
    MulMono(Pow2(k), 2, Pow2(32 - k));
  }

  lemma SmallBlock(spec: Spec)
    requires 1 <= spec.bits <= 32
    ensures var r := Block(spec.addr, spec.bits); Proper(r) && r.end - r.start + 1 < TWO32
  {
    BlockIs(spec.addr, spec.bits, Pow2(32 - spec.bits));
    HalfOfAll(32 - spec.bits);
  }

  lemma DescendingIsGood(specs: seq<Spec>)
    requires Descending(specs)
    ensures GoodSpecs(specs)
  {
    var rs := Blocks(specs);
    var list := AddedAll(rs);
    WideFirstOrderly(specs);
    TargetsExact(specs, 0);
    forall i | 0 <= i < |list| ensures list[i].end - list[i].start + 1 < TWO32 {
      assert list[i] in rs;
      var j :| 0 <= j < |rs| && rs[j] == list[i];
      SmallBlock(specs[j]);
    }
  }

  /** The parsed list is exact, and one that a scan counts and picks from correctly. */
  lemma TargetsScannable(specs: seq<Spec>)
    requires GoodSpecs(specs)
    ensures var list := AddedAll(Blocks(specs)); Exact(list, Blocks(specs)) && Scannable(list)
  {
    var rs := Blocks(specs);
    var list := AddedAll(rs);
    BlocksProper(specs);
    OrderlyIsExact(rs, |rs|);
    assert rs[..|rs|] == rs;
    CountsSomething(list, rs);
  }

  lemma CountsSomething(list: seq<Range>, rs: seq<Range>)
    requires Exact(list, rs) && NoneFull(list) && rs != [] && Proper(rs[0])
    ensures Count(list) >= 1
  {
    assert Within(rs[0], rs[0].start);
    FlattenCovers(list, rs[0].start);
    CountIff(list);
  }

  /** 0.0.0.0/0 stands for all addresses and is counted as none. */
  lemma EverythingCountsZero(addr: U32)
    ensures var list := AddedAll(Blocks([Spec(addr, 0)]));
            Count(list) == 0 && forall x :: Covers(list, x) <==> 0 <= x < TWO32
  {
    hide And, Or, Mask;
    var specs := [Spec(addr, 0)];
    var rs := Blocks(specs);
    Pow2Of32();
    BlockIs(addr, 0, Pow2(32));
    assert rs == [Range(0, TWO32 - 1)];
    assert rs[..0] == [] && rs[..1] == rs;
    AddedAllStep(rs, 0);
    var list := AddedAll(rs);
    assert list == Added([], 0, TWO32 - 1) == rs;
    assert forall x :: Covers(list, x) <==> Within(list[0], x);
  }

  /**
  From the specifications to the pairs handed to the script: a run that is through, unshuffled or
  with a shuffle that keeps its walks apart, has handed out every pair of an address in some block
  and a wanted port exactly once, and no other pair.
  */
  method ScanSpecs(specs: seq<Spec>, ports: seq<Range>, shuffle: bool, seed: U64, rate: U64,
                   clock: seq<U64>, turns: seq<Turn>, ghost c: Config)
    returns (i: nat, handed: seq<Probe>)
    requires GoodSpecs(specs) && PortList(ports)
    requires c == Config(AddedAll(Blocks(specs)), ports, 1, shuffle, seed, rate) && Runnable(c)
    requires B.Monotone(clock) && |clock| >= 1
    ensures i <= Steps(c) && |handed| == i
    ensures i == Steps(c) && (shuffle ==> Separates(S.Walk(Steps(c), seed), Steps(c))) ==>
              && (forall k, l :: 0 <= k < l < |handed| ==> handed[k] != handed[l])
              && forall p :: p in handed <==> Covers(Blocks(specs), p.daddr) && Covers(ports, p.dport)
  {
    TargetsScannable(specs);
    var list := ParseTargets(specs);
    var turn, sent, probes, times, now;
    turn, i, sent, probes, handed, times, now :=
      LoopCb(Config(list.ranges, ports, 1, shuffle, seed, rate), clock, turns);
    if i == Steps(c) && (shuffle ==> Separates(S.Walk(Steps(c), seed), Steps(c))) {
      PairsOf(handed, list.ranges, ports, Blocks(specs));
    }
  }

  lemma PairsOf(trace: seq<Probe>, targets: seq<Range>, ports: seq<Range>, rs: seq<Range>)
    requires EachPairOnce(trace, targets, ports) && Exact(targets, rs)
    ensures forall p :: p in trace <==> Covers(rs, p.daddr) && Covers(ports, p.dport)
  {
    forall p ensures p in trace <==> Covers(rs, p.daddr) && Covers(ports, p.dport) {
      assert Wanted(targets, ports, p) <==> Covers(rs, p.daddr) && Covers(ports, p.dport);
      if p in trace {
        var i :| 0 <= i < |trace| && trace[i] == p;
      }
    }
  }
}
