/**
loop_cb: the send loop. One run is fixed by a clock trace and by what the rest of the
program answers in each turn; both are arbitrary.
*/
module ScanLoop {
  import opened Words
  import opened Finite
  import opened Ranges
  import opened RangePick
  import opened Scan
  import opened Duplicates
  import opened CycleWalk
  import S = Shuffle
  import B = Bucket

  /** What the loop is told in one turn. */
  datatype Turn = Turn(
    queued: bool,   // queue_dequeue returned a packet
    fits: bool,     // pkt_pack succeeded, so pkt_send counts the packet
    stop: bool,     // args->stop is set
    built: bool     // script_loop returned a packet
  )

  datatype Config = Config(
    targets: seq<Range>, ports: seq<Range>, count: Pos, shuffle: bool, seed: U64, rate: U64)

  /** There is something to scan, and the number of steps fits 64 bits with room for the sides. */
  predicate ValidConfig(c: Config) {
    && var total := Total(c.targets, c.ports, c.count);
       1 <= total && total + S.Isqrt(total) < TWO64
  }

  function Steps(c: Config): Pos
    requires ValidConfig(c)
  {
    Total(c.targets, c.ports, c.count)
  }

  /** And every call of shuffle ends. */
  ghost predicate Runnable(c: Config) {
    ValidConfig(c) && (c.shuffle ==> AllReturn(S.Walk(Steps(c), c.seed), Steps(c)))
  }

  /** The order in which indices are visited. */
  ghost function Order(c: Config): nat -> nat
    requires Runnable(c)
  {
    if c.shuffle then S.VisitOrder(Steps(c), c.seed) else (i: nat) => i
  }

  /** Each index is visited once, unless shuffling does not keep the points of its walks apart. */
  lemma OrderPermutesIff(c: Config)
    requires Runnable(c)
    ensures Into(Order(c), Steps(c), Steps(c))
    ensures Permutes(Order(c), Steps(c)) <==> (c.shuffle ==> Separates(S.Walk(Steps(c), c.seed), Steps(c)))
  {
    if c.shuffle {
      S.VisitOrderPermutesIff(Steps(c), c.seed);
      forall i: nat | i < Steps(c) ensures Order(c)(i) < Steps(c) {
        FirstReturnIs(S.Walk(Steps(c), c.seed), Steps(c), i);
      }
    }
  }

  /** A turn that is left to the script. */
  predicate Idle(t: Turn) {
    !t.queued && !t.stop
  }

  function IdleTurns(turns: seq<Turn>, k: nat): nat
    requires k <= |turns|
  {
    if k == 0 then 0 else IdleTurns(turns, k - 1) + if Idle(turns[k - 1]) then 1 else 0
  }

  /** The first total idle turns, and no others, hand out a pair. */
  predicate HandsOut(turns: seq<Turn>, k: nat, total: nat)
    requires k < |turns|
  {
    Idle(turns[k]) && IdleTurns(turns, k) < total
  }

  /** The probes among the first k turns. */
  function Probes(turns: seq<Turn>, k: nat, total: nat): nat
    requires k <= |turns|
  {
    if k == 0 then 0
    else Probes(turns, k - 1, total) + if HandsOut(turns, k - 1, total) && turns[k - 1].built then 1 else 0
  }

  /** The packets sent in the first k turns: queued packets and probes, as far as they fit a frame. */
  function Sends(turns: seq<Turn>, k: nat, total: nat): nat
    requires k <= |turns|
  {
    if k == 0 then 0
    else
      var t := turns[k - 1];
      Sends(turns, k - 1, total)
      + if (t.queued || (HandsOut(turns, k - 1, total) && t.built)) && t.fits then 1 else 0
  }

  /** A turn that takes a token: something is packed to be sent, whether or not it fits a frame. */
  predicate Takes(turns: seq<Turn>, k: nat, total: nat)
    requires k < |turns|
  {
    turns[k].queued || (HandsOut(turns, k, total) && turns[k].built)
  }

  function Taken(turns: seq<Turn>, k: nat, total: nat): nat
    requires k <= |turns|
  {
    if k == 0 then 0 else Taken(turns, k - 1, total) + if Takes(turns, k - 1, total) then 1 else 0
  }

  /**
  The tokens after k turns: the bucket is full but for what the last turn took, except that
  without a rate it is never filled and only taken from.
  */
  function Tokens(turns: seq<Turn>, k: nat, total: nat, rate: U64): real
    requires k <= |turns|
  {
    if rate == 0 then 0.0 - Taken(turns, k, total) as real
    else rate as real - if k > 0 && Takes(turns, k - 1, total) then 1.0 else 0.0
  }

  /** What a turn leaves in a bucket that the wait before it has filled. */
  lemma TokensStep(turns: seq<Turn>, k: nat, total: nat, rate: U64, i: nat, t: Turn, hands: bool, filled: real)
    requires k < |turns| && t == turns[k] && i == Min(IdleTurns(turns, k), total)
    requires hands == (!t.queued && i < total && !t.stop)
    requires filled == if rate > 0 then rate as real else Tokens(turns, k, total, rate)
    ensures Tokens(turns, k + 1, total, rate) == filled - if t.queued || (hands && t.built) then 1.0 else 0.0
  {
    assert hands == HandsOut(turns, k, total);
  }

  lemma TokensStart(turns: seq<Turn>, total: nat, rate: U64)
    ensures Tokens(turns, 0, total, rate) == rate as real
  {
  }

  lemma TokensFilled(turns: seq<Turn>, k: nat, total: nat, rate: U64)
    requires k <= |turns|
    ensures Filled(Tokens(turns, k, total, rate), rate)
  {
  }

  lemma CountedIs(turns: seq<Turn>, k: nat, total: nat, i: nat, sent: nat, probes: nat)
    requires k <= |turns| && Counted(turns, k, total, i, sent, probes)
    ensures i == Min(IdleTurns(turns, k), total)
  {
  }

  function Min(x: nat, y: nat): nat {
    if x < y then x else y
  }

  /** The loop's counters after k turns. */
  predicate Counted(turns: seq<Turn>, k: nat, total: nat, i: nat, sent: nat, probes: nat)
    requires k <= |turns|
  {
    i == Min(IdleTurns(turns, k), total) && probes == Probes(turns, k, total) && sent == Sends(turns, k, total)
  }

  /** What a turn adds to the counters, by its own flags and the counter i. */
  lemma CountedStep(turns: seq<Turn>, k: nat, total: nat, i: nat, sent: nat, probes: nat, t: Turn, hands: bool)
    requires k < |turns| && Counted(turns, k, total, i, sent, probes)
    requires t == turns[k] && hands == (!t.queued && i < total && !t.stop)
    ensures Counted(turns, k + 1, total, i + if hands then 1 else 0,
              sent + if (t.queued || (hands && t.built)) && t.fits then 1 else 0,
              probes + if hands && t.built then 1 else 0)
  {
    assert hands == HandsOut(turns, k, total);
  }

  /** Consecutive sends, starting from the time of set-up, are at least 1/rate seconds apart. */
  predicate Spaced(times: seq<U64>, rate: U64) {
    forall i :: 0 <= i < |times| - 1 ==> B.Ready(times[i], times[i + 1], rate)
  }

  /** Any stretch of sends is at least as long as the rate asks for. */
  lemma {:induction false} SpacedStretch(times: seq<U64>, rate: U64, i: nat, j: nat)
    requires Spaced(times, rate) && i <= j < |times|
    ensures (j - i) * B.MICROS <= (times[j] - times[i]) * rate
    decreases j
  {
    if i < j {
      SpacedStretch(times, rate, i, j - 1);
      assert B.Ready(times[j - 1], times[j - 1 + 1], rate);
      assert (times[j] - times[i]) * rate
          == (times[j] - times[j - 1]) * rate + (times[j - 1] - times[i]) * rate;
    }
  }

  /** The permutation object of a scan, as the set-up leaves it. */
  ghost predicate SetUp(c: Config, rnd: S.Shuffle)
    reads rnd
  {
    && ValidConfig(c) && rnd.Valid()
    && rnd.range == Steps(c) && rnd.seed == c.seed && rnd.rounds == S.ROUNDS
    && rnd.a == S.FirstSide(Steps(c)) && rnd.b == S.SecondSide(Steps(c))
  }

  /** The index decomposition: the pair for step i. */
  method PickProbe(c: Config, rnd: S.Shuffle, tgtCnt: Pos, i: nat) returns (p: Probe)
    requires Runnable(c) && SetUp(c, rnd) && i < Steps(c) && tgtCnt == Count(c.targets)
    ensures p == ProbeAt(c.targets, c.ports, c.count, Order(c)(i))
  {
    var tgt := i;
    if c.shuffle {
      ghost var steps;
      tgt, steps := rnd.Shuffle(i);
    }
    var daddr := Pick(c.targets, ((tgt % tgtCnt) / c.count) % TWO32);
    var dport := Pick(c.ports, ((tgt / tgtCnt) / c.count) % TWO32);
    p := Probe(daddr, dport % TWO16);
  }

  /** The send times recorded so far, the last clock reading and the tokens. */
  predicate Timing(c: Config, clock: seq<U64>, at: nat, sent: nat, times: seq<U64>, timestamp: U64) {
    && 1 <= at <= |clock| && timestamp in clock[..at]
    && |times| == sent + 1 && times[0] == clock[0] && times[sent] <= timestamp
    && (c.rate > 0 ==> Spaced(times, c.rate))
  }

  lemma TimingBound(c: Config, clock: seq<U64>, at: nat, sent: nat, times: seq<U64>, timestamp: U64)
    requires Timing(c, clock, at, sent, times, timestamp) && B.Monotone(clock)
    ensures forall j :: at <= j < |clock| ==> timestamp <= clock[j]
    ensures |times| == sent + 1 && times[sent] <= timestamp && 1 <= at <= |clock|
  {
    var i :| 0 <= i < at && clock[i] == timestamp;
  }

  /** A token that has accrued since some reading has accrued since any earlier one. */
  lemma ReadyLater(since: U64, was: U64, now: U64, rate: U64)
    requires since <= was
    ensures B.Ready(was, now, rate) ==> B.Ready(since, now, rate)
  {
    MulMono(rate, now - was, now - since);
  }

  lemma NeverReady(now: U64, rate: U64)
    ensures !B.Ready(now, now, rate)
  {
  }

  /** Reading on in the clock trace keeps what was recorded. */
  lemma TimingAdvance(c: Config, clock: seq<U64>, at: nat, sent: nat, times: seq<U64>, was: U64,
                      next: nat, timestamp: U64)
    requires Timing(c, clock, at, sent, times, was) && at <= next <= |clock| && was <= timestamp
    requires timestamp == was || (next > at && timestamp == clock[next - 1])
    ensures Timing(c, clock, next, sent, times, timestamp) && 1 <= next <= |clock|
  {
    if timestamp == was {
      var i :| 0 <= i < at && clock[..at][i] == was;
      assert clock[..next][i] == was;
    } else {
      assert clock[..next][next - 1] == timestamp;
    }
  }

  /** A send in a turn in which a token has accrued since the last one. */
  lemma TimingSend(c: Config, clock: seq<U64>, at: nat, sent: nat, times: seq<U64>, timestamp: U64)
    requires Timing(c, clock, at, sent, times, timestamp)
    requires c.rate > 0 ==> B.Ready(times[sent], timestamp, c.rate)
    ensures |times| == sent + 1 && Timing(c, clock, at, sent + 1, times + [timestamp], timestamp)
  {
    if c.rate > 0 {
      var out := times + [timestamp];
      forall i | 0 <= i < |out| - 1 ensures B.Ready(out[i], out[i + 1], c.rate) {
        if i < sent {
          assert B.Ready(times[i], times[i + 1], c.rate);
        }
      }
    }
  }

  /** The bucket is full, or short of the one token that the last turn took. */
  predicate Filled(tokens: real, rate: U64) {
    rate > 0 ==> rate as real - 1.0 <= tokens <= rate as real
  }

  /** The clock trace ends before another token has accrued. */
  predicate Stalled(c: Config, clock: seq<U64>, timestamp: U64)
    requires |clock| >= 1
  {
    c.rate > 0 && !B.Ready(timestamp, clock[|clock| - 1], c.rate)
  }

  /** The wait at the top of a turn: afterwards the bucket is full and a token has accrued since the last send. */
  method AwaitToken(c: Config, bucket: B.Bucket, clock: seq<U64>, at: nat, ghost sent: nat, ghost times: seq<U64>)
    returns (next: nat, done: bool)
    requires bucket.rate == c.rate && B.Monotone(clock) && Filled(bucket.tokens, c.rate)
    requires Timing(c, clock, at, sent, times, bucket.timestamp)
    requires c.rate > 0 ==> bucket.timestamp == clock[at - 1]
    modifies bucket
    ensures 1 <= next <= |clock| && |times| == sent + 1
    ensures bucket.rate == c.rate && Timing(c, clock, next, sent, times, bucket.timestamp)
    ensures !done || c.rate == 0 ==> bucket.tokens == old(bucket.tokens)
    ensures done && c.rate > 0 ==> bucket.timestamp == clock[next - 1]
    ensures !done ==> Stalled(c, clock, bucket.timestamp)
    ensures done && c.rate > 0 ==> bucket.tokens == c.rate as real && B.Ready(times[sent], bucket.timestamp, c.rate)
  {
    hide Timing, B.Ready, B.Monotone;
    ghost var was := bucket.timestamp;
    TimingBound(c, clock, at, sent, times, was);
    next, done := bucket.Consume(clock, at);
    TimingAdvance(c, clock, at, sent, times, was, next, bucket.timestamp);
    ReadyLater(times[sent], was, bucket.timestamp, c.rate);
    NeverReady(was, c.rate);
  }

  /** pkt_send counts a packet that fits a frame; a token is taken either way. */
  method Send(c: Config, bucket: B.Bucket, ghost clock: seq<U64>, ghost at: nat, sent: nat, times: seq<U64>, fits: bool)
    returns (total: nat, sends: seq<U64>)
    requires bucket.rate == c.rate && Timing(c, clock, at, sent, times, bucket.timestamp)
    requires c.rate > 0 ==> bucket.tokens == c.rate as real && |times| == sent + 1
    requires c.rate > 0 ==> B.Ready(times[sent], bucket.timestamp, c.rate)
    modifies bucket`tokens
    ensures total == (if fits then sent + 1 else sent) && times <= sends && |sends| == total + 1
    ensures Timing(c, clock, at, total, sends, bucket.timestamp)
    ensures bucket.tokens == old(bucket.tokens) - 1.0
  {
    total, sends := sent, times;
    if fits {
      TimingSend(c, clock, at, sent, times, bucket.timestamp);
      total, sends := sent + 1, times + [bucket.timestamp];
    }
    bucket.tokens := bucket.tokens - 1.0;
  }

  /** What a turn without a queued packet does: the next pair is picked and handed to the script. */
  method HandOut(c: Config, rnd: S.Shuffle, tgtCnt: Pos, i: nat, handed: seq<Probe>) returns (more: seq<Probe>)
    requires Runnable(c) && SetUp(c, rnd) && i < Steps(c) && tgtCnt == Count(c.targets)
    requires handed == Trace(c.targets, c.ports, c.count, Order(c), i)
    ensures more == Trace(c.targets, c.ports, c.count, Order(c), i + 1)
  {
    var p := PickProbe(c, rnd, tgtCnt, i);
    more := handed + [p];
  }

  lemma LoopStart(c: Config, clock: seq<U64>, turns: seq<Turn>, totCnt: nat)
    requires Runnable(c) && |clock| >= 1
    ensures Counted(turns, 0, totCnt, 0, 0, 0) && Timing(c, clock, 1, 0, [clock[0]], clock[0])
    ensures Trace(c.targets, c.ports, c.count, Order(c), 0) == []
  {
    assert clock[..1] == [clock[0]];
  }

  /**
  The loop of loop_cb, run over the given turns. The out-parameters are the loop's counters and two
  traces: the pairs handed to the script, and the times of set-up and of every counted send.
  */
  method SendLoop(c: Config, rnd: S.Shuffle, bucket: B.Bucket, tgtCnt: Pos, totCnt: nat,
                  clock: seq<U64>, turns: seq<Turn>)
    returns (turn: nat, i: nat, sent: nat, probes: nat, handed: seq<Probe>, times: seq<U64>)
    requires Runnable(c) && SetUp(c, rnd) && tgtCnt == Count(c.targets) && totCnt == Steps(c)
    requires B.Monotone(clock) && |clock| >= 1
    requires bucket.rate == c.rate && bucket.timestamp == clock[0] && bucket.tokens == c.rate as real
    modifies bucket
    ensures turn <= |turns| && (turn < |turns| ==> Stalled(c, clock, bucket.timestamp))
    ensures Counted(turns, turn, totCnt, i, sent, probes)
    ensures handed == Trace(c.targets, c.ports, c.count, Order(c), i)
    ensures exists at :: Timing(c, clock, at, sent, times, bucket.timestamp)
    ensures bucket.tokens == Tokens(turns, turn, totCnt, c.rate)
  {
    hide *;
    turn, i, sent, probes, handed, times := 0, 0, 0, 0, [], [clock[0]];
    var at := 1;
    LoopStart(c, clock, turns, totCnt);
    TokensStart(turns, totCnt, c.rate);
    while turn < |turns|
      invariant turn <= |turns| && i <= totCnt && Counted(turns, turn, totCnt, i, sent, probes)
      invariant handed == Trace(c.targets, c.ports, c.count, Order(c), i)
      invariant 1 <= at <= |clock| && |times| == sent + 1
      invariant bucket.rate == c.rate && Timing(c, clock, at, sent, times, bucket.timestamp)
      invariant bucket.tokens == Tokens(turns, turn, totCnt, c.rate)
      invariant c.rate > 0 ==> bucket.timestamp == clock[at - 1]
      decreases |turns| - turn
    {
      var done;
      TokensFilled(turns, turn, totCnt, c.rate);
      at, done := AwaitToken(c, bucket, clock, at, sent, times);
      if !done {
        break;
      }
      var t := turns[turn];
      CountedIs(turns, turn, totCnt, i, sent, probes);
      TokensStep(turns, turn, totCnt, c.rate, i, t, !t.queued && i < totCnt && !t.stop, bucket.tokens);
      CountedStep(turns, turn, totCnt, i, sent, probes, t, !t.queued && i < totCnt && !t.stop);
      turn := turn + 1;
      var sending := t.queued;
      if !t.queued && i < totCnt && !t.stop {
        handed := HandOut(c, rnd, tgtCnt, i, handed);
        i := i + 1;
        sending := t.built;
        probes := if t.built then probes + 1 else probes;
      }
      if sending {
        sent, times := Send(c, bucket, clock, at, sent, times, t.fits);
      }
    }
  }

  lemma Counts(c: Config)
    requires ValidConfig(c)
    ensures 1 <= Count(c.targets) < TWO64 && Count(c.ports) < TWO64
    ensures (Count(c.targets) * Count(c.ports) * c.count) % TWO64 == Steps(c)
  {
    FactorBound(Count(c.targets), Count(c.ports), c.count);
  }

  lemma FactorBound(x: nat, y: nat, z: nat)
    requires x * y * z >= 1
    ensures 1 <= x <= x * y * z && 1 <= y <= x * y * z
  {
    MulMono(x * y, 1, z);
    MulMono(x, 1, y);
    MulMono(y, 1, x);
  }

  lemma Longer(x: int, y: int, rate: nat)
    requires x <= y
    ensures x * rate <= y * rate
  {
    MulMono(rate, x, y);
  }

  /** No more packets have been sent than the rate allows since the start. */
  lemma RateBound(times: seq<U64>, rate: U64, now: U64)
    requires |times| >= 1 && Spaced(times, rate) && times[|times| - 1] <= now
    ensures (|times| - 1) * B.MICROS <= (now - times[0]) * rate
  {
    hide Spaced;
    var n := |times| - 1;
    SpacedStretch(times, rate, 0, n);
    assert (n - 0) * B.MICROS == n * B.MICROS;
    Longer(times[n] - times[0], now - times[0], rate);
  }

  lemma TimingFacts(c: Config, clock: seq<U64>, at: nat, sent: nat, times: seq<U64>, now: U64)
    requires Timing(c, clock, at, sent, times, now)
    ensures |times| == sent + 1 && times[0] == clock[0] && now in clock
    ensures c.rate > 0 ==> Spaced(times, c.rate) && sent * B.MICROS <= (now - clock[0]) * c.rate
  {
    if c.rate > 0 {
      RateBound(times, c.rate, now);
    }
  }

  /**
  A finished scan of proper lists with count 1 has handed every wanted pair to the script exactly
  once, if and only if its shuffling, if any, keeps the points of its walks apart.
  */
  lemma CompleteScanIff(c: Config)
    requires Runnable(c) && c.count == 1 && Scannable(c.targets) && PortList(c.ports)
    ensures EachPairOnce(Trace(c.targets, c.ports, 1, Order(c), Steps(c)), c.targets, c.ports)
            <==> (c.shuffle ==> Separates(S.Walk(Steps(c), c.seed), Steps(c)))
  {
    OrderPermutesIff(c);
    ScanCompleteIff(c.targets, c.ports, Order(c));
  }

  /** The pair is the one whose address and port number m, which is k or what shuffle makes of it, is split into. */
  ghost predicate SplitPair(c: Config, k: nat, pair: Probe)
    requires Runnable(c) && Scannable(c.targets) && PortList(c.ports)
  {
    SplitInto(c.targets, c.ports, c.count,
              if c.shuffle then FirstReturn(S.Walk(Steps(c), c.seed), Steps(c))(k) else k, pair)
  }

  lemma StepsSplit(c: Config, i: nat)
    requires Runnable(c) && Scannable(c.targets) && PortList(c.ports) && i <= Steps(c)
    ensures forall k: nat :: k < i ==> SplitPair(c, k, Trace(c.targets, c.ports, c.count, Order(c), i)[k])
  {
    OrderPermutesIff(c);
    forall k: nat | k < i ensures SplitPair(c, k, Trace(c.targets, c.ports, c.count, Order(c), i)[k]) {
      IndexPair(c.targets, c.ports, c.count, Order(c)(k));
    }
  }

  /** Each pair occurs as often as its address has places. */
  ghost predicate EachTimes(c: Config, trace: seq<Probe>)
    requires AllProper(c.targets) && AllProper(c.ports)
  {
    forall t: nat, p: nat :: t < |Flatten(c.targets)| && p < |Flatten(c.ports)| ==>
      multiset(trace)[PairOf(c.targets, c.ports, t, p)] == Times(Count(c.targets), c.count, t)
  }

  lemma StepsTimes(c: Config)
    requires Runnable(c) && Scannable(c.targets) && PortList(c.ports)
    requires c.shuffle ==> Separates(S.Walk(Steps(c), c.seed), Steps(c))
    ensures EachTimes(c, Trace(c.targets, c.ports, c.count, Order(c), Steps(c)))
  {
    OrderPermutesIff(c);
    forall t: nat, p: nat | t < |Flatten(c.targets)| && p < |Flatten(c.ports)|
      ensures multiset(Trace(c.targets, c.ports, c.count, Order(c), Steps(c)))[PairOf(c.targets, c.ports, t, p)]
           == Times(Count(c.targets), c.count, t)
    {
      PairMultiplicity(c.targets, c.ports, c.count, Order(c), t, p);
    }
  }

  /**
  loop_cb at any point of any run: it stops short of the given turns only for want of a token; the
  first idle turns, as many as there are steps, hand out pairs and nothing else does; the sends are
  spaced as the rate demands, so that no more packets have been sent than it allows; and once a scan
  of proper lists with count 1 is through, every wanted pair has been handed to the script exactly
  once, if and only if shuffling, if any, keeps the points of its walks apart. For any count, the
  step numbers, or what shuffle makes of them, are split into an address and a port; and each pair
  has been handed out as often as Times says once the scan is through.
  */
  method LoopCb(c: Config, clock: seq<U64>, turns: seq<Turn>)
    returns (turn: nat, i: nat, sent: nat, probes: nat, handed: seq<Probe>, times: seq<U64>, now: U64)
    requires Runnable(c) && B.Monotone(clock) && |clock| >= 1
    ensures turn <= |turns| && (turn < |turns| ==> Stalled(c, clock, now))
    ensures Counted(turns, turn, Steps(c), i, sent, probes)
    ensures handed == Trace(c.targets, c.ports, c.count, Order(c), i)
    ensures |times| == sent + 1 && times[0] == clock[0] && now in clock
    ensures c.rate > 0 ==> Spaced(times, c.rate) && sent * B.MICROS <= (now - clock[0]) * c.rate
    ensures c.count == 1 && i == Steps(c) && Scannable(c.targets) && PortList(c.ports) ==>
              (EachPairOnce(handed, c.targets, c.ports)
               <==> (c.shuffle ==> Separates(S.Walk(Steps(c), c.seed), Steps(c))))
    ensures Scannable(c.targets) && PortList(c.ports) ==> forall k: nat :: k < i ==> SplitPair(c, k, handed[k])
    ensures (i == Steps(c) && Scannable(c.targets) && PortList(c.ports)
             && (c.shuffle ==> Separates(S.Walk(Steps(c), c.seed), Steps(c)))) ==> EachTimes(c, handed)
  {
    Counts(c);
    var tgtCnt := CountList(c.targets);
    var prtCnt := CountList(c.ports);
    var totCnt: U64 := (tgtCnt * prtCnt * c.count) % TWO64;
    var bucket := new B.Bucket.Init(c.rate, clock[0]);
    var rnd := new S.Shuffle.Init(totCnt, c.seed);
    turn, i, sent, probes, handed, times := SendLoop(c, rnd, bucket, tgtCnt, totCnt, clock, turns);
    now := bucket.timestamp;
    ghost var at :| Timing(c, clock, at, sent, times, now);
    TimingFacts(c, clock, at, sent, times, now);
    if c.count == 1 && Scannable(c.targets) && PortList(c.ports) {
      CompleteScanIff(c);
    }
    if Scannable(c.targets) && PortList(c.ports) {
      StepsSplit(c, i);
      if c.shuffle ==> Separates(S.Walk(Steps(c), c.seed), Steps(c)) {
        StepsTimes(c);
      }
    }
  }
}
