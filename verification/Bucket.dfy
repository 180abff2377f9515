/** The token bucket, with exact arithmetic in place of doubles. */
module Bucket {
  import opened Words

  const MICROS: int := 1000000

  /** A clock trace: successive readings of time_now, which never go back. */
  predicate Monotone(clock: seq<U64>) {
    forall i, j :: 0 <= i <= j < |clock| ==> clock[i] <= clock[j]
  }

  /** The tokens that accrue between two readings. */
  function Accrued(since: U64, now: U64, rate: U64): real {
    (((now - since) % TWO64) as real / MICROS as real) * rate as real
  }

  /** The bucket never holds more than one second's worth. */
  function Capped(tokens: real, rate: U64): real {
    if tokens > rate as real then rate as real else tokens
  }

  /** At least one token has accrued. */
  predicate Ready(since: U64, now: U64, rate: U64) {
    (now - since) * rate >= MICROS
  }

  lemma ReadyIff(since: U64, now: U64, rate: U64)
    requires since <= now
    ensures Accrued(since, now, rate) >= 1.0 <==> Ready(since, now, rate)
  {
    var d := now - since;
    assert d % TWO64 == d;
    var x := Accrued(since, now, rate);
    assert x * MICROS as real == d as real * rate as real;
    assert d as real * rate as real == (d * rate) as real;
  }

  class Bucket {
    var tokens: real
    var rate: U64
    var timestamp: U64

    constructor Init(rate: U64, now: U64)
      ensures this.rate == rate && tokens == rate as real && timestamp == now
    {
      this.rate, tokens, timestamp := rate, rate as real, now;
    }

    /**
    bucket_consume: reads the clock from position at until a token has accrued. The result
    next is the first unread position; done is false if the trace ended before that.
    */
    method Consume(clock: seq<U64>, at: nat) returns (next: nat, done: bool)
      requires Monotone(clock) && at <= |clock|
      requires forall i :: at <= i < |clock| ==> timestamp <= clock[i]
      modifies this`tokens, this`timestamp
      ensures at <= next <= |clock|
      ensures rate == 0 ==> done && next == at && tokens == old(tokens) && timestamp == old(timestamp)
      ensures rate > 0 && done ==> at < next && timestamp == clock[next - 1] && Ready(old(timestamp), timestamp, rate)
      ensures rate > 0 ==> forall i :: at <= i < (if done then next - 1 else next) ==>
                !Ready(old(timestamp), clock[i], rate)
      ensures rate > 0 && done ==> tokens == Capped(old(tokens) + Accrued(old(timestamp), timestamp, rate), rate)
      ensures rate > 0 && done && old(tokens) >= rate as real - 1.0 ==> tokens == rate as real
      ensures !done ==> next == |clock| && tokens == old(tokens) && timestamp == old(timestamp)
    {
      hide Ready, Accrued, Monotone;
      next, done := at, true;
      if rate == 0 {
        return;
      }
      var now, accrued := timestamp, 0.0;
      while true
        invariant at <= next <= |clock| && done
        invariant timestamp == old(timestamp) && tokens == old(tokens)
        invariant forall i :: at <= i < next ==> !Ready(timestamp, clock[i], rate)
        decreases |clock| - next
      {
        if next == |clock| {
          done := false;
          return;
        }
        now := clock[next];
        next := next + 1;
        accrued := Accrued(timestamp, now, rate);
        ReadyIff(timestamp, now, rate);
        if accrued >= 1.0 {
          break;
        }
      }
      tokens := tokens + accrued;
      if tokens > rate as real {
        tokens := rate as real;
      }
      timestamp := now;
    }
  }
}
