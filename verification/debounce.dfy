/**
 The debounce wrapper on a discrete clock. Each call cancels the timer the
 previous call set and starts a new one that runs out `delay` later; a call's
 timer therefore fires unless the next call arrives before it runs out.
 */
module Debounce {

  /** An invocation of the wrapped callback at `time` with argument `arg`. */
  datatype Call<A> = Call(time: int, arg: A)

  /** A delivery of `arg` to the underlying callback at `time`. */
  datatype Firing<A> = Firing(time: int, arg: A)

  /** The call at position `i` is cancelled by the next call, which came before its timer ran out. */
  predicate Superseded<A>(calls: seq<Call<A>>, delay: nat, i: int)
    requires 0 <= i < |calls|
  {
    i + 1 < |calls| && calls[i + 1].time < calls[i].time + delay
  }

  /** What the timer of call `i` delivers when it runs out. */
  function FiringOf<A>(calls: seq<Call<A>>, delay: nat, i: int): Firing<A>
    requires 0 <= i < |calls|
  {
    Firing(calls[i].time + delay, calls[i].arg)
  }

  /** Dropping the first call shifts every position by one. */
  lemma ShiftCalls<A>(calls: seq<Call<A>>, delay: nat, i: int)
    requires 1 <= i < |calls|
    ensures Superseded(calls[1..], delay, i - 1) == Superseded(calls, delay, i)
    ensures FiringOf(calls[1..], delay, i - 1) == FiringOf(calls, delay, i)
  {
  }

  /** Positions of the calls whose timers run out, in call order. */
  function Fired<A>(calls: seq<Call<A>>, delay: nat): (r: seq<nat>)
    ensures |r| <= |calls|
    ensures forall k :: 0 <= k < |r| ==> r[k] < |calls|
  {
    if |calls| == 0 then []
    else
      var rest := Fired(calls[1..], delay);
      (if Superseded(calls, delay, 0) then [] else [0])
        + seq(|rest|, k requires 0 <= k < |rest| => rest[k] + 1)
  }

  /** The fired positions are listed in strictly increasing order, so each at most once. */
  lemma {:induction false} FiredInCallOrder<A>(calls: seq<Call<A>>, delay: nat)
    ensures forall k, l :: 0 <= k < l < |Fired(calls, delay)| ==> Fired(calls, delay)[k] < Fired(calls, delay)[l]
    decreases |calls|
  {
    if |calls| > 0 {
      FiredInCallOrder(calls[1..], delay);
    }
  }

  /** Only calls that were not cancelled fire. */
  lemma {:induction false} FiredSound<A>(calls: seq<Call<A>>, delay: nat, k: int)
    requires 0 <= k < |Fired(calls, delay)|
    ensures !Superseded(calls, delay, Fired(calls, delay)[k])
    decreases |calls|
  {
    var head := if Superseded(calls, delay, 0) then [] else [0];
    if k >= |head| {
      var rest := Fired(calls[1..], delay);
      FiredSound(calls[1..], delay, k - |head|);
      ShiftCalls(calls, delay, rest[k - |head|] + 1);
    }
  }

  /** Every call that was not cancelled fires. */
  lemma {:induction false} FiredComplete<A>(calls: seq<Call<A>>, delay: nat, i: int)
    requires 0 <= i < |calls| && !Superseded(calls, delay, i)
    ensures i in Fired(calls, delay)
    decreases |calls|
  {
    if i > 0 {
      var rest := Fired(calls[1..], delay);
      var head := if Superseded(calls, delay, 0) then [] else [0];
      ShiftCalls(calls, delay, i);
      FiredComplete(calls[1..], delay, i - 1);
      var k :| 0 <= k < |rest| && rest[k] == i - 1;
      assert Fired(calls, delay)[|head| + k] == i;
    }
  }

  /** The deliveries the sequence of calls produces, in order, one per call whose timer runs out. */
  function Firings<A>(calls: seq<Call<A>>, delay: nat): (r: seq<Firing<A>>)
    ensures |r| == |Fired(calls, delay)|
  {
    if |calls| == 0 then []
    else (if Superseded(calls, delay, 0) then [] else [FiringOf(calls, delay, 0)]) + Firings(calls[1..], delay)
  }

  /**
   Delivery `k` is the one of the `k`-th fired call, so with the fired positions
   ascending no call is delivered twice and no two deliveries swap places.
   */
  lemma {:induction false} FiringsFollowFired<A>(calls: seq<Call<A>>, delay: nat)
    ensures forall k :: 0 <= k < |Firings(calls, delay)| ==>
      Firings(calls, delay)[k] == FiringOf(calls, delay, Fired(calls, delay)[k])
    decreases |calls|
  {
    if |calls| > 0 {
      FiringsFollowFired(calls[1..], delay);
      var rest := Fired(calls[1..], delay);
      var head := if Superseded(calls, delay, 0) then [] else [0];
      forall k | |head| <= k < |Firings(calls, delay)|
        ensures Firings(calls, delay)[k] == FiringOf(calls, delay, Fired(calls, delay)[k])
      {
        ShiftCalls(calls, delay, rest[k - |head|] + 1);
      }
    }
  }

  /** The last call is never cancelled, so it is the last position to fire. */
  lemma {:induction false} LastCallFired<A>(calls: seq<Call<A>>, delay: nat)
    requires |calls| > 0
    ensures |Fired(calls, delay)| > 0 && Fired(calls, delay)[|Fired(calls, delay)| - 1] == |calls| - 1
    decreases |calls|
  {
    if |calls| > 1 {
      LastCallFired(calls[1..], delay);
    }
  }

  /** Hence the last call's argument is the last one delivered, `delay` after that call. */
  lemma LastCallFires<A>(calls: seq<Call<A>>, delay: nat)
    requires |calls| > 0
    ensures |Firings(calls, delay)| > 0
    ensures Firings(calls, delay)[|Firings(calls, delay)| - 1] == FiringOf(calls, delay, |calls| - 1)
  {
    LastCallFired(calls, delay);
    FiringsFollowFired(calls, delay);
  }

  /**
   Every delivery is that of a call whose timer ran out: the argument of a call
   after which no further call arrived for `delay`, delivered `delay` after it.
   */
  lemma FiringsSound<A>(calls: seq<Call<A>>, delay: nat, k: int)
    requires 0 <= k < |Firings(calls, delay)|
    ensures exists i ::
      0 <= i < |calls| && !Superseded(calls, delay, i) && Firings(calls, delay)[k] == FiringOf(calls, delay, i)
  {
    FiredSound(calls, delay, k);
    FiringsFollowFired(calls, delay);
  }

  /** Every call whose timer runs out is delivered. */
  lemma FiringsComplete<A>(calls: seq<Call<A>>, delay: nat, i: int)
    requires 0 <= i < |calls| && !Superseded(calls, delay, i)
    ensures FiringOf(calls, delay, i) in Firings(calls, delay)
  {
    FiredComplete(calls, delay, i);
    var k :| 0 <= k < |Fired(calls, delay)| && Fired(calls, delay)[k] == i;
    FiringsFollowFired(calls, delay);
    assert Firings(calls, delay)[k] == FiringOf(calls, delay, i);
  }

  /** The calls are listed in the order the clock saw them. */
  predicate Chronological<A>(calls: seq<Call<A>>) {
    forall i, j :: 0 <= i < j < |calls| ==> calls[i].time <= calls[j].time
  }

  /** For calls listed in clock order, deliveries happen in clock order too. */
  lemma FiringTimesInOrder<A>(calls: seq<Call<A>>, delay: nat)
    requires Chronological(calls)
    ensures forall k, l :: 0 <= k < l < |Firings(calls, delay)| ==>
      Firings(calls, delay)[k].time <= Firings(calls, delay)[l].time
  {
    FiringsFollowFired(calls, delay);
    FiredInCallOrder(calls, delay);
  }

  /** Each call comes before the previous call's timer runs out. */
  predicate Burst<A>(calls: seq<Call<A>>, delay: nat) {
    forall i :: 0 <= i < |calls| - 1 ==> calls[i + 1].time < calls[i].time + delay
  }

  /** A burst of calls is delivered once, with the last call's argument, `delay` after it. */
  lemma {:induction false} BurstFiresOnce<A>(calls: seq<Call<A>>, delay: nat)
    requires |calls| > 0 && Burst(calls, delay)
    ensures Firings(calls, delay) == [FiringOf(calls, delay, |calls| - 1)]
  {
    if |calls| > 1 {
      var rest := calls[1..];
      assert Superseded(calls, delay, 0);
      BurstFiresOnce(rest, delay);
      assert FiringOf(rest, delay, |rest| - 1) == FiringOf(calls, delay, |calls| - 1);
    }
  }

  /** Two calls further apart than the delay are both delivered, in order. */
  lemma SpacedCallsFireTwice<A>(first: Call<A>, second: Call<A>, delay: nat)
    requires second.time >= first.time + delay
    ensures Firings([first, second], delay) ==
      [Firing(first.time + delay, first.arg), Firing(second.time + delay, second.arg)]
  {
    assert [first, second][1..] == [second];
  }
}
