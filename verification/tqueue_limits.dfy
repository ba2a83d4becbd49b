/** The bounds of the queue are exact: runs that reach them, and the one step that
    loses a wakeup. */
module TQueueLimits {
  import opened TQueue
  import opened TQueueRuns

  lemma {:induction false} RunSnoc(s: State, run: seq<Action>, a: Action)
    requires IsRun(s, run) && Enabled(After(s, run), a)
    ensures IsRun(s, run + [a]) && After(s, run + [a]) == Do(After(s, run), a)
    decreases |run|
  {
    if run == [] {
      assert [a][1..] == [];
    } else {
      assert (run + [a])[1..] == run[1..] + [a];
      RunSnoc(Do(s, run[0]), run[1..], a);
    }
  }

  /** One producer is idle, producers 1..k are woken and the others blocked; the
      queue holds n entries and nobody uses the other calls. */
  ghost predicate Shape(s: State, maxCount: nat, p: nat, idleFrom: nat, wokenFrom: nat, blockedFrom: nat, n: nat) {
    && |s.producers| == p && s.consumers == [Idle] && s.exits == 0
    && s.shared.maxCount == maxCount && |s.shared.queue| == n
    && (blockedFrom < p ==> s.shared.waitingFull > 0)
    && idleFrom <= wokenFrom <= blockedFrom <= p
    && (forall i :: 0 <= i < idleFrom ==> s.producers[i].Idle?)
    && (forall i :: idleFrom <= i < wokenFrom ==> s.producers[i].Woken?)
    && (forall i :: wokenFrom <= i < blockedFrom ==> s.producers[i].Idle?)
    && (forall i :: blockedFrom <= i < p ==> s.producers[i].Blocked?)
  }

  lemma Fill(maxCount: nat, p: nat) returns (run: seq<Action>)
    requires maxCount > 0 && p > 0
    ensures IsRun(Start(maxCount, p, 1), run) && WithoutSpurious(run)
    ensures Shape(After(Start(maxCount, p, 1), run), maxCount, p, p, p, p, maxCount)
  {
    var start := Start(maxCount, p, 1);
    run := [];
    assert start.consumers == [Idle];
    var n := 0;
    while n < maxCount
      invariant n <= maxCount && IsRun(start, run) && WithoutSpurious(run)
      invariant Shape(After(start, run), maxCount, p, p, p, p, n)
    {
      var s := After(start, run);
      assert Blocks(s.consumers) == 0;
      RunSnoc(start, run, DoPushEnter(0, n, 0));
      run := run + [DoPushEnter(0, n, 0)];
      n := n + 1;
    }
  }

  /** All producers but the first run into the full queue, from the last on. */
  lemma Block(maxCount: nat, p: nat) returns (run: seq<Action>)
    requires maxCount > 0 && p > 0
    ensures IsRun(Start(maxCount, p, 1), run) && WithoutSpurious(run)
    ensures Shape(After(Start(maxCount, p, 1), run), maxCount, p, 1, 1, 1, maxCount)
  {
    var start := Start(maxCount, p, 1);
    run := Fill(maxCount, p);
    var k := p;
    while k > 1
      invariant 1 <= k <= p && IsRun(start, run) && WithoutSpurious(run)
      invariant Shape(After(start, run), maxCount, p, k, k, k, maxCount)
    {
      var s := After(start, run);
      assert Blocks(s.consumers) == 0;
      RunSnoc(start, run, DoPushEnter(k - 1, 0, 0));
      run := run + [DoPushEnter(k - 1, 0, 0)];
      k := k - 1;
    }
  }

  /** Each pop wakes one blocked producer, and the first producer fills the gap
      before that one runs. */
  lemma WakeAll(maxCount: nat, p: nat) returns (run: seq<Action>)
    requires maxCount > 0 && p > 0
    ensures IsRun(Start(maxCount, p, 1), run) && WithoutSpurious(run)
    ensures Shape(After(Start(maxCount, p, 1), run), maxCount, p, 1, p, p, maxCount)
  {
    var start := Start(maxCount, p, 1);
    run := Block(maxCount, p);
    var k := 1;
    while k < p
      invariant 1 <= k <= p && IsRun(start, run) && WithoutSpurious(run)
      invariant Shape(After(start, run), maxCount, p, 1, k, k, maxCount)
    {
      var s := After(start, run);
      RunSnoc(start, run, DoPopEnter(0, k));
      run := run + [DoPopEnter(0, k)];
      var t := After(start, run);
      assert t.producers == s.producers[k := Woken(s.producers[k].d)];
      assert Blocks(t.consumers) == 0;
      RunSnoc(start, run, DoPushEnter(0, 0, 0));
      run := run + [DoPushEnter(0, 0, 0)];
      k := k + 1;
    }
  }

  /** The capacity bound is reached for every limit and every number of producers. */
  lemma CapacityIsReached(maxCount: nat, p: nat) returns (run: seq<Action>)
    requires maxCount > 0 && p > 0
    ensures IsRun(Start(maxCount, p, 1), run) && WithoutSpurious(run)
    ensures After(Start(maxCount, p, 1), run).exits == 0
    ensures |After(Start(maxCount, p, 1), run).shared.queue| == maxCount + p - 1
  {
    var start := Start(maxCount, p, 1);
    run := WakeAll(maxCount, p);
    var k := p;
    while k > 1
      invariant 1 <= k <= p && IsRun(start, run) && WithoutSpurious(run)
      invariant Shape(After(start, run), maxCount, p, 1, k, p, maxCount + p - k)
    {
      var s := After(start, run);
      assert Blocks(s.consumers) == 0;
      RunSnoc(start, run, DoPushResume(k - 1, 0));
      run := run + [DoPushResume(k - 1, 0)];
      k := k - 1;
    }
  }

  /** A blocked producer has its wakeup: the queue and the woken producers together
      reach the limit. */
  ghost predicate ProducerWakeupKept(s: State) {
    Blocks(s.producers) > 0 ==> |s.shared.queue| + Wakes(s.producers) >= s.shared.maxCount
  }

  /** The one action that loses a producer's wakeup, and exactly when it does: a
      non-blocking pop of a queue whose entries and woken producers just reach the
      limit while a producer is blocked. */
  lemma LosesWakeup(s: State, a: Action)
    requires ConsumersServed(s) && Enabled(s, a) && ProducerWakeupKept(s)
    requires Blocks(s.producers) > 0 ==> s.shared.waitingFull > 0 && s.shared.maxCount > 0
    ensures ProducerWakeupKept(Do(s, a)) <==>
            !(a.DoPopNonBlocking? && s.shared.queue != [] && Blocks(s.producers) > 0
              && |s.shared.queue| + Wakes(s.producers) == s.shared.maxCount)
  {
    match a {
      case DoPushEnter(i, d, _) => CountUpdate(s.producers, i, Blocked(d));
      case DoPushResume(i, _) => CountUpdate(s.producers, i, Idle);
      case DoPopEnter(_, w) => WakeCounts(s.producers, SignalFull(s.shared), w);
      case DoPopResume(_, w) => WakeCounts(s.producers, SignalFull(s.shared), w);
      case SpuriousProducer(i) => CountUpdate(s.producers, i, Woken(s.producers[i].d));
      case _ =>
    }
  }

  /** Nobody can wake a producer but a blocking pop: it stays blocked as long as no
      consumer acts and its wait does not end by itself. */
  lemma {:induction false} StaysBlocked(s: State, more: seq<Action>, i: nat)
    requires IsRun(s, more) && WithoutSpurious(more) && |s.consumers| == 0
    requires i < |s.producers| && s.producers[i].Blocked?
    ensures var t := After(s, more); |t.producers| == |s.producers| && t.producers[i] == s.producers[i]
    decreases |more|
  {
    if more != [] {
      assert !IsSpurious(more[0]);
      forall k | 0 <= k < |more[1..]| ensures !IsSpurious(more[1..][k]) {
        assert more[1..][k] == more[k + 1];
      }
      StaysBlocked(Do(s, more[0]), more[1..], i);
    }
  }

  /** A run that loses one: the queue is empty, and the producer waits for a signal
      that only a blocking pop can send.  Whatever happens afterwards, it stays
      blocked, but for a spurious wakeup. */
  lemma LostWakeupRun() returns (run: seq<Action>)
    ensures IsRun(Start(1, 1, 0), run) && WithoutSpurious(run)
    ensures var t := After(Start(1, 1, 0), run);
            && t.shared.queue == [] && t.producers == [Blocked(8)] && !ProducerWakeupKept(t)
            && forall more :: IsRun(t, more) && WithoutSpurious(more) ==> After(t, more).producers == [Blocked(8)]
  {
    var s0 := Start(1, 1, 0);
    run := [];
    RunSnoc(s0, run, DoPushEnter(0, 7, 0));
    run := run + [DoPushEnter(0, 7, 0)];
    RunSnoc(s0, run, DoPushEnter(0, 8, 0));
    run := run + [DoPushEnter(0, 8, 0)];
    RunSnoc(s0, run, DoPopNonBlocking);
    run := run + [DoPopNonBlocking];
    assert After(s0, run).producers == [Blocked(8)];
    assert [Blocked(8)][1..] == [];
    var t := After(s0, run);
    forall more | IsRun(t, more) && WithoutSpurious(more) ensures After(t, more).producers == [Blocked(8)] {
      StaysBlocked(t, more, 0);
    }
  }
}
