/** All interleavings of threads on one queue. */
module TQueueRuns {
  import opened TQueue

  // ----- threads -----

  /** A thread is outside of a call, blocked in a wait, or woken and about to take
      the mutex again; d is what a blocked producer wants to push. */
  datatype Pc = Idle | Blocked(d: int) | Woken(d: int)

  function Blocks(s: seq<Pc>): nat {
    if s == [] then 0 else (if s[0].Blocked? then 1 else 0) + Blocks(s[1..])
  }

  function Wakes(s: seq<Pc>): nat {
    if s == [] then 0 else (if s[0].Woken? then 1 else 0) + Wakes(s[1..])
  }

  lemma {:induction false} CountUpdate(s: seq<Pc>, i: nat, p: Pc)
    requires i < |s|
    ensures Blocks(s[i := p]) == Blocks(s) - (if s[i].Blocked? then 1 else 0) + (if p.Blocked? then 1 else 0)
    ensures Wakes(s[i := p]) == Wakes(s) - (if s[i].Woken? then 1 else 0) + (if p.Woken? then 1 else 0)
  {
    var t := s[i := p];
    if i == 0 {
      assert t[1..] == s[1..];
    } else {
      assert t[1..] == s[1..][i - 1 := p];
      CountUpdate(s[1..], i - 1, p);
    }
  }

  lemma {:induction false} CountBound(s: seq<Pc>)
    ensures Blocks(s) + Wakes(s) <= |s|
    ensures forall i :: 0 <= i < |s| && s[i].Idle? ==> Blocks(s) + Wakes(s) < |s|
    ensures Blocks(s) == 0 <==> forall i :: 0 <= i < |s| ==> !s[i].Blocked?
  {
    if s != [] {
      CountBound(s[1..]);
      assert forall i :: 1 <= i < |s| ==> s[i] == s[1..][i - 1];
    }
  }

  // ----- states and actions -----

  /** The queue, its threads, and the history: data pushed and popped in lock order,
      the exit messages pushed so far, the entries that non-blocking pops took, and the
      exit messages that pops took. */
  datatype State = State(
    shared: Shared, producers: seq<Pc>, consumers: seq<Pc>,
    pushed: seq<int>, popped: seq<int>, exits: nat, steals: nat, taken: nat)

  /** w is the waiter that a signal of the action wakes. */
  datatype Action =
    | DoPushEnter(i: nat, d: int, w: nat)
    | DoPushResume(i: nat, w: nat)
    | DoPushFail(i: nat, d: int, w: nat)
    | DoPushExit(w: nat)
    | DoPopEnter(j: nat, w: nat)
    | DoPopResume(j: nat, w: nat)
    | DoPopNonBlocking
    | SpuriousProducer(i: nat)
    | SpuriousConsumer(j: nat)

  function Start(maxCount: nat, producers: nat, consumers: nat): State {
    State(Shared([], maxCount, 0, 0), seq(producers, _ => Idle), seq(consumers, _ => Idle), [], [], 0, 0, 0)
  }

  /** A signal wakes one blocked thread if there is any. */
  predicate MayWake(s: seq<Pc>, w: nat) {
    Blocks(s) > 0 ==> w < |s| && s[w].Blocked?
  }

  function Wake(s: seq<Pc>, e: Ending, w: nat): (t: seq<Pc>)
    ensures |t| == |s|
  {
    if e == Signal && w < |s| && s[w].Blocked? then s[w := Woken(s[w].d)] else s
  }

  predicate Enabled(s: State, a: Action) {
    match a
    case DoPushEnter(i, _, w) => i < |s.producers| && s.producers[i].Idle? && MayWake(s.consumers, w)
    case DoPushResume(i, w) => i < |s.producers| && s.producers[i].Woken? && MayWake(s.consumers, w)
    case DoPushFail(i, _, w) => i < |s.producers| && s.producers[i].Idle? && MayWake(s.consumers, w)
    case DoPushExit(w) => MayWake(s.consumers, w)
    case DoPopEnter(j, w) => j < |s.consumers| && s.consumers[j].Idle? && MayWake(s.producers, w)
    case DoPopResume(j, w) =>
      j < |s.consumers| && s.consumers[j].Woken? && s.shared.waitingEmpty > 0 && MayWake(s.producers, w)
    case DoPopNonBlocking => true
    case SpuriousProducer(i) => i < |s.producers| && s.producers[i].Blocked?
    case SpuriousConsumer(j) => j < |s.consumers| && s.consumers[j].Blocked?
  }

  function Data(q: seq<Entry>): seq<int> {
    if q == [] then [] else (if q[0].Item? then [q[0].data] else []) + Data(q[1..])
  }

  /** The data in the entry that a pop takes. */
  function Taken(s: Shared): seq<int> {
    if s.queue == [] then [] else Data(s.queue[..1])
  }

  /** Whether that is an exit message. */
  function TakenExits(s: Shared): nat {
    if s.queue != [] && s.queue[0].Exit? then 1 else 0
  }

  function Do(s: State, a: Action): State
    requires Enabled(s, a)
  {
    match a
    case DoPushEnter(i, d, w) =>
      var (q, e) := PushEnter(s.shared, d);
      if e == Wait then s.(shared := q, producers := s.producers[i := Blocked(d)])
      else s.(shared := q, consumers := Wake(s.consumers, e, w), pushed := s.pushed + [d])
    case DoPushResume(i, w) =>
      var d := s.producers[i].d;
      var (q, e) := PushResume(s.shared, d);
      s.(shared := q, producers := s.producers[i := Idle],
         consumers := Wake(s.consumers, e, w), pushed := s.pushed + [d])
    case DoPushFail(i, d, w) =>
      var (q, e, rc) := PushFail(s.shared, d);
      if rc != 0 then s
      else s.(shared := q, consumers := Wake(s.consumers, e, w), pushed := s.pushed + [d])
    case DoPushExit(w) =>
      var (q, e) := PushExit(s.shared);
      s.(shared := q, consumers := Wake(s.consumers, e, w), exits := s.exits + 1)
    case DoPopEnter(j, w) =>
      var (q, e) := PopEnter(s.shared);
      if e == Wait then s.(shared := q, consumers := s.consumers[j := Blocked(0)])
      else s.(shared := q, producers := Wake(s.producers, e, w), popped := s.popped + Taken(s.shared),
              taken := s.taken + TakenExits(s.shared))
    case DoPopResume(j, w) =>
      var (q, e) := PopResume(s.shared);
      s.(shared := q, consumers := s.consumers[j := Idle], producers := Wake(s.producers, e, w),
         popped := s.popped + Taken(s.shared), taken := s.taken + TakenExits(s.shared))
    case DoPopNonBlocking =>
      s.(shared := PopBack(s.shared), popped := s.popped + Taken(s.shared), taken := s.taken + TakenExits(s.shared),
         steals := s.steals + if s.shared.queue == [] then 0 else 1)
    case SpuriousProducer(i) => s.(producers := s.producers[i := Woken(s.producers[i].d)])
    case SpuriousConsumer(j) => s.(consumers := s.consumers[j := Woken(s.consumers[j].d)])
  }

  /** A run is any finite list of actions, each enabled when it happens. */
  predicate IsRun(s: State, run: seq<Action>)
    decreases |run|
  {
    run == [] || (Enabled(s, run[0]) && IsRun(Do(s, run[0]), run[1..]))
  }

  function After(s: State, run: seq<Action>): State
    requires IsRun(s, run)
    decreases |run|
  {
    if run == [] then s else After(Do(s, run[0]), run[1..])
  }

  lemma WakeCounts(s: seq<Pc>, e: Ending, w: nat)
    requires MayWake(s, w)
    ensures var t := Wake(s, e, w);
            && Blocks(t) + Wakes(t) == Blocks(s) + Wakes(s)
            && Wakes(t) == Wakes(s) + if e == Signal && Blocks(s) > 0 then 1 else 0
  {
    CountBound(s);
    if e == Signal && w < |s| && s[w].Blocked? {
      CountUpdate(s, w, Woken(s[w].d));
    }
  }

  // ----- no lost wakeup -----

  /** The counter of waiting consumers is exact, and as long as a consumer is
      blocked there are at least as many woken ones as entries. */
  ghost predicate ConsumersServed(s: State) {
    && s.shared.waitingEmpty == Blocks(s.consumers) + Wakes(s.consumers)
    && (Blocks(s.consumers) > 0 ==> |s.shared.queue| <= Wakes(s.consumers))
  }

  lemma ConsumersServedStep(s: State, a: Action)
    requires ConsumersServed(s) && Enabled(s, a)
    ensures ConsumersServed(Do(s, a))
  {
    hide Blocks, Wakes, Data, Taken, Wake;
    match a {
      case DoPushEnter(_, d, w) => WakeCounts(s.consumers, SignalEmpty(s.shared), w);
      case DoPushResume(_, w) => WakeCounts(s.consumers, SignalEmpty(s.shared), w);
      case DoPushFail(_, _, w) => WakeCounts(s.consumers, SignalEmpty(s.shared), w);
      case DoPushExit(w) => WakeCounts(s.consumers, SignalEmpty(s.shared), w);
      case DoPopEnter(j, _) => CountUpdate(s.consumers, j, Blocked(0));
      case DoPopResume(j, _) => CountUpdate(s.consumers, j, Idle);
      case SpuriousConsumer(j) => CountUpdate(s.consumers, j, Woken(s.consumers[j].d));
      case _ =>
    }
  }

  /** Producers, with the entries that non-blocking pops took on account: such a pop
      does not signal. */
  ghost predicate ProducersServed(s: State) {
    Blocks(s.producers) > 0 ==>
      s.shared.waitingFull > 0 && |s.shared.queue| + Wakes(s.producers) + s.steals >= s.shared.maxCount > 0
  }

  lemma ProducersServedStep(s: State, a: Action)
    requires ProducersServed(s) && Enabled(s, a)
    ensures ProducersServed(Do(s, a))
  {
    hide Blocks, Wakes, Data, Taken, Wake;
    match a {
      case DoPushEnter(i, d, _) => CountUpdate(s.producers, i, Blocked(d));
      case DoPushResume(i, _) => CountUpdate(s.producers, i, Idle);
      case DoPopEnter(_, w) => WakeCounts(s.producers, SignalFull(s.shared), w);
      case DoPopResume(_, w) => WakeCounts(s.producers, SignalFull(s.shared), w);
      case SpuriousProducer(i) => CountUpdate(s.producers, i, Woken(s.producers[i].d));
      case _ =>
    }
  }

  // ----- order and capacity -----

  /** Exit messages are a block at the pop end. */
  predicate ExitsFirst(q: seq<Entry>) {
    forall i, j :: 0 <= i < j < |q| && q[j].Exit? ==> q[i].Exit?
  }

  ghost predicate InOrder(s: State) {
    s.popped + Data(s.shared.queue) == s.pushed && ExitsFirst(s.shared.queue)
  }

  lemma {:induction false} DataAppend(a: seq<Entry>, b: seq<Entry>)
    ensures Data(a + b) == Data(a) + Data(b)
  {
    if a == [] {
      assert [] + b == b;
    } else {
      assert (a + b)[0] == a[0] && (a + b)[1..] == a[1..] + b;
      DataAppend(a[1..], b);
      var first := if a[0].Item? then [a[0].data] else [];
      assert Data(a + b) == first + (Data(a[1..]) + Data(b));
      assert Data(a) == first + Data(a[1..]);
    }
  }

  lemma PushKeepsOrder(popped: seq<int>, q: seq<Entry>, d: int, pushed: seq<int>)
    requires popped + Data(q) == pushed && ExitsFirst(q)
    ensures popped + Data(q + [Item(d)]) == pushed + [d] && ExitsFirst(q + [Item(d)])
  {
    DataAppend(q, [Item(d)]);
    assert Data([Item(d)]) == [d];
    assert popped + (Data(q) + [d]) == (popped + Data(q)) + [d];
  }

  lemma PopKeepsOrder(s: Shared, popped: seq<int>)
    ensures (popped + Taken(s)) + Data(PopBack(s).queue) == popped + Data(s.queue)
    ensures ExitsFirst(s.queue) ==> ExitsFirst(PopBack(s).queue)
  {
    var q := s.queue;
    if q != [] {
      assert q[..1][1..] == [];
      assert Data(q) == Data(q[..1]) + Data(q[1..]);
      assert (popped + Data(q[..1])) + Data(q[1..]) == popped + (Data(q[..1]) + Data(q[1..]));
    }
  }

  lemma ExitKeepsOrder(q: seq<Entry>)
    ensures Data([Exit] + q) == Data(q)
    ensures ExitsFirst(q) ==> ExitsFirst([Exit] + q)
  {
    assert ([Exit] + q)[1..] == q;
    assert [] + Data(q) == Data(q);
  }

  lemma InOrderStep(s: State, a: Action)
    requires InOrder(s) && Enabled(s, a)
    ensures InOrder(Do(s, a))
  {
    hide Data, ExitsFirst, Taken, Wake;
    var q := s.shared.queue;
    match a {
      case DoPushEnter(_, d, _) => PushKeepsOrder(s.popped, q, d, s.pushed);
      case DoPushResume(i, _) => PushKeepsOrder(s.popped, q, s.producers[i].d, s.pushed);
      case DoPushFail(_, d, _) => PushKeepsOrder(s.popped, q, d, s.pushed);
      case DoPushExit(_) => ExitKeepsOrder(q);
      case DoPopEnter(_, _) => PopKeepsOrder(s.shared, s.popped);
      case DoPopResume(_, _) =>
        PopKeepsOrder(s.shared, s.popped);
      case DoPopNonBlocking => PopKeepsOrder(s.shared, s.popped);
      case _ =>
    }
  }

  // ----- exit messages -----

  function ExitsIn(q: seq<Entry>): nat {
    if q == [] then 0 else (if q[0].Exit? then 1 else 0) + ExitsIn(q[1..])
  }

  lemma {:induction false} ExitsAppend(q: seq<Entry>, e: Entry)
    ensures ExitsIn(q + [e]) == ExitsIn(q) + if e.Exit? then 1 else 0
  {
    if q == [] {
      assert [] + [e] == [e] && ExitsIn([e][1..]) == 0;
    } else {
      assert (q + [e])[0] == q[0] && (q + [e])[1..] == q[1..] + [e];
      ExitsAppend(q[1..], e);
    }
  }

  lemma {:induction false} ExitFound(q: seq<Entry>) returns (i: nat)
    requires ExitsIn(q) > 0
    ensures i < |q| && q[i].Exit?
  {
    if q[0].Exit? {
      i := 0;
    } else {
      i := ExitFound(q[1..]);
      i := i + 1;
    }
  }

  /** An exit message is in the queue, or a pop took it. */
  ghost predicate ExitsKept(s: State) {
    ExitsIn(s.shared.queue) + s.taken == s.exits
  }

  lemma ExitsKeptStep(s: State, a: Action)
    requires ExitsKept(s) && Enabled(s, a)
    ensures ExitsKept(Do(s, a)) && Do(s, a).exits == s.exits + if a.DoPushExit? then 1 else 0
  {
    hide Data, Taken, Wake, Blocks, MayWake;
    var q := s.shared.queue;
    match a {
      case DoPushEnter(_, d, _) => ExitsAppend(q, Item(d));
      case DoPushResume(i, _) => ExitsAppend(q, Item(s.producers[i].d));
      case DoPushFail(_, d, _) => ExitsAppend(q, Item(d));
      case DoPushExit(_) => assert ([Exit] + q)[1..] == q;
      case _ =>
    }
  }

  /** How many exit messages a run pushes. */
  function ExitPushes(run: seq<Action>): nat {
    if run == [] then 0 else (if run[0].DoPushExit? then 1 else 0) + ExitPushes(run[1..])
  }

  lemma {:induction false} RunKeepsExits(s: State, run: seq<Action>)
    requires ExitsKept(s) && IsRun(s, run)
    ensures ExitsKept(After(s, run)) && After(s, run).exits == s.exits + ExitPushes(run)
    decreases |run|
  {
    if run != [] {
      ExitsKeptStep(s, run[0]);
      RunKeepsExits(Do(s, run[0]), run[1..]);
    }
  }

  /** In every interleaving each exit message that was pushed is in the queue, or was taken
      by a pop. */
  lemma ExitsConserved(maxCount: nat, producers: nat, consumers: nat, run: seq<Action>)
    requires IsRun(Start(maxCount, producers, consumers), run)
    ensures var t := After(Start(maxCount, producers, consumers), run);
            ExitsIn(t.shared.queue) + t.taken == ExitPushes(run)
  {
    RunKeepsExits(Start(maxCount, producers, consumers), run);
  }

  /** And as long as one is in the queue, that is what a pop takes. */
  lemma ExitsGoFirst(maxCount: nat, producers: nat, consumers: nat, run: seq<Action>, a: Action)
    requires IsRun(Start(maxCount, producers, consumers), run)
    requires var s := After(Start(maxCount, producers, consumers), run);
             && Enabled(s, a) && ExitsIn(s.shared.queue) > 0
             && (a.DoPopEnter? || a.DoPopResume? || a.DoPopNonBlocking?)
    ensures var s := After(Start(maxCount, producers, consumers), run);
            Do(s, a).taken == s.taken + 1 && Do(s, a).popped == s.popped
            && Do(s, a).shared.queue == s.shared.queue[1..]
  {
    hide IsRun, After, Wake, Blocks, MayWake;
    var s := After(Start(maxCount, producers, consumers), run);
    FifoHistory(maxCount, producers, consumers, run);
    var i := ExitFound(s.shared.queue);
    var q := s.shared.queue;
    assert i > 0 ==> q[0].Exit?;
    assert q[..1] == [Exit] && [Exit][1..] == [];
  }

  /** Pushing an exit message wakes a consumer if one is blocked; when that one takes the
      mutex next, its pop returns the message, and the queue is as before. */
  lemma ExitWakes(s: State, w: nat, w': nat)
    requires ConsumersServed(s) && Enabled(s, DoPushExit(w)) && Blocks(s.consumers) > 0
    ensures var t := Do(s, DoPushExit(w));
            && t.shared.queue == [Exit] + s.shared.queue && Wakes(t.consumers) == Wakes(s.consumers) + 1
            && w < |t.consumers| && t.consumers[w].Woken?
            && (MayWake(t.producers, w') ==>
                  && Enabled(t, DoPopResume(w, w'))
                  && var u := Do(t, DoPopResume(w, w'));
                     && u.taken == s.taken + 1 && u.popped == s.popped && u.shared.queue == s.shared.queue
                     && u.consumers == s.consumers[w := Idle])
  {
    hide Blocks, Wakes;
    WakeCounts(s.consumers, SignalEmpty(s.shared), w);
    var t := Do(s, DoPushExit(w));
    assert t.shared.queue[..1] == [Exit] && Data([Exit]) == [] by {
      assert [Exit][1..] == [];
    }
  }

  // ----- pushes -----

  /** What a push does with its datum: below the limit, or without one, it is the last in
      the queue; else a blocking push blocks with it, and the other one is refused. */
  lemma PushArrives(s: State, a: Action)
    requires Enabled(s, a) && (a.DoPushEnter? || a.DoPushFail?)
    ensures var t := Do(s, a);
            if s.shared.maxCount == 0 || |s.shared.queue| < s.shared.maxCount then
              && t.shared.queue == s.shared.queue + [Item(a.d)] && t.pushed == s.pushed + [a.d]
              && t.producers == s.producers
            else
              && t.shared.queue == s.shared.queue && t.pushed == s.pushed && t.consumers == s.consumers
              && t.producers == if a.DoPushEnter? then s.producers[a.i := Blocked(a.d)] else s.producers
  {
    hide Blocks, Wake, MayWake;
    match a
    case DoPushEnter(_, _, _) =>
    case DoPushFail(_, _, _) =>
  }

  /** With waits that end only by a signal the queue can pass the limit, but by less
      than the number of producers, exit messages not counted. */
  ghost predicate Bounded(s: State) {
    var p := |s.producers|;
    s.shared.maxCount > 0 ==>
      |s.shared.queue| + Wakes(s.producers) <= s.shared.maxCount + s.exits + if p == 0 then 0 else p - 1
  }

  predicate IsSpurious(a: Action) {
    a.SpuriousProducer?
  }

  lemma BoundedStep(s: State, a: Action)
    requires Bounded(s) && Enabled(s, a) && !IsSpurious(a)
    ensures Bounded(Do(s, a))
  {
    hide Blocks, Wakes, Data, Taken;
    CountBound(s.producers);
    match a {
      case DoPushEnter(i, d, _) => CountUpdate(s.producers, i, Blocked(d));
      case DoPushResume(i, _) => CountUpdate(s.producers, i, Idle);
      case DoPopEnter(_, w) =>
        WakeCounts(s.producers, SignalFull(s.shared), w);
      case DoPopResume(_, w) =>
        WakeCounts(s.producers, SignalFull(s.shared), w);
        CountBound(Do(s, a).producers);
      case _ =>
    }
  }

  // ----- every run -----

  lemma StartHolds(maxCount: nat, producers: nat, consumers: nat)
    ensures var s := Start(maxCount, producers, consumers);
            ConsumersServed(s) && ProducersServed(s) && InOrder(s) && Bounded(s)
  {
    var s := Start(maxCount, producers, consumers);
    CountBound(s.producers);
    CountBound(s.consumers);
    NobodyWoken(s.producers);
    NobodyWoken(s.consumers);
  }

  lemma {:induction false} NobodyWoken(s: seq<Pc>)
    requires forall i :: 0 <= i < |s| ==> s[i].Idle?
    ensures Wakes(s) == 0
  {
    if s != [] {
      NobodyWoken(s[1..]);
    }
  }

  lemma {:induction false} RunKeeps(s: State, run: seq<Action>)
    requires ConsumersServed(s) && ProducersServed(s) && InOrder(s) && IsRun(s, run)
    ensures var t := After(s, run); ConsumersServed(t) && ProducersServed(t) && InOrder(t)
    decreases |run|
  {
    if run != [] {
      ConsumersServedStep(s, run[0]);
      ProducersServedStep(s, run[0]);
      InOrderStep(s, run[0]);
      RunKeeps(Do(s, run[0]), run[1..]);
    }
  }

  /** No wakeup of a consumer is lost in any interleaving, and no wakeup of a
      producer as long as nobody pops without blocking: each such pop can cost at
      most one.  Spurious wakeups are allowed. */
  lemma NoLostWakeup(maxCount: nat, producers: nat, consumers: nat, run: seq<Action>)
    requires IsRun(Start(maxCount, producers, consumers), run)
    ensures var t := After(Start(maxCount, producers, consumers), run);
            && (Blocks(t.consumers) > 0 ==> |t.shared.queue| <= Wakes(t.consumers))
            && (Blocks(t.producers) > 0 ==> |t.shared.queue| + Wakes(t.producers) + t.steals >= maxCount)
  {
    StartHolds(maxCount, producers, consumers);
    RunKeeps(Start(maxCount, producers, consumers), run);
    KeepsLimit(Start(maxCount, producers, consumers), run);
  }

  lemma {:induction false} KeepsLimit(s: State, run: seq<Action>)
    requires IsRun(s, run)
    ensures After(s, run).shared.maxCount == s.shared.maxCount && |After(s, run).producers| == |s.producers|
    decreases |run|
  {
    if run != [] {
      KeepsLimit(Do(s, run[0]), run[1..]);
    }
  }

  /** In every interleaving what was popped, followed by what is still queued, is
      what was pushed, in lock order; exit messages are a block at the pop end. */
  lemma FifoHistory(maxCount: nat, producers: nat, consumers: nat, run: seq<Action>)
    requires IsRun(Start(maxCount, producers, consumers), run)
    ensures var t := After(Start(maxCount, producers, consumers), run);
            t.popped + Data(t.shared.queue) == t.pushed && ExitsFirst(t.shared.queue)
  {
    StartHolds(maxCount, producers, consumers);
    RunKeeps(Start(maxCount, producers, consumers), run);
  }

  ghost predicate WithoutSpurious(run: seq<Action>) {
    forall i :: 0 <= i < |run| ==> !IsSpurious(run[i])
  }

  lemma {:induction false} RunBounded(s: State, run: seq<Action>)
    requires Bounded(s) && IsRun(s, run) && WithoutSpurious(run)
    ensures Bounded(After(s, run))
    decreases |run|
  {
    if run != [] {
      BoundedStep(s, run[0]);
      RunBounded(Do(s, run[0]), run[1..]);
    }
  }

  /** The capacity that the queue really keeps: a woken producer does not look at
      the size again, so the limit can be passed by one less than the number of
      producers. */
  lemma RealCapacity(maxCount: nat, producers: nat, consumers: nat, run: seq<Action>)
    requires IsRun(Start(maxCount, producers, consumers), run) && WithoutSpurious(run)
    requires maxCount > 0
    ensures var t := After(Start(maxCount, producers, consumers), run);
            |t.shared.queue| <= maxCount + t.exits + if producers == 0 then 0 else producers - 1
  {
    StartHolds(maxCount, producers, consumers);
    RunBounded(Start(maxCount, producers, consumers), run);
    KeepsLimit(Start(maxCount, producers, consumers), run);
  }
}
