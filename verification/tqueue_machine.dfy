/** The queue object under a schedule: the regions as methods on the linked list, with
    the threads beside it. */
module TQueueMachine {
  import DList
  import opened Links
  import opened TQueue
  import opened TQueueRuns

  class Machine {
    const queue: Queue
    var producers: seq<Pc>
    var consumers: seq<Pc>
    /** The data that the pops returned. */
    var popped: seq<int>
    /** How many exit messages they returned. */
    var exits: nat

    constructor (maxCount: nat, producers: nat, consumers: nat)
      ensures Shows(Start(maxCount, producers, consumers))
      ensures fresh(queue) && fresh(queue.list) && queue.nodes == []
    {
      queue := new Queue(maxCount);
      this.producers := seq(producers, _ => Idle);
      this.consumers := seq(consumers, _ => Idle);
      popped, exits := [], 0;
    }

    /** The objects are in a state of the runs. */
    ghost predicate Shows(s: State)
      reads this, queue, queue.list, queue.nodes
    {
      && queue.Valid() && queue.Fields() == s.shared
      && producers == s.producers && consumers == s.consumers && popped == s.popped && exits == s.taken
    }

    /** What a pop got, if the queue was not empty. */
    method Keep(entry: Entry, empty: bool)
      requires empty ==> entry == Exit
      modifies this`popped, this`exits
      ensures popped == old(popped) + Data([entry])
      ensures exits == old(exits) + if entry == Exit && !empty then 1 else 0
    {
      assert [entry][1..] == [];
      if entry.Item? {
        popped := popped + [entry.data];
      } else {
        assert Data([entry]) == [];
        if !empty {
          exits := exits + 1;
        }
      }
    }

    /** A region of a producer. */
    method Push(a: Action, ghost s: State)
      requires Shows(s) && Enabled(s, a) && (a.DoPushEnter? || a.DoPushResume? || a.DoPushFail? || a.DoPushExit?)
      modifies this, queue, queue.list, queue.nodes
      ensures Shows(Do(s, a)) && queue.Grew()
    {
      hide Blocks, Listed, DList.Chained, Wake, PushEnter, PushResume, PushExit;
      var e;
      match a {
        case DoPushEnter(i, d, w) =>
          e := queue.EnterPush(d);
          if e == Wait {
            producers := producers[i := Blocked(d)];
          } else {
            consumers := Wake(consumers, e, w);
          }
        case DoPushResume(i, w) =>
          e := queue.ResumePush(producers[i].d);
          producers := producers[i := Idle];
          consumers := Wake(consumers, e, w);
        case DoPushFail(_, d, w) =>
          var rc;
          e, rc := queue.PushFailOnQueueFull(d);
          if rc == 0 {
            consumers := Wake(consumers, e, w);
          }
        case DoPushExit(w) =>
          e := queue.PushExitMessage();
          consumers := Wake(consumers, e, w);
      }
    }

    /** A region of a consumer. */
    method Pop(a: Action, ghost s: State)
      requires Shows(s) && Enabled(s, a) && (a.DoPopEnter? || a.DoPopResume? || a.DoPopNonBlocking?)
      modifies this, queue, queue.list, queue.nodes
      ensures Shows(Do(s, a)) && queue.Grew()
    {
      hide Blocks, Listed, DList.Chained, Wake, Data, Taken, TakenExits, PopEnter, PopResume, PopBack;
      FirstTaken(s.shared);
      var e, entry;
      match a {
        case DoPopEnter(j, w) =>
          entry, e := queue.EnterPop();
          if e == Wait {
            consumers := consumers[j := Blocked(0)];
          } else {
            Keep(entry, false);
            producers := Wake(producers, e, w);
          }
        case DoPopResume(j, w) => PopAfterWait(j, w, s);
        case DoPopNonBlocking =>
          var rc;
          rc, entry := queue.PopNonBlocking();
          if rc == 0 {
            Keep(entry, false);
          }
      }
    }

    /** What a consumer takes after its wait. */
    method TakeAfterWait() returns (e: Ending)
      requires queue.Valid() && queue.waitingEmpty > 0
      modifies this`popped, this`exits, queue, queue.list, queue.nodes
      ensures queue.Valid() && queue.Grew() && (queue.Fields(), e) == TQueue.PopResume(old(queue.Fields()))
      ensures popped == old(popped) + Taken(old(queue.Fields()))
      ensures exits == old(exits) + TakenExits(old(queue.Fields()))
    {
      hide Listed, DList.Chained, Data, Taken, TakenExits, TQueue.PopResume;
      FirstTaken(queue.Fields());
      var empty := queue.IsEmpty();
      var entry;
      entry, e := queue.ResumePop();
      Keep(entry, empty);
    }

    /** A consumer after its wait. */
    method PopAfterWait(j: nat, w: nat, ghost s: State)
      requires Shows(s) && Enabled(s, DoPopResume(j, w))
      modifies this, queue, queue.list, queue.nodes
      ensures Shows(Do(s, DoPopResume(j, w))) && queue.Grew()
    {
      hide Listed, DList.Chained, Wake, Taken, TakenExits, TQueue.PopResume, Enabled, Do;
      ResumeDoes(s, j, w);
      var e := TakeAfterWait();
      consumers := consumers[j := Idle];
      producers := Wake(producers, e, w);
    }

    method Perform(a: Action, ghost s: State)
      requires Shows(s) && Enabled(s, a)
      modifies this, queue, queue.list, queue.nodes
      ensures Shows(Do(s, a)) && queue.Grew()
    {
      hide Listed;
      match a {
        case SpuriousProducer(i) => producers := producers[i := Woken(producers[i].d)];
        case SpuriousConsumer(j) => consumers := consumers[j := Woken(consumers[j].d)];
        case DoPopEnter(_, _) => Pop(a, s);
        case DoPopResume(_, _) => Pop(a, s);
        case DoPopNonBlocking => Pop(a, s);
        case _ => Push(a, s);
      }
    }
  }

  lemma ResumeDoes(s: State, j: nat, w: nat)
    requires Enabled(s, DoPopResume(j, w))
    ensures j < |s.consumers| && s.shared.waitingEmpty > 0
    ensures var (q, e) := PopResume(s.shared);
            Do(s, DoPopResume(j, w)) ==
              s.(shared := q, consumers := s.consumers[j := Idle], producers := Wake(s.producers, e, w),
                 popped := s.popped + Taken(s.shared), taken := s.taken + TakenExits(s.shared))
  {
    hide Blocks, Taken, TakenExits, Wake;
  }

  lemma FirstTaken(s: Shared)
    ensures Taken(s) == if s.queue == [] then [] else Data([s.queue[0]])
    ensures TakenExits(s) == if s.queue != [] && s.queue[0] == Exit then 1 else 0
    ensures Data([Exit]) == []
  {
    assert s.queue != [] ==> s.queue[..1] == [s.queue[0]];
  }

  /** Every run on the objects: what the pops returned, followed by what is still in the
      list, is what was pushed; each exit message was returned or is still there; and
      without spurious wakeups the list keeps the real capacity. */
  method Execute(maxCount: nat, producers: nat, consumers: nat, run: seq<Action>) returns (m: Machine)
    requires IsRun(Start(maxCount, producers, consumers), run)
    ensures m.Shows(After(Start(maxCount, producers, consumers), run))
    ensures m.popped + Data(m.queue.Fields().queue) == After(Start(maxCount, producers, consumers), run).pushed
    ensures m.exits + ExitsIn(m.queue.Fields().queue) == ExitPushes(run)
    ensures maxCount > 0 && WithoutSpurious(run) ==>
              m.queue.list.elmcount <= maxCount + After(Start(maxCount, producers, consumers), run).exits
                                       + if producers == 0 then 0 else producers - 1
  {
    hide Enabled, Do, Data, Listed, TQueueRuns.Start, WithoutSpurious, ExitsIn, ExitPushes;
    m := new Machine(maxCount, producers, consumers);
    ghost var s := Start(maxCount, producers, consumers);
    ghost var end := After(s, run);
    var i := 0;
    assert run[0..] == run;
    while i < |run|
      invariant i <= |run| && IsRun(s, run[i..]) && After(s, run[i..]) == end
      invariant fresh(m) && fresh(m.queue) && fresh(m.queue.list) && m.Shows(s)
      invariant forall n :: n in m.queue.nodes ==> fresh(n)
    {
      assert run[i..][1..] == run[i + 1..];
      forall k | 0 <= k < |m.queue.nodes| ensures fresh(m.queue.nodes[k]) {
        assert m.queue.nodes[k] in m.queue.nodes;
      }
      m.Perform(run[i], s);
      s := Do(s, run[i]);
      i := i + 1;
    }
    assert run[i..] == [];
    FifoHistory(maxCount, producers, consumers, run);
    ExitsConserved(maxCount, producers, consumers, run);
    if maxCount > 0 && WithoutSpurious(run) {
      RealCapacity(maxCount, producers, consumers, run);
    }
  }
}
