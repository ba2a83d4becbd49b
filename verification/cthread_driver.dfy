/** Any list of operations on the coroutines, performed on the objects. */
module CThreadDriver {
  import opened CThread
  import opened CThreadRuns
  import opened Seqs

  /** What the next event changes in what a history says of a thread. */
  lemma NextOf(h: History, e: Event, t: nat)
    ensures Count(h + [e]) == Count(h) + if e.Created? then 1 else 0
    ensures Exits(h + [e]) == Exits(h) + if e.Left? && e.exited then 1 else 0
    ensures StateOf(h + [e], t) ==
            if e.Entered? && e.t == t then RUNNING
            else if e.Left? && e.t == t then (if e.exited then EXIT else SUSPENDED)
            else StateOf(h, t)
    ensures AskedOf(h + [e], t) ==
            (AskedOf(h, t) || ((e.Marked? || (e.Entered? && e.kind == Killing)) && e.t == t))
    ensures ValueOf(h + [e], t) ==
            if e.Left? && !e.exited && e.t == t then e.sent
            else if e.Set? && e.t == t then Some(e.v)
            else ValueOf(h, t)
    ensures YieldOf(h + [e], t) == if e.Left? && !e.exited && e.t == t then Some(|h|) else YieldOf(h, t)
    ensures FreedIn(h + [e], t) == (FreedIn(h, t) || e == Event.Freed(t))
  {
    Last(h, e);
  }

  lemma NextPending(h: History, e: Event)
    ensures e.Entered? ==> Pending(h + [e]) == Pending(h) + [Call(|h|, e.t, e.kind)]
    ensures e.Left? && Pending(h) != [] ==> Pending(h + [e]) == Pending(h)[..|Pending(h)| - 1]
    ensures !e.Entered? && !e.Left? ==> Pending(h + [e]) == Pending(h)
  {
    Last(h, e);
  }

  class Driver {
    const rt: Runtime
    /** The threads by their numbers, and back. */
    var handles: seq<Thread>
    var numbers: map<Thread, nat>
    /** The call that activated a thread, and the yield that it waits in: what its two
        saved contexts stand for. */
    var calls: map<nat, Call>
    var sleeps: map<nat, nat>
    var log: History

    constructor (numStacks: nat)
      ensures Agrees() && log == [] && rt.numStacks == numStacks && fresh(rt) && rt.threads == {}
    {
      rt := new Runtime(numStacks);
      handles, numbers, calls, sleeps, log := [], map[], map[], map[], [];
    }

    ghost predicate Agrees()
      reads this, rt, rt.threads
    {
      rt.Valid() && Numbered(log) && Told(log) && Nested(log) && |rt.pool| + Count(log) == rt.numStacks + Exits(log)
    }

    /** The threads that were created and not freed. */
    ghost predicate Numbered(h: History)
      reads `handles, `numbers, rt`threads
    {
      && |handles| == Count(h)
      && (forall k :: 0 <= k < |handles| ==> handles[k] in numbers && numbers[handles[k]] == k)
      && (forall k :: 0 <= k < |handles| ==> (handles[k] in rt.threads <==> !FreedIn(h, k)))
      && (forall t :: t in rt.threads ==> t in numbers && numbers[t] < |handles| && handles[numbers[t]] == t)
      && (forall k: nat :: k >= |handles| ==>
            StateOf(h, k) == INIT && !AskedOf(h, k) && ValueOf(h, k) == None && !FreedIn(h, k))
    }

    /** The history tells the fields of each thread. */
    ghost predicate Told(h: History)
      reads `handles, `sleeps, rt`threads, rt.threads
    {
      forall k :: 0 <= k < |handles| && handles[k] in rt.threads ==> Tells(h, k, handles[k])
    }

    ghost predicate Tells(h: History, k: nat, t: Thread)
      reads `sleeps, t
    {
      && t.state == StateOf(h, k) && t.requestExit == AskedOf(h, k) && t.toCaller == ValueOf(h, k)
      && (t.state == SUSPENDED ==> k in sleeps && YieldOf(h, k) == Some(sleeps[k]))
    }

    /** The activation chain is that of the pending calls. */
    ghost predicate Nested(h: History)
      reads `handles, `calls, rt`chain
    {
      && |rt.chain| == |Pending(h)|
      && forall i :: 0 <= i < |rt.chain| ==>
           var c := Pending(h)[i];
           c.t < |handles| && handles[c.t] == rt.chain[i] && c.t in calls && calls[c.t] == c
    }

    /** An event that neither makes nor frees a thread keeps the numbers. */
    lemma NumberedNext(h: History, e: Event)
      requires Numbered(h) && !e.Created? && !e.Freed?
      requires !e.Refused? ==> e.t < |handles|
      ensures Numbered(h + [e])
    {
      hide StateOf, AskedOf, ValueOf, YieldOf, FreedIn, Pending, Count, Exits;
      NextOf(h, e, 0);
      forall k: nat ensures FreedIn(h + [e], k) == FreedIn(h, k)
        ensures k >= |handles| ==> StateOf(h + [e], k) == StateOf(h, k) && AskedOf(h + [e], k) == AskedOf(h, k)
        ensures k >= |handles| ==> ValueOf(h + [e], k) == ValueOf(h, k)
      {
        NextOf(h, e, k);
      }
    }

    /** An event of one thread leaves what the history tells of the others. */
    twostate lemma OthersTold(new h: History, new e: Event, k: nat)
      requires old(Numbered(h)) && old(Told(h)) && handles == old(handles) && rt.threads <= old(rt.threads)
      requires !e.Created? && (!e.Refused? ==> e.t == k) && k < |handles| && rt.Alone(handles[k])
      requires forall i :: i in old(sleeps) && i != k ==> i in sleeps && sleeps[i] == old(sleeps)[i]
      requires handles[k] in rt.threads ==> Tells(h + [e], k, handles[k])
      ensures Told(h + [e])
    {
      hide StateOf, AskedOf, ValueOf, YieldOf, FreedIn, Pending, Count, Exits;
      forall i | 0 <= i < |handles| && handles[i] in rt.threads ensures Tells(h + [e], i, handles[i]) {
        NextOf(h, e, i);
        assert old(Tells(h, i, handles[i]));
      }
    }

    /** A thread is freed. */
    twostate lemma NumberedFreed(new h: History, k: nat)
      requires old(Numbered(h)) && handles == old(handles) && numbers == old(numbers) && k < |handles|
      requires rt.threads == old(rt.threads) - {handles[k]}
      ensures Numbered(h + [Event.Freed(k)])
    {
      hide StateOf, AskedOf, ValueOf, YieldOf, FreedIn, Pending, Count, Exits;
      NextOf(h, Event.Freed(k), 0);
      forall i: nat ensures FreedIn(h + [Event.Freed(k)], i) == (FreedIn(h, i) || i == k)
        ensures StateOf(h + [Event.Freed(k)], i) == StateOf(h, i) && AskedOf(h + [Event.Freed(k)], i) == AskedOf(h, i)
        ensures ValueOf(h + [Event.Freed(k)], i) == ValueOf(h, i)
      {
        NextOf(h, Event.Freed(k), i);
      }
    }

    /** A thread is created. */
    twostate lemma Made(new h: History, new t: Thread)
      requires old(Numbered(h)) && old(Told(h)) && old(Nested(h)) && rt.chain == old(rt.chain)
      requires t !in old(rt.threads) && rt.threads == old(rt.threads) + {t} && t !in old(numbers)
      requires numbers == old(numbers)[t := old(|handles|)] && handles == old(handles) + [t]
      requires sleeps == old(sleeps) && calls == old(calls)
      requires t.state == INIT && !t.requestExit && t.toCaller == None
      requires forall u :: u in old(rt.threads) ==> unchanged(u)
      ensures var e := Created(old(|handles|)); Numbered(h + [e]) && Told(h + [e]) && Nested(h + [e])
    {
      hide StateOf, AskedOf, ValueOf, YieldOf, FreedIn, Pending, Count, Exits;
      var e := Created(old(|handles|));
      NextOf(h, e, 0);
      NextPending(h, e);
      forall k: nat ensures FreedIn(h + [e], k) == FreedIn(h, k)
        ensures StateOf(h + [e], k) == StateOf(h, k) && AskedOf(h + [e], k) == AskedOf(h, k)
        ensures ValueOf(h + [e], k) == ValueOf(h, k) && YieldOf(h + [e], k) == YieldOf(h, k)
      {
        NextOf(h, e, k);
      }
      forall k | 0 <= k < |handles| && handles[k] in rt.threads ensures Tells(h + [e], k, handles[k]) {
        if k < old(|handles|) {
          assert old(Tells(h, k, handles[k]));
        }
      }
    }

    /** Nothing happens. */
    lemma RefusedAgrees(h: History)
      requires Numbered(h) && Told(h) && Nested(h)
      ensures Numbered(h + [Refused]) && Told(h + [Refused]) && Nested(h + [Refused])
      ensures Count(h + [Refused]) == Count(h) && Exits(h + [Refused]) == Exits(h)
    {
      hide StateOf, AskedOf, ValueOf, YieldOf, FreedIn, Pending, Count, Exits;
      NumberedNext(h, Refused);
      NextPending(h, Refused);
      NextOf(h, Refused, 0);
      forall i | 0 <= i < |handles| && handles[i] in rt.threads ensures Tells(h + [Refused], i, handles[i]) {
        NextOf(h, Refused, i);
      }
    }

    /** A call into a thread that does not run makes the chain longer. */
    twostate lemma NestedEntered(new h: History, new e: Event)
      requires old(Nested(h)) && e.Entered? && handles == old(handles) && e.t < |handles|
      requires rt.chain == old(rt.chain) + [handles[e.t]] && handles[e.t] !in old(rt.chain)
      requires calls == old(calls)[e.t := Call(|h|, e.t, e.kind)]
      ensures Nested(h + [e])
    {
      hide StateOf, AskedOf, ValueOf, YieldOf, FreedIn, Pending, Count, Exits;
      NextPending(h, e);
    }

    /** A return makes it shorter. */
    twostate lemma NestedLeft(new h: History, new e: Event)
      requires old(Nested(h)) && e.Left? && handles == old(handles) && calls == old(calls)
      requires old(rt.chain) != [] && rt.chain == old(rt.chain)[..|old(rt.chain)| - 1]
      ensures Nested(h + [e])
    {
      hide StateOf, AskedOf, ValueOf, YieldOf, FreedIn, Pending, Count, Exits;
      NextPending(h, e);
    }

    /** Other events leave it. */
    lemma NestedKept(h: History, e: Event)
      requires Nested(h) && !e.Entered? && !e.Left?
      ensures Nested(h + [e])
    {
      hide StateOf, AskedOf, ValueOf, YieldOf, FreedIn, Pending, Count, Exits;
      NextPending(h, e);
    }

    /** What the runtime says of a thread, in terms of the history. */
    lemma Handle(k: nat)
      requires Agrees() && k < |handles| && !FreedIn(log, k)
      ensures handles[k] in rt.threads && Tells(log, k, handles[k])
      ensures handles[k] in rt.chain <==> handles[k].state == RUNNING
    {
    }

    /** The thread of the operation was not freed, and no thread with children exits. */
    predicate Admissible(op: Op)
      reads this, rt, rt.tls
    {
      match op
      case Start(t, _) => t < |handles| && !FreedIn(log, t)
      case Resume(t, _) => t < |handles| && !FreedIn(log, t)
      case Kill(t) => t < |handles| && !FreedIn(log, t)
      case Free(t) => t < |handles| && !FreedIn(log, t)
      case Exit => rt.tls == null || rt.tls.children == []
      case Yield(_) => rt.tls == null || rt.tls.children == [] || !rt.tls.requestExit
      case _ => true
    }

    /** What the runtime says of who runs, in terms of the history. */
    lemma Running()
      requires Agrees()
      ensures rt.tls == null <==> Pending(log) == []
      ensures rt.tls != null ==>
                var c := Pending(log)[|Pending(log)| - 1];
                && rt.chain != [] && rt.tls == rt.chain[|rt.chain| - 1]
                && rt.tls in rt.threads && rt.tls.state == RUNNING
                && rt.tls in numbers && numbers[rt.tls] == c.t
                && c.t < |handles| && handles[c.t] == rt.tls && c.t in calls && calls[c.t] == c
                && Tells(log, c.t, rt.tls)
    {
      rt.Top();
    }

    method Create() returns (e: Event)
      requires Agrees()
      modifies this, rt
      ensures Agrees() && log == old(log) + [e] && e == Expected(old(log), Op.Init, rt.numStacks)
      ensures fresh(rt.threads - old(rt.threads))
    {
      hide StateOf, AskedOf, ValueOf, YieldOf, FreedIn, Pending, Count, Exits, Told, Nested;
      hide Runtime.Active, Runtime.Asked, Runtime.Families, Runtime.StacksConserved, Runtime.Evolves, Runtime.Valid;
      var t := rt.Init();
      if t == null {
        RefusedAgrees(log);
        e := Refused;
      } else {
        e := Created(|handles|);
        NextOf(log, e, 0);
        numbers := numbers[t := |handles|];
        handles := handles + [t];
        Made(log, t);
      }
      log := log + [e];
    }

    method StartOne(op: Op) returns (e: Event)
      requires Agrees() && Admissible(op) && op.Start?
      modifies this, rt, rt.threads
      ensures Agrees() && log == old(log) + [e] && e == Expected(old(log), op, rt.numStacks)
      ensures rt.threads == old(rt.threads)
    {
      hide StateOf, AskedOf, ValueOf, YieldOf, FreedIn, Pending, Count, Exits, Numbered, Told, Nested;
      hide Runtime.Active, Runtime.Asked, Runtime.Families, Runtime.StacksConserved, Runtime.Evolves, Runtime.Valid;
      var t := handles[op.t];
      Handle(op.t);
      var rc := rt.Start(t, op.m);
      e := if rc == 0 then Entered(op.t, Starting, op.m, None, t.toThread, false) else Refused;
      NextOf(log, e, op.t);
      NumberedNext(log, e);
      if e.Entered? {
        calls := calls[op.t := Call(|log|, op.t, e.kind)];
        NestedEntered(log, e);
      } else {
        NestedKept(log, e);
      }
      OthersTold(log, e, op.t);
      log := log + [e];
    }

    method ResumeOne(op: Op) returns (e: Event)
      requires Agrees() && Admissible(op) && op.Resume?
      modifies this, rt, rt.threads
      ensures Agrees() && log == old(log) + [e] && e == Expected(old(log), op, rt.numStacks)
      ensures rt.threads == old(rt.threads)
    {
      hide StateOf, AskedOf, ValueOf, YieldOf, FreedIn, Pending, Count, Exits, Numbered, Told, Nested;
      hide Runtime.Active, Runtime.Asked, Runtime.Families, Runtime.StacksConserved, Runtime.Evolves, Runtime.Valid;
      var t := handles[op.t];
      Handle(op.t);
      var rc, received, mustExit := rt.Resume(t, op.m);
      e := if rc == 0 then Entered(op.t, Resuming, op.m, Some(sleeps[op.t]), received, mustExit) else Refused;
      NextOf(log, e, op.t);
      NumberedNext(log, e);
      if e.Entered? {
        calls := calls[op.t := Call(|log|, op.t, e.kind)];
        NestedEntered(log, e);
      } else {
        NestedKept(log, e);
      }
      OthersTold(log, e, op.t);
      log := log + [e];
    }

    method KillOne(op: Op) returns (e: Event)
      requires Agrees() && Admissible(op) && op.Kill?
      modifies this, rt, rt.threads
      ensures Agrees() && log == old(log) + [e] && e == Expected(old(log), op, rt.numStacks)
      ensures rt.threads == old(rt.threads)
    {
      hide StateOf, AskedOf, ValueOf, YieldOf, FreedIn, Pending, Count, Exits, Numbered, Told, Nested;
      hide Runtime.Active, Runtime.Asked, Runtime.Families, Runtime.StacksConserved, Runtime.Evolves, Runtime.Valid;
      var t := handles[op.t];
      Handle(op.t);
      var switched, rc, received, mustExit := rt.Kill(t);
      e := if switched then Entered(op.t, Killing, None, Some(sleeps[op.t]), received, mustExit) else Marked(op.t, rc);
      NextOf(log, e, op.t);
      NumberedNext(log, e);
      if e.Entered? {
        calls := calls[op.t := Call(|log|, op.t, e.kind)];
        NestedEntered(log, e);
      } else {
        NestedKept(log, e);
      }
      OthersTold(log, e, op.t);
      log := log + [e];
    }

    method Leave(op: Op) returns (e: Event)
      requires Agrees() && Admissible(op) && (op.Yield? || op.Exit?)
      modifies this, rt, rt.threads
      ensures Agrees() && log == old(log) + [e] && e == Expected(old(log), op, rt.numStacks)
      ensures rt.threads == old(rt.threads)
    {
      hide StateOf, AskedOf, ValueOf, YieldOf, FreedIn, Pending, Count, Exits, Numbered, Told, Nested;
      hide Runtime.Active, Runtime.Asked, Runtime.Families, Runtime.StacksConserved, Runtime.Evolves, Runtime.Valid;
      Running();
      var t := rt.tls;
      if t == null {
        RefusedAgrees(log);
        e := Refused;
        log := log + [e];
        return;
      }
      var rc, received;
      if op.Yield? {
        rc, received := rt.Yield(op.m);
      } else {
        rc, received := rt.Exit();
      }
      var call := calls[numbers[t]];
      var sent := if t.state == EXIT then t.toCaller else op.m;
      e := if call.kind == Killing then Left(call.t, t.state == EXIT, sent, call.id, rt.KillCode(t), None)
           else Left(call.t, t.state == EXIT, sent, call.id, rc, received);
      if t.state == SUSPENDED {
        sleeps := sleeps[call.t := |log|];
      }
      NextOf(log, e, call.t);
      NumberedNext(log, e);
      NestedLeft(log, e);
      OthersTold(log, e, call.t);
      log := log + [e];
    }

    method SetOne(v: int) returns (e: Event)
      requires Agrees()
      modifies this, rt.threads
      ensures Agrees() && log == old(log) + [e] && e == Expected(old(log), SetValue(v), rt.numStacks)
    {
      hide StateOf, AskedOf, ValueOf, YieldOf, FreedIn, Pending, Count, Exits, Numbered, Told, Nested;
      hide Runtime.Active, Runtime.Asked, Runtime.Families, Runtime.StacksConserved, Runtime.Evolves, Runtime.Valid;
      Running();
      var t := rt.tls;
      if t == null {
        RefusedAgrees(log);
        e := Refused;
        log := log + [e];
        return;
      }
      var rc := rt.SetReturnValue(v);
      e := Set(numbers[t], v);
      NextOf(log, e, e.t);
      NumberedNext(log, e);
      NestedKept(log, e);
      OthersTold(log, e, e.t);
      log := log + [e];
    }

    method FreeOne(op: Op) returns (e: Event)
      requires Agrees() && Admissible(op) && op.Free?
      modifies this, rt, rt.threads
      ensures Agrees() && log == old(log) + [e] && e == Expected(old(log), op, rt.numStacks)
      ensures rt.threads <= old(rt.threads)
    {
      hide StateOf, AskedOf, ValueOf, YieldOf, FreedIn, Pending, Count, Exits, Numbered, Told, Nested;
      hide Runtime.Active, Runtime.Asked, Runtime.Families, Runtime.StacksConserved, Runtime.Evolves, Runtime.Valid;
      Handle(op.t);
      var rc := rt.Free(handles[op.t]);
      e := if rc == 0 then Event.Freed(op.t) else Refused;
      NextOf(log, e, op.t);
      NestedKept(log, e);
      if rc == 0 {
        NumberedFreed(log, op.t);
      } else {
        NumberedNext(log, e);
      }
      OthersTold(log, e, op.t);
      log := log + [e];
    }

    method Step(op: Op) returns (e: Event)
      requires Agrees() && Admissible(op)
      modifies this, rt, rt.threads
      ensures Agrees() && log == old(log) + [e] && e == Expected(old(log), op, rt.numStacks)
      ensures fresh(rt.threads - old(rt.threads))
    {
      hide *;
      match op {
        case Init => e := Create();
        case Start(_, _) => e := StartOne(op);
        case Resume(_, _) => e := ResumeOne(op);
        case Kill(_) => e := KillOne(op);
        case Yield(_) => e := Leave(op);
        case Exit => e := Leave(op);
        case SetValue(v) => e := SetOne(v);
        case Free(_) => e := FreeOne(op);
      }
    }
  }

  /** From a fresh pool, any list of operations on the objects makes a well-formed
      history, up to the first one that is not admissible; what the history says of the
      threads is what their fields hold. */
  method Run(numStacks: nat, ops: seq<Op>) returns (d: Driver)
    ensures WellRun(d.log, ops, numStacks) && d.Agrees() && RunningPending(d.log)
    ensures |d.log| == |ops| || !d.Admissible(ops[|d.log|])
  {
    d := new Driver(numStacks);
    while |d.log| < |ops| && d.Admissible(ops[|d.log|])
      invariant WellRun(d.log, ops, numStacks) && d.Agrees() && d.rt.numStacks == numStacks
      invariant fresh(d) && fresh(d.rt) && fresh(d.rt.threads)
      decreases |ops| - |d.log|
    {
      ghost var before := d.log;
      var e := d.Step(ops[|d.log|]);
      assert forall j :: 0 <= j < |before| ==> d.log[..j] == before[..j];
      assert d.log[..|before|] == before;
    }
    PendingRuns(d.log, ops, numStacks);
  }

  /** A thread that exits without a word: its caller gets the message of its last yield
      a second time. */
  method StaleMessage() returns (first: Message, last: Message)
    ensures first == last == Some(7)
  {
    hide Runtime.Active, Runtime.Asked, Runtime.Families, Runtime.StacksConserved;
    var rt := new Runtime(1);
    var t := rt.Init();
    var rc := rt.Start(t, None);
    var received, mustExit;
    rc, first := rt.Yield(Some(7));
    rc, received, mustExit := rt.Resume(t, None);
    rc, last := rt.Exit();
  }
}
