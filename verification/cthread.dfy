/** The coroutines of corothread/cthread.c with their pool of stacks.  A method does
    what happens in one go: the work of the caller up to the switch of the context,
    and the work of the other side after it. */
module CThread {
  import opened Seqs

  /** A message; None when no format is given. */
  type Message = Option<int>

  datatype State = INIT | RUNNING | SUSPENDED | EXIT

  class Thread {
    var state: State
    var requestExit: bool
    const tid: nat
    var toCaller: Message
    var toThread: Message
    /** The local variable of the start or resume that activated the thread: what
        TLS is set to when the context of the caller is restored. */
    var caller: Thread?
    const stack: nat
    var parent: Thread?
    var children: seq<Thread>

    constructor (tid: nat, stack: nat)
      ensures state == INIT && !requestExit && this.tid == tid && this.stack == stack
      ensures toCaller == None && toThread == None && caller == null && parent == null && children == []
    {
      state, requestExit, this.tid, this.stack := INIT, false, tid, stack;
      toCaller, toThread, caller, parent, children := None, None, null, null, [];
    }
  }

  function Without(ts: seq<Thread>, t: Thread): (r: seq<Thread>)
    ensures forall u :: u in r ==> u in ts && u != t
    ensures forall u :: u in ts && u != t ==> u in r
  {
    if ts == [] then [] else (if ts[0] == t then [] else [ts[0]]) + Without(ts[1..], t)
  }

  /** A thread of the chain goes back to the one before it, the first one to the main
      thread. */
  ghost predicate Callers(chain: seq<Thread>)
    reads chain
  {
    && (chain != [] ==> chain[0].caller == null)
    && (forall i, j :: 0 <= i < j < |chain| && j == i + 1 ==> chain[j].caller == chain[i])
  }

  class Runtime {
    /** The running thread; null for the main thread. */
    var tls: Thread?
    var nextTid: nat
    /** The free stacks, the first one at the front. */
    var pool: seq<nat>
    const numStacks: nat
    ghost var threads: set<Thread>
    /** The threads that were started or resumed and have not given control back,
        the outermost one first. */
    ghost var chain: seq<Thread>
    /** The thread that uses a stack. */
    ghost var owner: map<nat, Thread>

    ghost predicate Valid()
      reads this, threads
    {
      Active() && Asked(null) && Families() && StacksConserved()
    }

    /** The running threads are those of the chain, and TLS is its top. */
    ghost predicate Active()
      reads this, threads
    {
      && (forall t :: t in chain ==> t in threads)
      && (forall i, j :: 0 <= i < j < |chain| ==> chain[i] != chain[j])
      && tls == (if chain == [] then null else chain[|chain| - 1])
      && Callers(chain)
      && (forall t :: t in threads ==> (t.state == RUNNING <==> t in chain))
    }

    /** No thread is suspended and asked to exit, but for the given one. */
    ghost predicate Asked(but: Thread?)
      reads this, threads
    {
      forall t :: t in threads && t.state == SUSPENDED && t != but ==> !t.requestExit
    }

    /** A thread is on the child list of the thread that started it until it is
        freed; a thread that exited has no children. */
    ghost predicate Families()
      reads this, threads
    {
      && (forall t :: t in threads && t.parent != null ==> t.parent in threads && t in t.parent.children)
      && (forall t :: t in threads && t.state == EXIT ==> t.children == [])
    }

    /** A stack is in the pool, or in use by one thread that did not exit. */
    ghost predicate StacksConserved()
      reads this, threads
    {
      && (forall s: nat :: s < numStacks <==> s in pool || s in owner)
      && (forall i, j :: 0 <= i < j < |pool| ==> pool[i] != pool[j])
      && (forall s :: s in owner ==> s !in pool && owner[s] in threads && owner[s].stack == s && owner[s].state != EXIT)
      && (forall t :: t in threads && t.state != EXIT ==> t.stack in owner && owner[t.stack] == t)
    }

    /** The stacks do not care for a change between states other than EXIT. */
    twostate lemma StacksKept()
      requires old(StacksConserved()) && threads == old(threads) && pool == old(pool) && owner == old(owner)
      requires forall t :: t in threads ==> (t.state == EXIT <==> old(t.state) == EXIT)
      ensures StacksConserved()
    {
    }

    /** Nor do the families. */
    twostate lemma FamiliesKept()
      requires old(Families()) && threads == old(threads)
      requires forall t :: t in threads ==> (t.state == EXIT <==> old(t.state) == EXIT)
      requires forall t :: t in threads ==> t.parent == old(t.parent) && t.children == old(t.children)
      ensures Families()
    {
    }

    /** A thread without children exits. */
    twostate lemma FamiliesExit(t: Thread)
      requires old(Families()) && threads == old(threads) && t in threads && t.children == []
      requires forall u :: u in threads ==> u.parent == old(u.parent) && u.children == old(u.children)
      requires forall u :: u in threads && u != t ==> u.state == old(u.state)
      ensures Families()
    {
    }

    /** A thread that exited leaves the list of its parent. */
    twostate lemma FamiliesShrunk(t: Thread)
      requires old(Families()) && t in old(threads) && threads == old(threads) - {t} && old(t.state) == EXIT
      requires forall u :: u in old(threads) ==> u.state == old(u.state) && u.parent == old(u.parent)
      requires forall u :: u in old(threads) ==>
                 u.children == if u == t.parent then Without(old(u.children), t) else old(u.children)
      ensures Families()
    {
      forall u | u in threads && u.parent != null ensures u.parent in threads && u in u.parent.children {
        assert u in old(u.parent.children);
      }
    }

    /** A new thread has no relatives. */
    twostate lemma FamiliesGrown(new t: Thread)
      requires old(Families()) && t !in old(threads) && threads == old(threads) + {t}
      requires t.state == INIT && t.parent == null
      requires forall u :: u in old(threads) ==>
                 u.state == old(u.state) && u.parent == old(u.parent) && u.children == old(u.children)
      ensures Families()
    {
    }

    /** A thread that exits puts its stack at the front of the pool. */
    twostate lemma StacksReleased(t: Thread)
      requires old(StacksConserved()) && threads == old(threads) && t in threads && old(t.state) != EXIT
      requires pool == [t.stack] + old(pool) && owner == old(owner) - {t.stack} && t.state == EXIT
      requires forall u :: u in threads && u != t ==> u.state == old(u.state)
      ensures StacksConserved()
    {
      forall s: nat ensures s < numStacks <==> s in pool || s in owner {
        assert s in pool <==> s == t.stack || s in old(pool);
      }
    }

    /** A new thread takes the stack at the front of the pool. */
    twostate lemma StacksTaken(new t: Thread)
      requires old(StacksConserved()) && t !in old(threads) && threads == old(threads) + {t} && t.state == INIT
      requires old(pool) == [t.stack] + pool && owner == old(owner)[t.stack := t]
      requires forall u :: u in old(threads) ==> u.state == old(u.state)
      ensures StacksConserved()
    {
      assert forall s :: s in old(pool) <==> s in pool || s == t.stack;
      assert pool == old(pool)[1..] && t.stack == old(pool)[0];
    }

    /** Who runs. */
    lemma Top()
      requires Active()
      ensures tls == null <==> chain == []
      ensures tls != null ==> tls == chain[|chain| - 1] && tls in threads && tls.state == RUNNING
    {
      if chain != [] {
        assert chain[|chain| - 1] in chain;
      }
    }

    /** Nothing that the chain depends on changes. */
    twostate lemma ActiveKept()
      requires old(Active()) && threads == old(threads) && chain == old(chain) && tls == old(tls)
      requires forall u :: u in threads ==> u.state == old(u.state) && u.caller == old(u.caller)
      ensures Active()
    {
    }

    /** A thread becomes the top of the chain. */
    twostate lemma Pushed(t: Thread)
      requires old(Active()) && threads == old(threads) && t in threads && old(t.state) != RUNNING
      requires chain == old(chain) + [t] && tls == t && t.caller == old(tls) && t.state == RUNNING
      requires forall u :: u in threads && u != t ==> u.state == old(u.state) && u.caller == old(u.caller)
      ensures Active()
    {
    }

    /** The top of the chain stops. */
    twostate lemma Popped(t: Thread)
      requires old(Active()) && threads == old(threads) && old(chain) != [] && t == old(tls)
      requires chain == old(chain)[..|old(chain)| - 1] && tls == t.caller && t.state != RUNNING
      requires forall u :: u in threads ==> u.caller == old(u.caller)
      requires forall u :: u in threads && u != t ==> u.state == old(u.state)
      ensures Active()
    {
      assert t == old(chain)[|old(chain)| - 1];
      assert |old(chain)| > 1 ==> t.caller == old(chain)[|old(chain)| - 2];
    }

    /** What no step undoes. */
    twostate predicate Evolves()
      reads this, threads
    {
      && old(threads) <= threads
      && (forall t :: t in old(threads) ==>
            && (old(t.state) == EXIT ==> t.state == EXIT)
            && (old(t.state) != INIT ==> t.state != INIT)
            && (old(t.requestExit) ==> t.requestExit))
    }

    /** Only this thread and nobody else. */
    twostate predicate Alone(t: Thread)
      reads threads, this
    {
      forall u :: u in old(threads) && u in threads && u != t ==>
        && u.state == old(u.state) && u.requestExit == old(u.requestExit) && u.parent == old(u.parent)
        && u.toCaller == old(u.toCaller) && u.toThread == old(u.toThread) && u.caller == old(u.caller)
    }

    constructor (numStacks: nat)
      ensures Valid() && chain == [] && threads == {} && |pool| == numStacks == this.numStacks
    {
      tls, nextTid := null, 0;
      pool := seq(numStacks, i => i);
      this.numStacks := numStacks;
      threads, chain, owner := {}, [], map[];
      new;
      forall s: nat | s < numStacks ensures s in pool {
        assert s == pool[s];
      }
    }

    /** A new thread does not run. */
    twostate lemma NewIsIdle(new t: Thread)
      requires old(Active()) && t !in old(threads) && threads == old(threads) + {t} && t.state == INIT
      requires chain == old(chain) && tls == old(tls)
      requires forall u :: u in old(threads) ==> u.state == old(u.state) && u.caller == old(u.caller)
      ensures Active()
    {
    }

    /** CTHREAD_init with STACKS_get on a preallocated pool. */
    method Init() returns (t: Thread?)
      requires Valid()
      modifies this
      ensures Valid() && Evolves() && chain == old(chain)
      ensures t == null <==> old(pool) == []
      ensures t != null ==> fresh(t) && t.state == INIT && threads == old(threads) + {t}
      ensures t != null ==> !t.requestExit && t.toCaller == None && t.children == []
      ensures t == null ==> threads == old(threads) && pool == old(pool)
      ensures t != null ==> t.stack == old(pool)[0] && pool == old(pool)[1..] && t.tid == nextTid == old(nextTid) + 1
    {
      hide StacksConserved, Active, Families;
      nextTid := nextTid + 1;
      if pool == [] {
        ActiveKept();
        StacksKept();
        FamiliesKept();
        return null;
      }
      t := new Thread(nextTid, pool[0]);
      owner := owner[pool[0] := t];
      pool := pool[1..];
      threads := threads + {t};
      StacksTaken(t);
      NewIsIdle(t);
      FamiliesGrown(t);
    }

    /** The running parent gets a child. */
    method Adopt(parent: Thread, t: Thread)
      requires Valid() && parent in threads && parent.state == RUNNING && t in threads
      modifies parent`children, t`parent
      ensures Valid() && t.parent == parent && parent.children == old(parent.children) + [t]
    {
      hide StacksConserved, Active;
      parent.children := parent.children + [t];
      t.parent := parent;
      ActiveKept();
      StacksKept();
    }

    /** The new thread becomes the running one. */
    method Activate(t: Thread, message: Message)
      requires Valid() && t in threads && t.state == INIT
      modifies this`tls, this`chain, t`toThread, t`state, t`caller
      ensures Valid() && t.state == RUNNING && t.toThread == message
      ensures chain == old(chain) + [t] && tls == t
    {
      hide StacksConserved, Families, Active;
      t.toThread := message;
      t.state := RUNNING;
      t.caller := tls;
      tls := t;
      chain := chain + [t];
      Pushed(t);
      StacksKept();
      FamiliesKept();
    }

    /** CTHREAD_start with do_start: control goes to the new thread. */
    method Start(t: Thread, message: Message) returns (rc: int)
      requires Valid() && t in threads
      modifies this, threads
      ensures Valid() && Evolves() && threads == old(threads)
      ensures rc == if old(t.state) == INIT then 0 else -1
      ensures rc == -1 ==> chain == old(chain) && forall u :: u in threads ==> unchanged(u)
      ensures rc == 0 ==> chain == old(chain) + [t] && tls == t
      ensures rc == 0 ==> t.toThread == message && t.toCaller == old(t.toCaller)
      ensures t.requestExit == old(t.requestExit) && (rc == 0 ==> t.state == RUNNING && t.children == old(t.children))
      ensures rc == 0 && old(tls) != null ==> t.parent == old(tls) && old(tls).children == old(tls.children) + [t]
      ensures Alone(t) && pool == old(pool)
    {
      hide StacksConserved, Families, Active, Asked;
      if t.state != INIT {
        return -1;
      }
      Top();
      var parent := tls;
      Activate(t, message);
      if parent != null {
        Adopt(parent, t);
      }
      return 0;
    }

    /** CTHREAD_resume: control goes back into the yield of the thread, which returns
        the message and whether the thread is to exit. */
    method Resume(t: Thread, message: Message) returns (rc: int, received: Message, mustExit: bool)
      requires Valid() && t in threads
      modifies this, threads
      ensures Valid() && Evolves() && threads == old(threads)
      ensures rc == if old(t.state) == SUSPENDED then 0 else -1
      ensures rc == -1 ==> chain == old(chain) && forall u :: u in threads ==> unchanged(u)
      ensures rc == 0 ==> chain == old(chain) + [t] && tls == t && t.state == RUNNING
      ensures rc == 0 ==> received == message && !mustExit
      ensures Alone(t) && pool == old(pool)
      ensures rc == 0 ==> t.toCaller == old(t.toCaller) && t.requestExit == mustExit && t.children == old(t.children)
    {
      if t.state != SUSPENDED {
        return -1, None, false;
      }
      rc, received, mustExit := SwitchTo(t, message);
    }

    /** The switch into a suspended thread; its exit may have been requested just
        now. */
    method SwitchTo(t: Thread, message: Message) returns (rc: int, received: Message, mustExit: bool)
      requires Active() && Asked(t) && Families() && StacksConserved()
      requires t in threads && t.state == SUSPENDED
      modifies this, threads
      ensures Valid() && Evolves() && threads == old(threads) && rc == 0
      ensures chain == old(chain) + [t] && tls == t && t.state == RUNNING && received == message
      ensures mustExit == old(t.requestExit) && t.requestExit == mustExit && t.toCaller == old(t.toCaller)
      ensures Alone(t) && pool == old(pool) && t.children == old(t.children)
    {
      hide StacksConserved, Families, Active;
      var current := tls;
      t.toThread := message;
      t.caller := current;
      chain := chain + [t];
      // in the resumed thread
      tls := t;
      t.state := RUNNING;
      Pushed(t);
      StacksKept();
      FamiliesKept();
      return 0, t.toThread, t.requestExit;
    }

    /** CTHREAD_yield: control goes back to the start or resume that activated the
        thread, which returns 0 and the message; a thread that was asked to exit
        does so instead, and its caller gets 1. */
    method Yield(message: Message) returns (rc: int, received: Message)
      requires Valid() && (tls != null ==> tls.children == [] || !tls.requestExit)
      modifies this, threads
      ensures Valid() && Evolves() && threads == old(threads)
      ensures old(chain) == [] ==> rc == -1 && chain == []
      ensures old(chain) != [] ==>
                var t := old(chain)[|old(chain)| - 1];
                && chain == old(chain)[..|old(chain)| - 1] && Alone(t)
                && if old(t.requestExit) then rc == 1 && t.state == EXIT && received == old(t.toCaller)
                   else
                     && rc == 0 && t.state == SUSPENDED && received == message == t.toCaller
                     && t.children == old(t.children)
      ensures old(chain) != [] ==>
                var t := old(chain)[|old(chain)| - 1];
                && t.requestExit == old(t.requestExit) && (t.requestExit ==> t.toCaller == old(t.toCaller))
                && |pool| == |old(pool)| + if t.requestExit then 1 else 0
    {
      hide StacksConserved, Families, Active;
      Top();
      var t := tls;
      if t == null {
        return -1, None;
      }
      if t.state != RUNNING {
        return -1, None;
      }
      if t.requestExit {
        rc, received := Exit();
        return;
      }
      t.toCaller := message;
      // in the caller
      tls := t.caller;
      chain := chain[..|chain| - 1];
      t.state := SUSPENDED;
      Popped(t);
      StacksKept();
      FamiliesKept();
      return 0, t.toCaller;
    }

    /** CTHREAD_exit, for a thread without children: control goes back to the caller
        with 1 and with what is in the message slot of the thread. */
    method Exit() returns (rc: int, received: Message)
      requires Valid() && (tls != null ==> tls.children == [])
      modifies this, threads
      ensures Valid() && Evolves() && threads == old(threads)
      ensures old(chain) == [] ==> rc == -1 && chain == []
      ensures old(chain) != [] ==>
                var t := old(chain)[|old(chain)| - 1];
                && chain == old(chain)[..|old(chain)| - 1] && rc == 1 && Alone(t)
                && t.state == EXIT && received == old(t.toCaller) && pool == [t.stack] + old(pool)
                && t.toCaller == old(t.toCaller) && t.requestExit == old(t.requestExit)
    {
      hide StacksConserved, Active, Families;
      Top();
      var t := tls;
      if t == null {
        return -1, None;
      }
      if t.state != RUNNING {
        return -1, None;
      }
      t.state := EXIT;
      pool := [t.stack] + pool;
      owner := owner - {t.stack};
      // in the caller
      tls := t.caller;
      chain := chain[..|chain| - 1];
      Popped(t);
      StacksReleased(t);
      FamiliesExit(t);
      return 1, t.toCaller;
    }

    /** CTHREAD_kill up to the switch into the thread; rc is 0 when the switch took
        place, and else what the call returns. */
    method Kill(t: Thread) returns (switched: bool, rc: int, received: Message, mustExit: bool)
      requires Valid() && t in threads
      modifies this, threads
      ensures Valid() && Evolves() && threads == old(threads) && t.requestExit && Alone(t)
      ensures switched <==> old(t.state) == SUSPENDED
      ensures switched ==> chain == old(chain) + [t] && tls == t && t.state == RUNNING && mustExit && received == None
      ensures t.toCaller == old(t.toCaller) && pool == old(pool) && (!switched ==> t.state == old(t.state))
      ensures !switched ==> chain == old(chain) && rc == if old(t.state) == EXIT then 0 else -1
    {
      hide StacksConserved, Families, Active;
      t.requestExit := true;
      ActiveKept();
      StacksKept();
      FamiliesKept();
      if t.state == SUSPENDED {
        rc, received, mustExit := SwitchTo(t, None);
        return true, rc, received, mustExit;
      }
      return false, KillCode(t), None, false;
    }

    /** What CTHREAD_kill returns when its resume has returned. */
    function KillCode(t: Thread): int
      reads t
    {
      if t.state == EXIT then 0 else -1
    }

    /** CTHREAD_set_return_value. */
    method SetReturnValue(value: int) returns (rc: int)
      requires Valid()
      modifies threads
      ensures Valid() && Evolves()
      ensures rc == if tls == null then -1 else 0
      ensures rc == 0 ==> tls.toCaller == Some(value)
      ensures rc == 0 ==> tls.state == old(tls.state) && tls.requestExit == old(tls.requestExit)
      ensures rc == 0 ==> Alone(tls)
      ensures rc == -1 ==> forall u :: u in threads ==> unchanged(u)
    {
      hide StacksConserved, Families, Active;
      Top();
      if tls == null {
        return -1;
      }
      tls.toCaller := Some(value);
      ActiveKept();
      StacksKept();
      FamiliesKept();
      return 0;
    }

    /** Nobody but its parent knows a thread that exited. */
    twostate lemma Freed(t: Thread)
      requires old(Active()) && old(Asked(null)) && old(StacksConserved())
      requires t in old(threads) && old(t.state) == EXIT && threads == old(threads) - {t}
      requires chain == old(chain) && tls == old(tls) && pool == old(pool) && owner == old(owner)
      requires forall u :: u in old(threads) ==>
                 u.state == old(u.state) && u.requestExit == old(u.requestExit) && u.caller == old(u.caller)
      ensures Active() && Asked(null) && StacksConserved()
    {
    }

    lemma HasParent(t: Thread)
      requires Families() && t in threads
      ensures t.parent != null ==> t.parent in threads
    {
    }

    /** CTHREAD_free. */
    method Free(t: Thread) returns (rc: int)
      requires Valid() && t in threads
      modifies this`threads, threads
      ensures Valid() && chain == old(chain) && Alone(t)
      ensures t.state == old(t.state) && t.requestExit == old(t.requestExit) && t.toCaller == old(t.toCaller)
      ensures rc == if t.state == EXIT then 0 else -1
      ensures threads == if rc == 0 then old(threads) - {t} else old(threads)
    {
      hide Active, Asked, StacksConserved, Families, Without;
      Top();
      if t == tls {
        return -1;
      }
      if t.state != EXIT {
        return -1;
      }
      HasParent(t);
      if t.parent != null {
        t.parent.children := Without(t.parent.children, t);
      }
      threads := threads - {t};
      Freed(t);
      FamiliesShrunk(t);
      return 0;
    }
  }
}
