/** All runs of coroutines: what the history of a run says about every call. */
module CThreadRuns {
  import opened CThread
  import opened Seqs

  /** Threads are numbered in the order of their creation. */
  datatype Op =
    | Init
    | Start(t: nat, m: Message)
    | Resume(t: nat, m: Message)
    | Kill(t: nat)
    | Yield(m: Message)
    | Exit
    | SetValue(v: int)
    | Free(t: nat)

  datatype Kind = Starting | Resuming | Killing

  /** What an operation did.
      Entered: a start, resume or kill switched into a thread; with the yield that
      returned in the thread, if any, and what it returned.
      Left: a yield or an exit switched back; with the call that returned to its
      caller, and what it returned.
      Marked: a kill of a thread that was not suspended returned at once. */
  datatype Event =
    | Created(t: nat)
    | Entered(t: nat, kind: Kind, sent: Message, woke: Option<nat>, received: Message, mustExit: bool)
    | Left(t: nat, exited: bool, sent: Message, call: nat, rc: int, received: Message)
    | Marked(t: nat, rc: int)
    | Set(t: nat, v: int)
    | Freed(t: nat)
    | Refused

  type History = seq<Event>

  // ----- what a history says -----

  function Count(h: History): nat {
    if h == [] then 0 else Count(h[..|h| - 1]) + if h[|h| - 1].Created? then 1 else 0
  }

  function Exits(h: History): nat {
    if h == [] then 0 else Exits(h[..|h| - 1]) + if h[|h| - 1].Left? && h[|h| - 1].exited then 1 else 0
  }

  function StateOf(h: History, t: nat): State {
    if h == [] then INIT
    else
      match h[|h| - 1]
      case Entered(u, _, _, _, _, _) => if u == t then RUNNING else StateOf(h[..|h| - 1], t)
      case Left(u, exited, _, _, _, _) =>
        if u != t then StateOf(h[..|h| - 1], t) else if exited then EXIT else SUSPENDED
      case _ => StateOf(h[..|h| - 1], t)
  }

  /** Somebody killed the thread. */
  function AskedOf(h: History, t: nat): bool {
    if h == [] then false
    else
      match h[|h| - 1]
      case Marked(u, _) => u == t || AskedOf(h[..|h| - 1], t)
      case Entered(u, Killing, _, _, _, _) => u == t || AskedOf(h[..|h| - 1], t)
      case _ => AskedOf(h[..|h| - 1], t)
  }

  /** The message of the last yield of the thread, or the value set after it. */
  function ValueOf(h: History, t: nat): Message {
    if h == [] then None
    else
      match h[|h| - 1]
      case Left(u, false, sent, _, _, _) => if u == t then sent else ValueOf(h[..|h| - 1], t)
      case Set(u, v) => if u == t then Some(v) else ValueOf(h[..|h| - 1], t)
      case _ => ValueOf(h[..|h| - 1], t)
  }

  /** The last yield of the thread. */
  function YieldOf(h: History, t: nat): (y: Option<nat>)
    ensures y.Some? ==> y.value < |h|
  {
    if h == [] then None
    else
      match h[|h| - 1]
      case Left(u, false, _, _, _, _) => if u == t then Some(|h| - 1) else YieldOf(h[..|h| - 1], t)
      case _ => YieldOf(h[..|h| - 1], t)
  }

  function FreedIn(h: History, t: nat): bool {
    h != [] && (FreedIn(h[..|h| - 1], t) || h[|h| - 1] == Freed(t))
  }

  /** A call that did not return yet: number id of the history, into thread t. */
  datatype Call = Call(id: nat, t: nat, kind: Kind)

  /** The calls that did not return yet, the innermost one last. */
  function Pending(h: History): seq<Call> {
    if h == [] then []
    else
      var before := Pending(h[..|h| - 1]);
      match h[|h| - 1]
      case Entered(t, kind, _, _, _, _) => before + [Call(|h| - 1, t, kind)]
      case Left(_, _, _, _, _, _) => if before == [] then [] else before[..|before| - 1]
      case _ => before
  }

  /** What comes of an operation after a history. */
  function Expected(h: History, op: Op, numStacks: nat): Event {
    match op
    case Init => if numStacks + Exits(h) > Count(h) then Created(Count(h)) else Refused
    case Start(t, m) => if StateOf(h, t) == INIT then Entered(t, Starting, m, None, m, false) else Refused
    case Resume(t, m) =>
      if StateOf(h, t) == SUSPENDED then Entered(t, Resuming, m, YieldOf(h, t), m, false) else Refused
    case Kill(t) =>
      if StateOf(h, t) == SUSPENDED then Entered(t, Killing, None, YieldOf(h, t), None, true)
      else Marked(t, if StateOf(h, t) == EXIT then 0 else -1)
    case Yield(m) =>
      if Pending(h) == [] then Refused
      else Return(h, AskedOf(h, Pending(h)[|Pending(h)| - 1].t), m)
    case Exit => if Pending(h) == [] then Refused else Return(h, true, None)
    case SetValue(v) => if Pending(h) == [] then Refused else Set(Pending(h)[|Pending(h)| - 1].t, v)
    case Free(t) => if StateOf(h, t) == EXIT then Freed(t) else Refused
  }

  /** The innermost call returns: a start or resume with 1 or 0 and the message or, for an
      exit, the value of the thread; a kill with 0 or -1 and nothing. */
  function Return(h: History, exited: bool, m: Message): Event
    requires Pending(h) != []
  {
    var c := Pending(h)[|Pending(h)| - 1];
    var sent := if exited then ValueOf(h, c.t) else m;
    if c.kind == Killing then Left(c.t, exited, sent, c.id, if exited then 0 else -1, None)
    else Left(c.t, exited, sent, c.id, if exited then 1 else 0, sent)
  }

  /** Every event is the one to be expected after the ones before it. */
  ghost predicate WellRun(h: History, ops: seq<Op>, numStacks: nat) {
    |h| <= |ops| && forall j :: 0 <= j < |h| ==> h[j] == Expected(h[..j], ops[j], numStacks)
  }

  lemma Last(h: History, e: Event)
    ensures (h + [e])[..|h|] == h && (h + [e])[|h|] == e
  {
  }

  lemma EventAt(h: History, ops: seq<Op>, numStacks: nat, j: nat)
    requires WellRun(h, ops, numStacks) && j < |h|
    ensures |h| <= |ops| && h[j] == Expected(h[..j], ops[j], numStacks) && h[..j + 1] == h[..j] + [h[j]]
    ensures WellRun(h[..j], ops, numStacks)
  {
    hide Expected;
    forall i | 0 <= i < j ensures h[..j][i] == Expected(h[..j][..i], ops[i], numStacks) {
      assert h[..j][..i] == h[..i];
    }
  }

  // ----- calls and their returns -----

  /** What leaves is the top, and its call is the one that returns. */
  lemma LeftIs(before: History, op: Op, numStacks: nat, e: Event)
    requires e == Expected(before, op, numStacks) && e.Left?
    ensures Pending(before) != [] && Pending(before + [e]) == Pending(before)[..|Pending(before)| - 1]
    ensures var c := Pending(before)[|Pending(before)| - 1];
            && e.t == c.t && e.call == c.id && (AskedOf(before, e.t) ==> e.exited)
            && (e.exited ==> e.sent == ValueOf(before, e.t))
            && (c.kind == Killing ==> e.received == None && e.rc == if e.exited then 0 else -1)
            && (c.kind != Killing ==> e.received == e.sent && e.rc == if e.exited then 1 else 0)
  {
    Last(before, e);
  }

  /** A pending call is an event of the history, made when the calls in front of it were
      pending. */
  lemma {:induction false} PendingMeans(h: History, i: nat)
    requires i < |Pending(h)|
    ensures var c := Pending(h)[i];
            && c.id < |h| && h[c.id].Entered? && h[c.id].t == c.t && h[c.id].kind == c.kind
            && Pending(h[..c.id]) == Pending(h)[..i]
    decreases |h|
  {
    var before := h[..|h| - 1];
    if h[|h| - 1].Entered? && i == |Pending(before)| {
      assert Pending(h)[..i] == Pending(before);
    } else {
      PendingMeans(before, i);
      var c := Pending(h)[i];
      assert before[..c.id] == h[..c.id];
    }
  }

  /** Each call returns with what removed its thread: the calls made after it have all
      returned, and the message of the yield or the value of the exit comes back. */
  lemma CallReturns(h: History, ops: seq<Op>, numStacks: nat, j: nat)
    requires WellRun(h, ops, numStacks) && j < |h| && h[j].Left?
    ensures var c := h[j].call;
            && c < j && h[c].Entered? && h[c].t == h[j].t
            && Pending(h[..j]) == Pending(h[..c]) + [Call(c, h[c].t, h[c].kind)]
            && Pending(h[..j + 1]) == Pending(h[..c])
            && (h[c].kind == Killing ==> h[j].received == None && h[j].rc == if h[j].exited then 0 else -1)
            && (h[c].kind != Killing ==> h[j].received == h[j].sent && h[j].rc == if h[j].exited then 1 else 0)
  {
    hide Pending, Expected, WellRun;
    EventAt(h, ops, numStacks, j);
    LeftIs(h[..j], ops[j], numStacks, h[j]);
    PendingMeans(h[..j], |Pending(h[..j])| - 1);
    assert h[..j][..h[j].call] == h[..h[j].call];
  }

  /** The calls that are pending at a later time were pending then, or made since. */
  lemma {:induction false} PendingSince(h: History, i: nat, c: Call)
    requires i <= |h| && c in Pending(h)
    ensures c in Pending(h[..i]) || i <= c.id
    decreases |h|
  {
    if i == |h| {
      assert h[..i] == h;
    } else {
      var before := h[..|h| - 1];
      if c in Pending(before) {
        PendingSince(before, i, c);
        assert before[..i] == h[..i];
      }
    }
  }

  lemma OlderCalls(h: History, c: Call)
    requires c in Pending(h)
    ensures c.id < |h|
  {
    var i :| 0 <= i < |Pending(h)| && Pending(h)[i] == c;
    PendingMeans(h, i);
  }

  /** And once only. */
  lemma ReturnsOnce(h: History, ops: seq<Op>, numStacks: nat, i: nat, j: nat)
    requires WellRun(h, ops, numStacks) && i < j < |h| && h[i].Left? && h[j].Left?
    ensures h[i].call != h[j].call
  {
    hide Pending, Expected, WellRun;
    CallReturns(h, ops, numStacks, i);
    CallReturns(h, ops, numStacks, j);
    var c := h[j].call;
    var call := Call(c, h[c].t, h[c].kind);
    assert call in Pending(h[..j]);
    PendingSince(h[..j], i + 1, call);
    assert h[..j][..i + 1] == h[..i + 1];
    if call in Pending(h[..i + 1]) {
      OlderCalls(h[..h[i].call], call);
    }
  }

  // ----- yields and their returns -----

  /** A suspended thread did nothing since its last yield. */
  lemma {:induction false} Suspended(h: History, t: nat)
    requires StateOf(h, t) == SUSPENDED
    ensures var y := YieldOf(h, t);
            && y.Some? && h[y.value].Left? && h[y.value].t == t && !h[y.value].exited
            && forall i :: y.value < i < |h| ==> !(h[i].Entered? && h[i].t == t) && !(h[i].Left? && h[i].t == t)
    decreases |h|
  {
    var e := h[|h| - 1];
    if !(e.Left? && e.t == t) {
      Suspended(h[..|h| - 1], t);
    }
  }

  /** Each yield returns with the message of the next resume of its thread; with nothing,
      and the order to exit, when that is a kill. */
  lemma YieldReturns(h: History, ops: seq<Op>, numStacks: nat, j: nat)
    requires WellRun(h, ops, numStacks) && j < |h| && h[j].Entered? && h[j].kind != Starting
    ensures var y := h[j].woke;
            && y.Some? && y.value < j && h[y.value].Left? && h[y.value].t == h[j].t && !h[y.value].exited
            && (forall i :: y.value < i < j ==> !(h[i].Entered? && h[i].t == h[j].t))
            && h[j].received == h[j].sent && h[j].mustExit == (h[j].kind == Killing)
            && (h[j].kind == Killing ==> h[j].sent == None)
  {
    var before := h[..j];
    Suspended(before, h[j].t);
    forall i | h[j].woke.value < i < j ensures !(h[i].Entered? && h[i].t == h[j].t) {
      assert before[i] == h[i];
    }
  }

  // ----- threads -----

  /** The threads of the pending calls are the running ones, each once. */
  ghost predicate RunningPending(h: History) {
    && (forall i :: 0 <= i < |Pending(h)| ==> StateOf(h, Pending(h)[i].t) == RUNNING)
    && (forall i, j :: 0 <= i < j < |Pending(h)| ==> Pending(h)[i].t != Pending(h)[j].t)
    && (forall t :: StateOf(h, t) == RUNNING ==> exists i :: 0 <= i < |Pending(h)| && Pending(h)[i].t == t)
  }

  lemma {:induction false} PendingRuns(h: History, ops: seq<Op>, numStacks: nat)
    requires WellRun(h, ops, numStacks)
    ensures RunningPending(h)
    decreases |h|
  {
    if h != [] {
      hide RunningPending, Expected, WellRun;
      var j := |h| - 1;
      EventAt(h, ops, numStacks, j);
      PendingRuns(h[..j], ops, numStacks);
      RunsStep(h[..j], ops[j], numStacks, h);
    }
  }

  lemma RunsStep(before: History, op: Op, numStacks: nat, h: History)
    requires RunningPending(before) && h == before + [Expected(before, op, numStacks)]
    ensures RunningPending(h)
  {
    var e := Expected(before, op, numStacks);
    Last(before, e);
    var p, q := Pending(before), Pending(h);
    forall t ensures StateOf(h, t) == if (e.Entered? || e.Left?) && e.t == t
                                      then (if e.Entered? then RUNNING else if e.exited then EXIT else SUSPENDED)
                                      else StateOf(before, t)
    {
    }
    if e.Entered? {
      assert q == p + [Call(|before|, e.t, e.kind)];
      forall t | StateOf(h, t) == RUNNING ensures exists i :: 0 <= i < |q| && q[i].t == t {
        if t == e.t {
          assert q[|p|].t == t;
        } else {
          var i :| 0 <= i < |p| && p[i].t == t;
          assert q[i].t == t;
        }
      }
    } else if e.Left? {
      assert q == p[..|p| - 1] && e.t == p[|p| - 1].t;
      forall t | StateOf(h, t) == RUNNING ensures exists i :: 0 <= i < |q| && q[i].t == t {
        var i :| 0 <= i < |p| && p[i].t == t;
        assert q[i].t == t;
      }
    } else {
      assert q == p;
    }
  }

  /** A thread that exited stays so: nothing enters it, and it does nothing. */
  lemma {:induction false} ExitStays(h: History, ops: seq<Op>, numStacks: nat, i: nat, j: nat)
    requires WellRun(h, ops, numStacks) && i < j <= |h| && h[i].Left? && h[i].exited
    ensures StateOf(h[..j], h[i].t) == EXIT
    decreases j
  {
    hide WellRun;
    EventAt(h, ops, numStacks, j - 1);
    Last(h[..j - 1], h[j - 1]);
    if i < j - 1 {
      ExitStays(h, ops, numStacks, i, j - 1);
      PendingRuns(h[..j - 1], ops, numStacks);
      Absorbs(h[..j - 1], ops[j - 1], numStacks, h[i].t);
    }
  }

  /** What no operation does to a thread that exited. */
  lemma Absorbs(before: History, op: Op, numStacks: nat, t: nat)
    requires RunningPending(before) && StateOf(before, t) == EXIT
    ensures var e := Expected(before, op, numStacks);
            !((e.Entered? || e.Left? || e.Set?) && e.t == t) && StateOf(before + [e], t) == EXIT
  {
    Last(before, Expected(before, op, numStacks));
  }

  lemma ExitIsFinal(h: History, ops: seq<Op>, numStacks: nat, i: nat, j: nat)
    requires WellRun(h, ops, numStacks) && i < j < |h| && h[i].Left? && h[i].exited
    ensures !((h[j].Entered? || h[j].Left? || h[j].Set?) && h[j].t == h[i].t)
  {
    hide WellRun, RunningPending, Expected;
    ExitStays(h, ops, numStacks, i, j);
    EventAt(h, ops, numStacks, j);
    PendingRuns(h[..j], ops, numStacks);
    Absorbs(h[..j], ops[j], numStacks, h[i].t);
  }

  // ----- what an exit delivers -----

  /** The last yield of the thread, if any, carried no message, and no value was set
      after it. */
  ghost predicate NoWord(h: History, t: nat) {
    match YieldOf(h, t)
    case None => forall i :: 0 <= i < |h| ==> !(h[i].Set? && h[i].t == t)
    case Some(y) =>
      && h[y].Left? && h[y].sent == None
      && forall i :: y < i < |h| ==> !(h[i].Set? && h[i].t == t)
  }

  lemma {:induction false} ValueMeans(h: History, t: nat)
    ensures ValueOf(h, t) == None <==> NoWord(h, t)
    decreases |h|
  {
    if h != [] {
      var before, e := h[..|h| - 1], h[|h| - 1];
      ValueMeans(before, t);
      if e.Set? && e.t == t {
        assert h[|h| - 1].Set? && h[|h| - 1].t == t;
      } else if e.Left? && e.t == t && !e.exited {
      } else {
        assert forall i :: 0 <= i < |before| ==> h[i] == before[i];
      }
    }
  }

  /** An exit that returns to a start or resume delivers nothing if and only if the last
      yield of the thread carried no message and no value was set since; else it
      delivers an old message again, or the value. */
  lemma ExitDelivers(h: History, ops: seq<Op>, numStacks: nat, j: nat)
    requires WellRun(h, ops, numStacks) && j < |h| && h[j].Left? && h[j].exited
    requires h[j].call < j && h[h[j].call].Entered? && h[h[j].call].kind != Killing
    ensures h[j].received == None <==> NoWord(h[..j], h[j].t)
  {
    hide WellRun, Expected, Pending;
    CallReturns(h, ops, numStacks, j);
    EventAt(h, ops, numStacks, j);
    LeftIs(h[..j], ops[j], numStacks, h[j]);
    ValueMeans(h[..j], h[j].t);
  }

  // ----- kills -----

  lemma {:induction false} AskedStays(h: History, i: nat, t: nat)
    requires i <= |h| && AskedOf(h[..i], t)
    ensures AskedOf(h, t)
    decreases |h|
  {
    if i == |h| {
      assert h[..i] == h;
    } else {
      assert h[..|h| - 1][..i] == h[..i];
      AskedStays(h[..|h| - 1], i, t);
    }
  }

  /** A kill that switched returns 0, and its thread has exited. */
  lemma KillReturns(h: History, ops: seq<Op>, numStacks: nat, j: nat)
    requires WellRun(h, ops, numStacks) && j < |h| && h[j].Left? && h[j].call < j && h[h[j].call].Entered?
    requires h[h[j].call].kind == Killing
    ensures h[j].exited && h[j].rc == 0
  {
    hide WellRun, Expected, Pending;
    CallReturns(h, ops, numStacks, j);
    EventAt(h, ops, numStacks, j);
    LeftIs(h[..j], ops[j], numStacks, h[j]);
    var c := h[j].call;
    EventAt(h, ops, numStacks, c);
    Last(h[..c], h[c]);
    assert h[..j][..c + 1] == h[..c + 1];
    AskedStays(h[..j], c + 1, h[c].t);
  }
}
