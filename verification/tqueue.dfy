/** The bounded queue of tutils/tqueue.c: what each region does while it holds the
    mutex, first as functions on the shared fields, then as the methods that
    change them. */
module TQueue {
  import DList
  import opened Links

  /** A queue entry: the null pointer of an exit message, or a user's pointer. */
  datatype Entry = Exit | Item(data: int)

  /** The shared fields.  The list is written from its pop end (DLIST_pop_back) to
      its push end (DLIST_push_front). */
  datatype Shared = Shared(queue: seq<Entry>, maxCount: nat, waitingEmpty: nat, waitingFull: nat)

  /** How a region ends: it blocks on its condition variable, or releases the mutex
      after it did or did not signal the other one. */
  datatype Ending = Wait | Signal | Quiet

  predicate Full(s: Shared) {
    s.maxCount != 0 && |s.queue| >= s.maxCount
  }

  function SignalEmpty(s: Shared): Ending {
    if s.waitingEmpty > 0 then Signal else Quiet
  }

  function PushFront(s: Shared, d: int): Shared {
    s.(queue := s.queue + [Item(d)])
  }

  /** TQUEUE_push_block_on_queue_full up to its wait, or to its end. */
  function PushEnter(s: Shared, d: int): (Shared, Ending) {
    if Full(s) then (s.(waitingFull := s.waitingFull + 1), Wait)
    else (PushFront(s, d), SignalEmpty(s))
  }

  /** The same function after its wait: the counter goes up a second time, and the
      entry is pushed without another look at the size. */
  function PushResume(s: Shared, d: int): (Shared, Ending) {
    (PushFront(s.(waitingFull := s.waitingFull + 1), d), SignalEmpty(s))
  }

  /** TQUEUE_push_fail_on_queue_full; the last part is its return code. */
  function PushFail(s: Shared, d: int): (Shared, Ending, int) {
    if Full(s) then (s, Quiet, -1) else (PushFront(s, d), SignalEmpty(s), 0)
  }

  /** TQUEUE_push_exit_message: the message goes to the pop end. */
  function PushExit(s: Shared): (Shared, Ending) {
    (s.(queue := [Exit] + s.queue), SignalEmpty(s))
  }

  function PopBack(s: Shared): Shared {
    if s.queue == [] then s else s.(queue := s.queue[1..])
  }

  function SignalFull(s: Shared): Ending {
    if s.waitingFull != 0 then Signal else Quiet
  }

  /** TQUEUE_pop up to its wait, or to its end. */
  function PopEnter(s: Shared): (Shared, Ending) {
    if s.queue == [] then (s.(waitingEmpty := s.waitingEmpty + 1), Wait)
    else (PopBack(s), SignalFull(s))
  }

  /** The same function after its wait. */
  function PopResume(s: Shared): (Shared, Ending)
    requires s.waitingEmpty > 0
  {
    (PopBack(s.(waitingEmpty := s.waitingEmpty - 1)), SignalFull(s))
  }

  /** The entries of a list, last node first. */
  function Listed(nodes: seq<Node>, entries: map<Node, Entry>): (q: seq<Entry>)
    requires forall n :: n in nodes ==> n in entries
    ensures |q| == |nodes| && forall i :: 0 <= i < |q| ==> q[i] == entries[nodes[|nodes| - 1 - i]]
  {
    seq(|nodes|, i requires 0 <= i < |nodes| => entries[nodes[|nodes| - 1 - i]])
  }

  /** A new node at either end, or the last node gone. */
  lemma ListedEnds(nodes: seq<Node>, entries: map<Node, Entry>, n: Node, e: Entry)
    requires (forall m :: m in nodes ==> m in entries) && n !in nodes
    ensures var more := entries[n := e];
            && (forall m :: m in [n] + nodes ==> m in more) && Listed([n] + nodes, more) == Listed(nodes, entries) + [e]
            && (forall m :: m in nodes + [n] ==> m in more) && Listed(nodes + [n], more) == [e] + Listed(nodes, entries)
  {
    var more := entries[n := e];
    assert Listed([n] + nodes, more)[|nodes|] == e;
    forall i | 0 <= i < |nodes| ensures Listed([n] + nodes, more)[i] == Listed(nodes, entries)[i] {
      assert ([n] + nodes)[|nodes| - i] == nodes[|nodes| - 1 - i];
    }
    forall i | 0 < i <= |nodes| ensures Listed(nodes + [n], more)[i] == Listed(nodes, entries)[i - 1] {
      assert (nodes + [n])[|nodes| - i] == nodes[|nodes| - i];
    }
  }

  lemma ListedPop(nodes: seq<Node>, entries: map<Node, Entry>)
    requires (forall m :: m in nodes ==> m in entries) && nodes != []
    requires forall i, j :: 0 <= i < j < |nodes| ==> nodes[i] != nodes[j]
    ensures var (rest, last) := (nodes[..|nodes| - 1], nodes[|nodes| - 1]);
            && (forall m :: m in rest ==> m in entries - {last})
            && Listed(nodes, entries) == [entries[last]] + Listed(rest, entries - {last})
  {
  }

  /** The queue over its linked list.  A list node is the link of a TQUEUE_Entry;
      entries gives the pointer that is stored behind the link. */
  class Queue {
    const list: DList.List
    var entries: map<Node, Entry>
    const maxCount: nat
    var waitingEmpty: nat
    var waitingFull: nat
    ghost var nodes: seq<Node>

    ghost predicate Valid()
      reads this, list, nodes
    {
      list.Holds(nodes) && forall n :: n in nodes ==> n in entries
    }

    constructor (maxCount: nat)
      ensures Valid() && Fields() == Shared([], maxCount, 0, 0) && fresh(list) && nodes == []
    {
      list := new DList.List();
      entries := map[];
      this.maxCount := maxCount;
      waitingEmpty, waitingFull := 0, 0;
      nodes := [];
    }

    ghost function Fields(): Shared
      requires Valid()
      reads this, list, nodes
    {
      Shared(Listed(nodes, entries), maxCount, waitingEmpty, waitingFull)
    }

    /** Only new nodes come into the list. */
    twostate predicate Grew()
      reads this
    {
      forall n :: n in nodes ==> n in old(nodes) || fresh(n)
    }

    /** push_entry of one pointer. */
    method PushEntry(d: int)
      requires Valid()
      modifies this`entries, this`nodes, list, nodes
      ensures Valid() && Grew() && Fields() == PushFront(old(Fields()), d)
    {
      hide Listed, DList.Chained;
      var entry := new Node(0);
      ListedEnds(nodes, entries, entry, Item(d));
      entries := entries[entry := Item(d)];
      list.PushFront(entry, nodes);
      nodes := [entry] + nodes;
    }

    lemma DistinctNodes()
      requires Valid()
      ensures forall i, j :: 0 <= i < j < |nodes| ==> nodes[i] != nodes[j]
    {
    }

    /** DLIST_pop_back with the release of the entry. */
    method PopEntry() returns (ret: Entry)
      requires Valid()
      modifies this`entries, this`nodes, list, nodes
      ensures Valid() && Grew() && Fields() == PopBack(old(Fields()))
      ensures ret == if old(Fields()).queue == [] then Exit else old(Fields()).queue[0]
    {
      hide Listed, DList.Chained;
      ret := Exit;
      DistinctNodes();
      if nodes != [] {
        ListedPop(nodes, entries);
      }
      var entry := list.PopBack(nodes);
      if entry != null {
        ret := entries[entry];
        nodes := nodes[..|nodes| - 1];
        entries := entries - {entry};
      }
    }

    method IsEmpty() returns (r: bool)
      requires Valid()
      ensures r <==> Fields().queue == []
    {
      r := list.next == null;
    }

    method EnterPush(d: int) returns (e: Ending)
      requires Valid()
      modifies this`entries, this`nodes, this`waitingFull, list, nodes
      ensures Valid() && Grew() && (Fields(), e) == PushEnter(old(Fields()), d)
      ensures e == Wait <==> maxCount != 0 && |old(Fields()).queue| >= maxCount
      ensures if e == Wait then Fields() == old(Fields()).(waitingFull := old(waitingFull) + 1)
              else Fields() == old(Fields()).(queue := old(Fields()).queue + [Item(d)])
      ensures e != Wait ==> (e == Signal <==> waitingEmpty > 0)
    {
      if maxCount != 0 && list.elmcount >= maxCount {
        waitingFull := waitingFull + 1;
        return Wait;
      }
      PushEntry(d);
      return if waitingEmpty > 0 then Signal else Quiet;
    }

    method ResumePush(d: int) returns (e: Ending)
      requires Valid()
      modifies this`entries, this`nodes, this`waitingFull, list, nodes
      ensures Valid() && Grew() && (Fields(), e) == PushResume(old(Fields()), d)
      ensures Fields() == old(Fields()).(queue := old(Fields()).queue + [Item(d)], waitingFull := old(waitingFull) + 1)
      ensures e == if waitingEmpty > 0 then Signal else Quiet
    {
      waitingFull := waitingFull + 1;
      PushEntry(d);
      return if waitingEmpty > 0 then Signal else Quiet;
    }

    method PushFailOnQueueFull(d: int) returns (e: Ending, rc: int)
      requires Valid()
      modifies this`entries, this`nodes, list, nodes
      ensures Valid() && Grew() && (Fields(), e, rc) == PushFail(old(Fields()), d)
      ensures rc == if maxCount != 0 && |old(Fields()).queue| >= maxCount then -1 else 0
      ensures rc == -1 ==> Fields() == old(Fields()) && e == Quiet
      ensures rc == 0 ==> Fields() == old(Fields()).(queue := old(Fields()).queue + [Item(d)])
      ensures rc == 0 ==> e == if waitingEmpty > 0 then Signal else Quiet
    {
      if maxCount != 0 && list.elmcount >= maxCount {
        return Quiet, -1;
      }
      PushEntry(d);
      return if waitingEmpty > 0 then Signal else Quiet, 0;
    }

    method PushExitMessage() returns (e: Ending)
      requires Valid()
      modifies this`entries, this`nodes, list, nodes
      ensures Valid() && Grew() && (Fields(), e) == PushExit(old(Fields()))
      ensures Fields() == old(Fields()).(queue := [Exit] + old(Fields()).queue)
      ensures e == if waitingEmpty > 0 then Signal else Quiet
    {
      hide Listed, DList.Chained;
      var entry := new Node(0);
      ListedEnds(nodes, entries, entry, Exit);
      entries := entries[entry := Exit];
      list.PushBack(entry, nodes);
      nodes := nodes + [entry];
      return if waitingEmpty > 0 then Signal else Quiet;
    }

    method PopNonBlocking() returns (rc: int, entry: Entry)
      requires Valid()
      modifies this`entries, this`nodes, list, nodes
      ensures Valid() && Grew() && Fields() == PopBack(old(Fields()))
      ensures rc == if old(Fields()).queue == [] then -1 else 0
      ensures rc == 0 ==> entry == old(Fields()).queue[0]
    {
      rc := if list.next == null then -1 else 0;
      entry := PopEntry();
    }

    method EnterPop() returns (ret: Entry, e: Ending)
      requires Valid()
      modifies this`entries, this`nodes, this`waitingEmpty, list, nodes
      ensures Valid() && Grew() && (Fields(), e) == PopEnter(old(Fields()))
      ensures ret == if old(Fields()).queue == [] then Exit else old(Fields()).queue[0]
      ensures e == Wait <==> old(Fields()).queue == []
      ensures e == Wait ==> Fields() == old(Fields()).(waitingEmpty := old(waitingEmpty) + 1)
      ensures e != Wait ==> Fields() == old(Fields()).(queue := old(Fields()).queue[1..])
      ensures e != Wait ==> (e == Signal <==> waitingFull != 0)
    {
      if list.next == null {
        waitingEmpty := waitingEmpty + 1;
        return Exit, Wait;
      }
      ret := PopEntry();
      return ret, if waitingFull != 0 then Signal else Quiet;
    }

    method ResumePop() returns (ret: Entry, e: Ending)
      requires Valid() && waitingEmpty > 0
      modifies this`entries, this`nodes, this`waitingEmpty, list, nodes
      ensures Valid() && Grew() && (Fields(), e) == PopResume(old(Fields()))
      ensures waitingEmpty == old(waitingEmpty) - 1 && waitingFull == old(waitingFull)
      ensures Fields().queue == if old(Fields()).queue == [] then [] else old(Fields()).queue[1..]
      ensures e == if waitingFull != 0 then Signal else Quiet
      ensures ret == if old(Fields()).queue == [] then Exit else old(Fields()).queue[0]
    {
      waitingEmpty := waitingEmpty - 1;
      ret := PopEntry();
      return ret, if waitingFull != 0 then Signal else Quiet;
    }
  }
}
