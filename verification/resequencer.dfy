/** The result handler of rsautl/rsautl.c on its encrypt path: worker threads finish
    requests in any order, the handler writes their blocks in file order and parks
    early ones in a heap. */
module Resequencer {
  import opened Heap
  import opened Seqs

  type byte = b: int | 0 <= b < 256

  datatype Request = Request(sequenceNo: int, inLen: nat, out: seq<byte>)

  /** What is popped from the response queue: Null is the null pointer, Failed a
      request with action_status -1. */
  datatype Message = Null | Failed | Done(r: Request)

  datatype Entry = Entry(sequenceNo: int, r: Request)

  function HeapCompare(a: Entry, b: Entry): int {
    if a.sequenceNo < b.sequenceNo then -1 else if a.sequenceNo > b.sequenceNo then 1 else 0
  }

  const MAX_PENDING_REQUEST: nat := 100

  // ----- the file that is encrypted -----

  function Length(blocks: seq<Request>): nat {
    if blocks == [] then 0 else Length(blocks[..|blocks| - 1]) + blocks[|blocks| - 1].inLen
  }

  function Output(blocks: seq<Request>): seq<byte> {
    if blocks == [] then [] else Output(blocks[..|blocks| - 1]) + blocks[|blocks| - 1].out
  }

  /** The outputs one after the other. */
  lemma {:induction false} OutputIs(blocks: seq<Request>)
    ensures Output(blocks) == Concat(seq(|blocks|, i requires 0 <= i < |blocks| => blocks[i].out))
  {
    var outs := seq(|blocks|, i requires 0 <= i < |blocks| => blocks[i].out);
    if blocks != [] {
      var m := |blocks| - 1;
      OutputIs(blocks[..m]);
      ConcatLast(outs);
      assert outs[..m] == seq(m, i requires 0 <= i < m => blocks[..m][i].out);
    }
  }

  /** The length counts what was read, block by block from the front. */
  lemma {:induction false} LengthIs(b: Request, blocks: seq<Request>)
    ensures Length([b] + blocks) == b.inLen + Length(blocks)
  {
    var all := [b] + blocks;
    if blocks == [] {
      assert all[..0] == [];
    } else {
      assert all[..|all| - 1] == [b] + blocks[..|blocks| - 1];
      LengthIs(b, blocks[..|blocks| - 1]);
    }
  }

  /** The requests that the reader of a file makes: numbered from 1, none of them
      empty. */
  ghost predicate IsFile(blocks: seq<Request>) {
    blocks != [] && forall i :: 0 <= i < |blocks| ==> blocks[i].sequenceNo == i + 1 && blocks[i].inLen > 0
  }

  lemma {:induction false} LengthGrows(blocks: seq<Request>, k: nat)
    requires IsFile(blocks) && k <= |blocks|
    ensures Length(blocks[..k]) <= Length(blocks)
    ensures Length(blocks[..k]) == Length(blocks) <==> k == |blocks|
    decreases |blocks| - k
  {
    if k == |blocks| {
      assert blocks[..k] == blocks;
    } else {
      LengthGrows(blocks, k + 1);
      assert blocks[..k + 1][..k] == blocks[..k];
    }
  }

  lemma OneMore(blocks: seq<Request>, k: nat)
    requires k < |blocks|
    ensures Length(blocks[..k + 1]) == Length(blocks[..k]) + blocks[k].inLen
    ensures Output(blocks[..k + 1]) == Output(blocks[..k]) + blocks[k].out
  {
    assert blocks[..k + 1][..k] == blocks[..k];
  }

  function EntryOf(blocks: seq<Request>, i: nat): Entry
    requires i < |blocks|
  {
    Entry(i + 1, blocks[i])
  }

  /** e is the entry of an arrived block with number k or more. */
  ghost predicate Belongs(e: Entry, blocks: seq<Request>, arrived: set<nat>, k: nat) {
    && 1 <= e.sequenceNo <= |blocks| && e == EntryOf(blocks, e.sequenceNo - 1)
    && e.sequenceNo - 1 in arrived && k <= e.sequenceNo - 1
  }

  /** The heap holds exactly the arrived blocks from number k on, each once. */
  ghost predicate Parked(ms: multiset<Entry>, blocks: seq<Request>, arrived: set<nat>, k: nat) {
    && (forall i :: i in arrived ==> i < |blocks|)
    && (forall e :: ms[e] == if Belongs(e, blocks, arrived, k) then 1 else 0)
  }

  /** The blocks 0..k-1 have arrived, and block k has not. */
  ghost predicate LongestRun(arrived: set<nat>, k: nat) {
    (forall i: nat :: i < k ==> i in arrived) && k !in arrived
  }

  /** A minimal entry tells whether block k has arrived. */
  lemma ParkedTop(ms: multiset<Entry>, blocks: seq<Request>, arrived: set<nat>, k: nat, top: Entry)
    requires Parked(ms, blocks, arrived, k) && top in ms
    requires forall e :: e in ms ==> HeapCompare(top, e) <= 0
    ensures k in arrived <==> top.sequenceNo == k + 1
    ensures top.sequenceNo == k + 1 ==> k < |blocks| && top == EntryOf(blocks, k)
  {
    assert Belongs(top, blocks, arrived, k);
    if k in arrived {
      var e := EntryOf(blocks, k);
      assert Belongs(e, blocks, arrived, k);
      assert ms[e] == 1;
      assert HeapCompare(top, e) <= 0;
    }
  }

  lemma ParkedEmpty(ms: multiset<Entry>, blocks: seq<Request>, arrived: set<nat>, k: nat)
    requires Parked(ms, blocks, arrived, k) && ms == multiset{}
    ensures k !in arrived
  {
    assert k < |blocks| ==> ms[EntryOf(blocks, k)] == 0;
  }

  lemma ParkedBound(ms: multiset<Entry>, blocks: seq<Request>, arrived: set<nat>, k: nat)
    requires Parked(ms, blocks, arrived, k)
    ensures forall i :: i in arrived ==> i < |blocks|
  {
  }

  lemma ParkedPop(ms: multiset<Entry>, ms': multiset<Entry>, blocks: seq<Request>, arrived: set<nat>, k: nat)
    requires Parked(ms, blocks, arrived, k) && k in arrived && ms' + multiset{EntryOf(blocks, k)} == ms
    ensures Parked(ms', blocks, arrived, k + 1)
  {
    forall e: Entry
      ensures ms'[e] == if Belongs(e, blocks, arrived, k + 1) then 1 else 0
    {
      assert ms[e] == ms'[e] + multiset{EntryOf(blocks, k)}[e];
    }
  }

  lemma ParkedPush(ms: multiset<Entry>, blocks: seq<Request>, arrived: set<nat>, k: nat, i: nat)
    requires Parked(ms, blocks, arrived, k) && i < |blocks| && i !in arrived && k <= i
    ensures Parked(ms + multiset{EntryOf(blocks, i)}, blocks, arrived + {i}, k)
  {
    var ms' := ms + multiset{EntryOf(blocks, i)};
    forall e: Entry
      ensures ms'[e] == if Belongs(e, blocks, arrived + {i}, k) then 1 else 0
    {
      assert ms'[e] == ms[e] + multiset{EntryOf(blocks, i)}[e];
    }
  }

  lemma ParkedDirect(ms: multiset<Entry>, blocks: seq<Request>, arrived: set<nat>, k: nat)
    requires Parked(ms, blocks, arrived, k) && k < |blocks| && k !in arrived
    ensures Parked(ms, blocks, arrived + {k}, k + 1)
  {
    forall e: Entry
      ensures Belongs(e, blocks, arrived + {k}, k + 1) <==> Belongs(e, blocks, arrived, k)
    {
    }
  }

  class Handler {
    const heap: Heap<Entry>
    const fileSize: nat
    var sequenceNo: int
    var filePos: nat
    var written: seq<byte>

    constructor (fileSize: nat)
      ensures heap.Valid() && heap.compare == HeapCompare && heap.Elements() == [] && fresh(heap) && fresh(heap.buffer)
      ensures this.fileSize == fileSize && sequenceNo == 1 && filePos == 0 && written == []
    {
      heap := new Heap<Entry>(MAX_PENDING_REQUEST, HeapCompare);
      this.fileSize, sequenceNo, filePos, written := fileSize, 1, 0, [];
    }

    /** The first k blocks are written; the arrived ones from k + taken on are
        parked. */
    ghost predicate AtWith(blocks: seq<Request>, arrived: set<nat>, k: nat, taken: nat)
      reads this, heap, heap.buffer
    {
      && IsFile(blocks) && fileSize == Length(blocks) && k <= |blocks|
      && heap.Valid() && heap.compare == HeapCompare
      && filePos == Length(blocks[..k]) && written == Output(blocks[..k])
      && Parked(multiset(heap.Elements()), blocks, arrived, k + taken)
    }

    ghost predicate At(blocks: seq<Request>, arrived: set<nat>, k: nat)
      reads this, heap, heap.buffer
    {
      AtWith(blocks, arrived, k, 0)
    }

    /** A look at the heap: takes the top if it is the block that comes next. */
    method TakeNext(ghost blocks: seq<Request>, ghost arrived: set<nat>, ghost k: nat)
      returns (found: bool, r: Request)
      requires At(blocks, arrived, k) && sequenceNo == k + 1
      modifies this`sequenceNo, heap, heap.buffer
      ensures heap.buffer == old(heap.buffer)
      ensures found <==> k in arrived
      ensures !found ==> At(blocks, arrived, k) && sequenceNo == k + 1
      ensures found ==>
                k < |blocks| && r == blocks[k] && sequenceNo == k + 2 && AtWith(blocks, arrived, k, 1)
    {
      hide TotalPreorder, HeapOrder, Parked;
      r := Request(0, 0, []);
      ghost var ms := multiset(heap.Elements());
      if heap.elmcount == 0 {
        ParkedEmpty(ms, blocks, arrived, k);
        return false, r;
      }
      var entry := heap.Top();
      ParkedTop(ms, blocks, arrived, k, entry);
      if entry.sequenceNo != sequenceNo {
        return false, r;
      }
      r := entry.r;
      var _ := heap.Pop();
      ParkedPop(ms, multiset(heap.Elements()), blocks, arrived, k);
      sequenceNo := sequenceNo + 1;
      found := true;
    }

    /** The inner loop: r is the block that comes next, or None when it was parked. */
    method WriteRun(first: bool, r0: Request, ghost blocks: seq<Request>, ghost arrived: set<nat>, ghost k0: nat)
      returns (ghost k: nat)
      requires first ==> k0 < |blocks| && r0 == blocks[k0] && k0 in arrived && sequenceNo == k0 + 2
      requires !first ==> sequenceNo == k0 + 1
      requires AtWith(blocks, arrived, k0, if first then 1 else 0) && k0 < |blocks|
      requires forall i: nat :: i < k0 ==> i in arrived
      modifies this, heap, heap.buffer
      ensures At(blocks, arrived, k) && sequenceNo == k + 1 && heap.buffer == old(heap.buffer)
      ensures LongestRun(arrived, k)
    {
      hide TotalPreorder, HeapOrder, Parked, IsFile, Length, Output, AtWith;
      k := k0;
      var has, r := first, r0;
      Written(blocks, arrived, k, if has then 1 else 0);
      while filePos != fileSize
        invariant has ==> k < |blocks| && r == blocks[k] && k in arrived && sequenceNo == k + 2
        invariant !has ==> sequenceNo == k + 1
        invariant AtWith(blocks, arrived, k, if has then 1 else 0) && heap.buffer == old(heap.buffer)
        invariant forall i: nat :: i < k ==> i in arrived
        invariant k <= |blocks| && (filePos == fileSize <==> k == |blocks|) && (k == |blocks| ==> k !in arrived)
        decreases |blocks| - k
      {
        if !has {
          has, r := TakeNext(blocks, arrived, k);
          if !has {
            return;
          }
        }
        WriteOne(r, blocks, arrived, k);
        k := k + 1;
        has := false;
        Written(blocks, arrived, k, 0);
        if filePos == fileSize {
          break;
        }
      }
    }

    /** The block that comes next is written. */
    method WriteOne(r: Request, ghost blocks: seq<Request>, ghost arrived: set<nat>, ghost k: nat)
      requires AtWith(blocks, arrived, k, 1) && k < |blocks| && r == blocks[k]
      modifies this`written, this`filePos
      ensures AtWith(blocks, arrived, k + 1, 0)
    {
      hide TotalPreorder, HeapOrder, Parked, IsFile, Length, Output, Belongs;
      OneMore(blocks, k);
      written := written + r.out;
      filePos := filePos + r.inLen;
    }

    /** All is written when as much as the file is long is. */
    lemma Written(blocks: seq<Request>, arrived: set<nat>, k: nat, taken: nat)
      requires AtWith(blocks, arrived, k, taken)
      ensures k <= |blocks| && filePos == fileSize <==> k == |blocks|
      ensures k == |blocks| ==> k !in arrived
    {
      LengthGrows(blocks, k);
      ParkedBound(multiset(heap.Elements()), blocks, arrived, k + taken);
    }

    /** One turn of the outer loop for a finished request, block number i: after it
        the written blocks are the longest run among the arrived ones. */
    method Handle(r: Request, ghost i: nat, ghost blocks: seq<Request>, ghost arrived: set<nat>, ghost k0: nat)
      returns (ghost k: nat)
      requires At(blocks, arrived, k0) && LongestRun(arrived, k0) && sequenceNo == k0 + 1 && k0 < |blocks|
      requires i < |blocks| && i !in arrived && r == blocks[i]
      modifies this, heap, heap.buffer
      ensures At(blocks, arrived + {i}, k) && LongestRun(arrived + {i}, k) && sequenceNo == k + 1
      ensures heap.buffer == old(heap.buffer) || fresh(heap.buffer)
    {
      hide TotalPreorder, HeapOrder, Parked, LongestRun, IsFile, Length, Output;
      NewArrival(blocks, arrived, k0, i);
      ghost var ms := multiset(heap.Elements());
      if r.sequenceNo != sequenceNo {
        ParkedPush(ms, blocks, arrived, k0, i);
        heap.Push(Entry(r.sequenceNo, r));
        k := WriteRun(false, r, blocks, arrived + {i}, k0);
      } else {
        ParkedDirect(ms, blocks, arrived, k0);
        sequenceNo := sequenceNo + 1;
        k := WriteRun(true, r, blocks, arrived + {i}, k0);
      }
    }
  }

  lemma NewArrival(blocks: seq<Request>, arrived: set<nat>, k: nat, i: nat)
    requires IsFile(blocks) && LongestRun(arrived, k) && i < |blocks| && i !in arrived
    ensures k <= i && blocks[i].sequenceNo == i + 1 && k !in arrived
    ensures forall j: nat :: j < k ==> j in arrived + {i}
  {
  }

  /** Finished: the whole file is written; Broken: a null message or a failed
      request came; Starved: no message is left, and the handler would block. */
  datatype Verdict = Finished | Broken | Starved

  /** The messages are requests of the file, in some order and none twice, up to the
      first null message or failed request. */
  ghost predicate FromFile(blocks: seq<Request>, messages: seq<Message>) {
    && (forall m :: m in messages && m.Done? ==> m.r in blocks)
    && (forall i, j :: 0 <= i < j < |messages| && messages[i].Done? ==> messages[i] != messages[j])
  }

  /** The numbers of the blocks among the messages. */
  ghost function Arrived(blocks: seq<Request>, messages: seq<Message>): set<nat> {
    set i | 0 <= i < |blocks| && Done(blocks[i]) in messages
  }

  /** do_handle_result on its encrypt path. */
  method HandleResult(ghost blocks: seq<Request>, fileSize: nat, messages: seq<Message>)
    returns (v: Verdict, written: seq<byte>, used: nat, ghost k: nat)
    requires IsFile(blocks) && fileSize == Length(blocks) && FromFile(blocks, messages)
    ensures used <= |messages|
    ensures k <= |blocks| && written == Output(blocks[..k])
    ensures v == Broken <==> used > 0 && !messages[used - 1].Done?
    ensures v == Starved ==> used == |messages|
    ensures v == Finished <==> k == |blocks|
    ensures forall j :: 0 <= j < used - (if v == Broken then 1 else 0) ==> messages[j].Done?
    ensures LongestRun(Arrived(blocks, messages[..used]), k)
    ensures Null !in messages && Failed !in messages && (forall b :: b in blocks ==> Done(b) in messages) ==>
              v == Finished && written == Output(blocks)
  {
    hide TotalPreorder, HeapOrder, Parked, Length, Output;
    var h := new Handler(fileSize);
    used, k := 0, 0;
    assert blocks[..0] == [];
    NothingWritten();
    StartParked(multiset(h.heap.Elements()), blocks);
    LengthGrows(blocks, 0);
    assert Arrived(blocks, messages[..0]) == {};
    while true
      invariant fresh(h) && fresh(h.heap) && fresh(h.heap.buffer) && used <= |messages| && k < |blocks|
      invariant h.At(blocks, Arrived(blocks, messages[..used]), k) && h.sequenceNo == k + 1
      invariant LongestRun(Arrived(blocks, messages[..used]), k)
      invariant forall j :: 0 <= j < used ==> messages[j].Done?
      decreases |messages| - used
    {
      if used == |messages| {
        assert messages[..used] == messages;
        assert blocks[k] in blocks && Done(blocks[k]) !in messages;
        return Starved, h.written, used, k;
      }
      var m := messages[used];
      ArriveOne(blocks, messages, used);
      used := used + 1;
      if !m.Done? {
        return Broken, h.written, used, k;
      }
      ghost var i :| 0 <= i < |blocks| && blocks[i] == m.r;
      k := h.Handle(m.r, i, blocks, Arrived(blocks, messages[..used - 1]), k);
      LengthGrows(blocks, k);
      if h.filePos == fileSize {
        assert blocks[..k] == blocks;
        return Finished, h.written, used, k;
      }
    }
  }

  lemma NothingWritten()
    ensures Length([]) == 0 && Output([]) == []
  {
  }

  lemma StartParked(ms: multiset<Entry>, blocks: seq<Request>)
    requires ms == multiset{}
    ensures Parked(ms, blocks, {}, 0)
  {
  }

  lemma ArriveOne(blocks: seq<Request>, messages: seq<Message>, used: nat)
    requires IsFile(blocks) && FromFile(blocks, messages) && used < |messages|
    requires forall j :: 0 <= j < used ==> messages[j].Done?
    ensures !messages[used].Done? ==> Arrived(blocks, messages[..used + 1]) == Arrived(blocks, messages[..used])
    ensures messages[used].Done? ==> messages[used].r in blocks
    ensures forall i :: 0 <= i < |blocks| && Done(blocks[i]) == messages[used] ==>
              && i !in Arrived(blocks, messages[..used])
              && Arrived(blocks, messages[..used + 1]) == Arrived(blocks, messages[..used]) + {i}
  {
    assert messages[..used + 1] == messages[..used] + [messages[used]];
    assert messages[used] in messages;
    forall i | 0 <= i < |blocks| && Done(blocks[i]) == messages[used]
      ensures i !in Arrived(blocks, messages[..used])
      ensures Arrived(blocks, messages[..used + 1]) == Arrived(blocks, messages[..used]) + {i}
    {
      assert forall i' :: 0 <= i' < |blocks| && i' != i ==> blocks[i'] != blocks[i];
    }
  }
}
