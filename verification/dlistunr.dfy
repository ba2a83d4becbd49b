/** The unrolled list of cutils/dlistunr.c: a ring of nodes, each with a buffer of
    elements, that stands for one flat list. */
module UnrolledList {
  import opened Seqs

  // ----- the flat list behind the parts -----

  /** An insertion inside of part k. */
  lemma InsertInPart<T>(parts: seq<seq<T>>, k: nat, i: nat, x: T)
    requires k < |parts| && i <= |parts[k]|
    ensures |Concat(parts[..k])| + i <= |Concat(parts)|
    ensures Concat(parts[k := InsertAt(parts[k], i, x)]) == InsertAt(Concat(parts), |Concat(parts[..k])| + i, x)
  {
    hide Concat;
    var parts' := parts[k := InsertAt(parts[k], i, x)];
    ConcatAround(parts, k);
    ConcatAround(parts', k);
    assert parts'[..k] == parts[..k] && parts'[k + 1..] == parts[k + 1..];
  }

  lemma RemoveInPart<T>(parts: seq<seq<T>>, k: nat, i: nat)
    requires k < |parts| && i < |parts[k]|
    ensures |Concat(parts[..k])| + i < |Concat(parts)|
    ensures Concat(parts[k := RemoveAt(parts[k], i)]) == RemoveAt(Concat(parts), |Concat(parts[..k])| + i)
  {
    hide Concat;
    var parts' := parts[k := RemoveAt(parts[k], i)];
    ConcatAround(parts, k);
    ConcatAround(parts', k);
    assert parts'[..k] == parts[..k] && parts'[k + 1..] == parts[k + 1..];
  }

  lemma DropEmptyPart<T>(parts: seq<seq<T>>, k: nat)
    requires k < |parts| && parts[k] == []
    ensures Concat(RemoveAt(parts, k)) == Concat(parts)
  {
    hide Concat;
    ConcatAround(parts, k);
    ConcatSplit(RemoveAt(parts, k), k);
    assert RemoveAt(parts, k)[..k] == parts[..k] && RemoveAt(parts, k)[k..] == parts[k + 1..];
  }

  lemma AddEmptyPart<T>(parts: seq<seq<T>>, k: nat)
    requires k <= |parts|
    ensures Concat(InsertAt(parts, k, [])) == Concat(parts)
  {
    hide Concat;
    var parts' := InsertAt(parts, k, []);
    DropEmptyPart(parts', k);
    assert RemoveAt(parts', k) == parts;
  }

  /** Moving the last element of part k to the front of the next part. */
  lemma Spill<T>(parts: seq<seq<T>>, k: nat)
    requires k + 1 < |parts| && parts[k] != []
    ensures var m := |parts[k]| - 1;
            Concat(parts[k := parts[k][..m]][k + 1 := [parts[k][m]] + parts[k + 1]]) == Concat(parts)
  {
    hide Concat;
    var m := |parts[k]| - 1;
    var parts' := parts[k := parts[k][..m]][k + 1 := [parts[k][m]] + parts[k + 1]];
    TwoParts(parts, k);
    TwoParts(parts', k);
    assert parts'[..k] == parts[..k] && parts'[k + 2..] == parts[k + 2..];
    assert parts[k] + parts[k + 1] == parts[k][..m] + ([parts[k][m]] + parts[k + 1]);
  }

  lemma TwoParts<T>(parts: seq<seq<T>>, k: nat)
    requires k + 1 < |parts|
    ensures Concat(parts) == Concat(parts[..k]) + (parts[k] + parts[k + 1]) + Concat(parts[k + 2..])
  {
    ConcatAround(parts, k);
    ConcatAround(parts[k + 1..], 0);
    assert parts[k + 1..][..0] == [] && parts[k + 1..][1..] == parts[k + 2..];
    Regroup(Concat(parts[..k]), parts[k], parts[k + 1], Concat(parts[k + 2..]));
  }

  lemma Regroup<T>(a: seq<T>, b: seq<T>, c: seq<T>, d: seq<T>)
    ensures a + b + ([] + c + d) == a + (b + c) + d
  {
  }

  // ----- nodes and rings -----

  const NO_COUNT: int := 0xFFFF_FFFF_FFFF_FFFF

  class Node<T(0)> {
    var next: Node?<T>
    var prev: Node?<T>
    var elmcount: int
    const buffer: array<T>

    /** A node that is not linked yet. */
    constructor (size: nat)
      ensures elmcount == 0 && buffer.Length == size && fresh(buffer)
    {
      next, prev, elmcount := null, null, 0;
      buffer := new T[size];
    }
  }

  function Succ(i: nat, n: nat): nat
    requires i < n
  {
    if i + 1 < n then i + 1 else 0
  }

  ghost predicate Distinct<T(0)>(nodes: seq<Node<T>>) {
    forall i, j :: 0 <= i < j < |nodes| ==> nodes[i] != nodes[j]
  }

  /** The links between position i and its successor. */
  ghost predicate LinkAt<T(0)>(nodes: seq<Node<T>>, i: nat)
    requires i < |nodes|
    reads nodes
  {
    var s := nodes[Succ(i, |nodes|)];
    nodes[i].next == s && s.prev == nodes[i]
  }

  /** The nodes are distinct and linked into one ring in this order. */
  ghost predicate Ring<T(0)>(nodes: seq<Node<T>>)
    reads nodes
  {
    |nodes| > 0 && Distinct(nodes) && forall i :: 0 <= i < |nodes| ==> LinkAt(nodes, i)
  }

  /** A ring is a matter of its links alone. */
  twostate lemma RingKept<T(0)>(nodes: seq<Node<T>>)
    requires old(Ring(nodes)) && forall n :: n in nodes ==> n.next == old(n.next) && n.prev == old(n.prev)
    ensures Ring(nodes)
  {
    forall i | 0 <= i < |nodes|
      ensures LinkAt(nodes, i)
    {
      assert old(LinkAt(nodes, i));
    }
  }

  /** DRING_insert_before and DRING_insert_after. */
  method LinkAfter<T(0)>(node: Node<T>, newnode: Node<T>, ghost nodes: seq<Node<T>>, ghost k: nat)
    requires Ring(nodes) && k < |nodes| && nodes[k] == node && newnode !in nodes
    modifies nodes, newnode
    ensures Ring(InsertAt(nodes, k + 1, newnode))
    ensures forall n :: n in nodes || n == newnode ==> n.elmcount == old(n.elmcount)
  {
    ghost var n := |nodes|;
    ghost var j := Succ(k, n);
    assert LinkAt(nodes, k);
    var list := node.next;
    var prev := list.prev;
    prev.next := newnode;
    newnode.next := list;
    newnode.prev := prev;
    list.prev := newnode;
    ghost var nodes' := InsertAt(nodes, k + 1, newnode);
    assert Distinct(nodes') by {
      DistinctInsert(nodes, k + 1, newnode);
    }
    forall i | 0 <= i <= n
      ensures LinkAt(nodes', i)
    {
      if i < k || i > k + 1 {
        var i' := if i < k then i else i - 1;
        assert old(LinkAt(nodes, i'));
        SuccInjective(i', k, n);
        assert nodes[i'] != nodes[k] && nodes[Succ(i', n)] != nodes[j];
      }
    }
  }

  lemma SuccInjective(i: nat, j: nat, n: nat)
    requires i < n && j < n
    ensures Succ(i, n) == Succ(j, n) <==> i == j
  {
  }

  lemma DistinctInsert<T(0)>(nodes: seq<Node<T>>, k: nat, x: Node<T>)
    requires Distinct(nodes) && k <= |nodes| && x !in nodes
    ensures Distinct(InsertAt(nodes, k, x))
  {
  }

  lemma DistinctRemove<T(0)>(nodes: seq<Node<T>>, k: nat)
    requires Distinct(nodes) && k < |nodes|
    ensures Distinct(RemoveAt(nodes, k))
  {
  }

  /** DRING_unlink. */
  method UnlinkNode<T(0)>(node: Node<T>, ghost nodes: seq<Node<T>>, ghost k: nat)
    requires Ring(nodes) && 0 < k < |nodes| && nodes[k] == node
    modifies nodes
    ensures Ring(RemoveAt(nodes, k))
    ensures forall n :: n in nodes ==> n.elmcount == old(n.elmcount)
  {
    ghost var n := |nodes|;
    ghost var j := Succ(k, n);
    assert LinkAt(nodes, k) && LinkAt(nodes, k - 1);
    node.next.prev := node.prev;
    node.prev.next := node.next;
    ghost var nodes' := RemoveAt(nodes, k);
    assert Distinct(nodes') by {
      DistinctRemove(nodes, k);
    }
    forall i | 0 <= i < n - 1
      ensures LinkAt(nodes', i)
    {
      var i' := if i < k then i else i + 1;
      assert old(LinkAt(nodes, i'));
      if i' != k - 1 {
        SuccInjective(i', k, n);
        assert nodes[i'] != nodes[k - 1] && nodes[Succ(i', n)] != nodes[j];
      }
    }
  }

  /** A new node with one free slot, linked behind node k. */
  method NewLinkedNode<T(0)>(entry: Node<T>, size: nat, ghost nodes: seq<Node<T>>, ghost k: nat)
    returns (newnode: Node<T>)
    requires Ring(nodes) && k < |nodes| && nodes[k] == entry
    modifies nodes
    ensures fresh(newnode) && fresh(newnode.buffer) && newnode.buffer.Length == size && newnode.elmcount == 1
    ensures Ring(InsertAt(nodes, k + 1, newnode))
    ensures forall n :: n in nodes ==> n.elmcount == old(n.elmcount)
  {
    newnode := new Node<T>(size);
    newnode.elmcount := 1;
    LinkAfter(entry, newnode, nodes, k);
  }

  // ----- the list -----

  datatype Position<T(0)> = Position(entry: Node?<T>, index: nat)

  /** The node holds the elements of the part. */
  ghost predicate Holds<T(0)>(node: Node<T>, part: seq<T>, max: nat)
    reads node, node.buffer
  {
    node.buffer.Length == max && 1 <= |part| <= max && node.elmcount == |part| && node.buffer[..|part|] == part
  }

  /** The node holds the part behind a free slot at position at. */
  ghost predicate HoldsOpen<T(0)>(node: Node<T>, part: seq<T>, at: nat, max: nat)
    reads node, node.buffer
  {
    && node.buffer.Length == max && at <= |part| < max && node.elmcount == |part| + 1
    && node.buffer[..at] == part[..at] && node.buffer[at + 1..|part| + 1] == part[at..]
  }

  class List<T(0)> {
    const elmmaxcount: nat
    var elmcount: nat
    var entrycount: nat
    const root: Node<T>
    /** The ring in order, the root first, and what each node holds. */
    ghost var nodes: seq<Node<T>>
    ghost var parts: seq<seq<T>>

    ghost function Buffers(): set<object>
      reads this
    {
      set n | n in nodes :: n.buffer
    }

    /** The list is in order, but for the buffer of node j. */
    ghost predicate ValidBut(j: nat)
      reads this, nodes, Buffers()
    {
      && 1 <= elmmaxcount < NO_COUNT && |nodes| == |parts|
      && Ring(nodes) && nodes[0] == root && root.elmcount == NO_COUNT && parts[0] == []
      && (forall i :: 1 <= i < |nodes| && i != j ==> Holds(nodes[i], parts[i], elmmaxcount))
      && (forall i, k :: 0 <= i < k < |nodes| ==> nodes[i].buffer != nodes[k].buffer)
      && entrycount == |nodes| - 1
      && elmcount == |Concat(parts)|
    }

    ghost predicate Valid()
      reads this, nodes, Buffers()
    {
      ValidBut(0)
    }

    /** The list as its users see it. */
    ghost function Flat(): seq<T>
      reads this
    {
      Concat(parts)
    }

    constructor (elmmaxcount: nat)
      requires 1 <= elmmaxcount < NO_COUNT
      ensures Valid() && Flat() == [] && this.elmmaxcount == elmmaxcount
      ensures fresh(nodes) && fresh(Buffers())
    {
      var r := new Node<T>(0);
      this.elmmaxcount, root := elmmaxcount, r;
      elmcount, entrycount := 0, 0;
      nodes, parts := [r], [[]];
      new;
      r.next, r.prev, r.elmcount := r, r, NO_COUNT;
    }

    /** DLISTUNR_insert_entry: opens a slot behind position pos of a node that is not
        full; fails for a full node and for the root. */
    method InsertEntry(entry: Node<T>, pos: int, ghost part: seq<T>) returns (slot: int)
      requires 1 <= elmmaxcount < NO_COUNT
      requires entry.elmcount == NO_COUNT || (Holds(entry, part, elmmaxcount) && -1 <= pos < |part|)
      modifies entry`elmcount, entry.buffer
      ensures slot == if old(entry.elmcount) >= elmmaxcount then -1 else pos + 1
      ensures slot == -1 ==> entry.elmcount == old(entry.elmcount) && entry.buffer[..] == old(entry.buffer[..])
      ensures slot != -1 ==> HoldsOpen(entry, part, slot, elmmaxcount)
    {
      if entry.elmcount >= elmmaxcount || entry.elmcount == NO_COUNT {
        return -1;
      }
      slot := pos + 1;
      if slot < entry.elmcount {
        forall i | slot <= i < entry.elmcount {
          entry.buffer[i + 1] := entry.buffer[i];
        }
      }
      entry.elmcount := entry.elmcount + 1;
    }

    /** DLISTUNR_insert_newnode, with the counter of nodes: a new node behind node k
        with one free slot. */
    method InsertNewNode(entry: Node<T>, ghost k: nat) returns (newnode: Node<T>)
      requires Valid() && k < |nodes| && nodes[k] == entry
      modifies this`nodes, this`parts, this`entrycount, nodes
      ensures ValidBut(k + 1) && HoldsOpen(newnode, [], 0, elmmaxcount)
      ensures nodes == InsertAt(old(nodes), k + 1, newnode) && parts == InsertAt(old(parts), k + 1, [])
      ensures k + 1 < |nodes| == |parts| && nodes[k] == entry && nodes[k + 1] == newnode && parts[k + 1] == []
      ensures parts[..k + 1] == old(parts)[..k + 1] && forall n :: n in nodes ==> n in old(nodes) || n == newnode
      ensures fresh(newnode) && fresh(newnode.buffer) && elmcount == old(elmcount)
    {
      hide Ring, Concat, Holds, HoldsOpen, Distinct, InsertAt;
      ghost var nodes0, parts0 := nodes, parts;
      assert forall i :: 0 <= i < |nodes0| ==> nodes0[i].buffer in Buffers();
      newnode := NewLinkedNode(entry, elmmaxcount, nodes, k);
      forall i | 1 <= i < |nodes0| ensures Holds(nodes0[i], parts0[i], elmmaxcount) {
        HoldsStill(i);
      }
      entrycount := entrycount + 1;
      nodes := InsertAt(nodes0, k + 1, newnode);
      parts := InsertAt(parts0, k + 1, []);
      AddEmptyPart(parts0, k + 1);
      NodeInserted(nodes0, parts0, k, newnode);
      OpenNew(newnode);
    }

    lemma OpenNew(node: Node<T>)
      requires 1 <= elmmaxcount == node.buffer.Length && node.elmcount == 1
      ensures HoldsOpen(node, [], 0, elmmaxcount)
    {
    }

    /** The other nodes after a node was put behind node k. */
    lemma NodeInserted(nodes0: seq<Node<T>>, parts0: seq<seq<T>>, k: nat, newnode: Node<T>)
      requires |nodes0| == |parts0| && k < |nodes0|
      requires forall i :: 1 <= i < |nodes0| ==> Holds(nodes0[i], parts0[i], elmmaxcount)
      requires forall i, j :: 0 <= i < j < |nodes0| ==> nodes0[i].buffer != nodes0[j].buffer
      requires forall i :: 0 <= i < |nodes0| ==> nodes0[i].buffer != newnode.buffer
      ensures var nodes, parts := InsertAt(nodes0, k + 1, newnode), InsertAt(parts0, k + 1, []);
              && (forall i :: 1 <= i < |nodes| && i != k + 1 ==> Holds(nodes[i], parts[i], elmmaxcount))
              && (forall i, j :: 0 <= i < j < |nodes| ==> nodes[i].buffer != nodes[j].buffer)
              && |nodes| == |parts| == |nodes0| + 1
              && nodes[..k + 1] == nodes0[..k + 1] && parts[..k + 1] == parts0[..k + 1]
              && nodes[k + 1] == newnode && parts[k + 1] == []
              && (forall n :: n in nodes ==> n in nodes0 || n == newnode)
              && nodes[0] == nodes0[0] && nodes[k] == nodes0[k] && parts[0] == parts0[0]
    {
      hide Holds;
      var nodes, parts := InsertAt(nodes0, k + 1, newnode), InsertAt(parts0, k + 1, []);
      assert forall i :: 0 <= i <= k ==> nodes[i] == nodes0[i] && parts[i] == parts0[i];
      assert forall i :: k + 1 < i < |nodes| ==> nodes[i] == nodes0[i - 1] && parts[i] == parts0[i - 1];
    }

    /** The end of an insertion with room in the node itself. */
    method FillSlot(entry: Node<T>, slot: nat, data: T, ghost k: nat)
      requires ValidBut(k) && 0 < k < |nodes| && nodes[k] == entry
      requires HoldsOpen(entry, parts[k], slot, elmmaxcount)
      modifies this`parts, this`elmcount, entry.buffer
      ensures Valid() && nodes == old(nodes)
      ensures |Concat(old(parts)[..k])| + slot <= |old(Flat())|
      ensures Flat() == InsertAt(old(Flat()), |Concat(old(parts)[..k])| + slot, data)
      ensures elmcount == old(elmcount) + 1
    {
      ghost var part := parts[k];
      InsertInPart(parts, k, slot, data);
      entry.buffer[slot] := data;
      elmcount := elmcount + 1;
      parts := parts[k := InsertAt(part, slot, data)];
      assert entry.buffer[..|part| + 1] == InsertAt(part, slot, data);
    }

    /** The end of an insertion into a full node, when the new element is not its
        last: the last one moves over to the next node. */
    method CarryLast(entry: Node<T>, next: Node<T>, index: nat, data: T, ghost k: nat)
      requires ValidBut(k + 1) && 0 < k && k + 1 < |nodes| && nodes[k] == entry && nodes[k + 1] == next
      requires HoldsOpen(next, parts[k + 1], 0, elmmaxcount)
      requires |parts[k]| == elmmaxcount && index + 1 < elmmaxcount
      modifies this`parts, this`elmcount, entry.buffer, next.buffer
      ensures Valid() && nodes == old(nodes)
      ensures |Concat(old(parts)[..k])| + index + 1 <= |old(Flat())|
      ensures Flat() == InsertAt(old(Flat()), |Concat(old(parts)[..k])| + index + 1, data)
      ensures elmcount == old(elmcount) + 1
    {
      hide Ring, Concat;
      ghost var part, part1 := parts[k], parts[k + 1];
      ghost var m := elmmaxcount - 1;
      MoveOver(entry, next, index + 1, data, part, part1);
      elmcount := elmcount + 1;
      ghost var spilled := parts[k := part[..m]][k + 1 := [part[m]] + part1];
      Spill(parts, k);
      InsertInPart(spilled, k, index + 1, data);
      assert spilled[..k] == parts[..k];
      parts := spilled[k := InsertAt(part[..m], index + 1, data)];
    }

    /** The bytes of that: the last element goes over, those behind the place of the
        new one go up. */
    method MoveOver(entry: Node<T>, next: Node<T>, at: nat, data: T, ghost part: seq<T>, ghost part1: seq<T>)
      requires entry.buffer != next.buffer && 0 < at < elmmaxcount == |part|
      requires Holds(entry, part, elmmaxcount) && HoldsOpen(next, part1, 0, elmmaxcount)
      modifies entry.buffer, next.buffer
      ensures Holds(entry, InsertAt(part[..elmmaxcount - 1], at, data), elmmaxcount)
      ensures Holds(next, [part[elmmaxcount - 1]] + part1, elmmaxcount)
    {
      var m := elmmaxcount - 1;
      next.buffer[0] := entry.buffer[m];
      forall i | at <= i < m {
        entry.buffer[i + 1] := entry.buffer[i];
      }
      entry.buffer[at] := data;
      assert entry.buffer[..elmmaxcount] == InsertAt(part[..m], at, data);
      assert next.buffer[..|part1| + 1] == [part[m]] + part1;
    }

    /** Where an insertion behind a position goes in the flat list. */
    ghost function Behind(k: nat, index: nat): nat
      requires k <= |parts|
      reads this
    {
      |Concat(parts[..k])| + if k == 0 then 0 else index + 1
    }

    /** Nothing but what node j holds has changed. */
    twostate lemma Touched(j: nat)
      requires old(Valid()) && nodes == old(nodes) && parts == old(parts)
      requires entrycount == old(entrycount) && elmcount == old(elmcount) && (j == 0 ==> root.elmcount == NO_COUNT)
      requires forall n :: n in nodes ==> n.next == old(n.next) && n.prev == old(n.prev)
      requires forall i :: 0 <= i < |nodes| && i != j ==>
                 nodes[i].elmcount == old(nodes[i].elmcount) && nodes[i].buffer[..] == old(nodes[i].buffer[..])
      ensures ValidBut(j)
    {
      hide Ring, Concat, Holds;
      RingKept(nodes);
      forall i | 1 <= i < |nodes| && i != j ensures Holds(nodes[i], parts[i], elmmaxcount) {
        HoldsStill(i);
      }
    }

    twostate lemma HoldsStill(k: nat)
      requires nodes == old(nodes) && parts == old(parts) && k < |nodes| == |parts|
      requires old(Holds(nodes[k], parts[k], elmmaxcount))
      requires nodes[k].elmcount == old(nodes[k].elmcount) && nodes[k].buffer[..] == old(nodes[k].buffer[..])
      ensures Holds(nodes[k], parts[k], elmmaxcount)
    {
      assert nodes[k].buffer[..|parts[k]|] == nodes[k].buffer[..][..|parts[k]|];
    }

    /** The node behind a full node or the root, with a free slot at its front: the
        next one if it has room, else a new one. */
    method OpenNext(entry: Node<T>, ghost k: nat) returns (next: Node<T>)
      requires Valid() && k < |nodes| && nodes[k] == entry
      modifies this`nodes, this`parts, this`entrycount, nodes, Buffers()
      ensures ValidBut(k + 1) && k + 1 < |nodes| && nodes[k + 1] == next && nodes[k] == entry
      ensures HoldsOpen(next, parts[k + 1], 0, elmmaxcount)
      ensures parts[..k + 1] == old(parts)[..k + 1] && Flat() == old(Flat()) && elmcount == old(elmcount)
      ensures forall n :: n in nodes ==> n in old(nodes) || (fresh(n) && fresh(n.buffer))
    {
      hide Ring, Concat, InsertAt, Distinct, Holds, HoldsOpen;
      assert LinkAt(nodes, k) by {
        RingLinks(nodes, k);
      }
      next := entry.next;
      ghost var j := Succ(k, |nodes|);
      var slot := InsertEntry(next, -1, parts[j]);
      Touched(j);
      if slot == -1 {
        if j > 0 {
          HoldsStill(j);
        }
        var newnode := InsertNewNode(entry, k);
        AddEmptyPart(old(parts), k + 1);
        next := newnode;
      }
    }

    /** The first attempt of an insertion: into the node of the position itself. */
    method InsertHere(entry: Node<T>, index: nat, data: T, ghost k: nat) returns (done: bool)
      requires Valid() && k < |nodes| && nodes[k] == entry && (0 < k ==> index < |parts[k]|)
      modifies this`parts, this`elmcount, entry, entry.buffer
      ensures Valid() && nodes == old(nodes)
      ensures done ==>
                && old(Behind(k, index)) <= |old(Flat())|
                && Flat() == InsertAt(old(Flat()), old(Behind(k, index)), data)
      ensures !done ==> parts == old(parts) && elmcount == old(elmcount) && (0 < k ==> |parts[k]| == elmmaxcount)
    {
      hide Ring, Concat;
      var slot := InsertEntry(entry, index, parts[k]);
      RingKept(nodes);
      done := slot != -1;
      if done {
        FillSlot(entry, slot, data, k);
      }
    }

    lemma CountOf(k: nat)
      requires ValidBut(k + 1) && k < |nodes|
      ensures nodes[k].elmcount == if k == 0 then NO_COUNT else |parts[k]|
      ensures 0 < k ==> nodes[k].elmcount <= elmmaxcount < NO_COUNT
    {
    }

    /** The other attempts: into the next node or a new one. */
    method InsertBeyond(entry: Node<T>, index: nat, data: T, ghost k: nat)
      requires Valid() && k < |nodes| && nodes[k] == entry
      requires 0 < k ==> index < |parts[k]| == elmmaxcount
      modifies this, nodes, Buffers()
      ensures Valid()
      ensures old(Behind(k, index)) <= |old(Flat())|
      ensures Flat() == InsertAt(old(Flat()), old(Behind(k, index)), data)
      ensures forall n :: n in nodes ==> n in old(nodes) || (fresh(n) && fresh(n.buffer))
    {
      hide Ring, Concat, InsertAt, Distinct, Holds, HoldsOpen;
      ghost var parts0 := parts;
      var next := OpenNext(entry, k);
      CountOf(k);
      FirstParts(parts0, parts, k);
      if entry.elmcount != NO_COUNT && index < entry.elmcount - 1 {
        CarryLast(entry, next, index, data, k);
      } else {
        FillSlot(next, 0, data, k + 1);
      }
    }

    /** DLISTUNR_insert_after: k is the place of the position's node in the ring.
        The element goes into the flat list right behind the position. */
    method InsertAfter(pos: Position<T>, data: T, ghost k: nat) returns (rc: int)
      requires Valid() && k < |nodes|
      requires if pos.entry == null then k == |nodes| - 1 else nodes[k] == pos.entry
      requires 0 < k ==> pos.index < |parts[k]|
      modifies this, nodes, Buffers()
      ensures Valid() && rc == 0
      ensures old(Behind(k, pos.index)) <= |old(Flat())|
      ensures Flat() == InsertAt(old(Flat()), old(Behind(k, pos.index)), data)
      ensures forall n :: n in nodes ==> n in old(nodes) || (fresh(n) && fresh(n.buffer))
    {
      hide Concat;
      assert LinkAt(nodes, |nodes| - 1);
      var entry := if pos.entry == null then root.prev else pos.entry;
      var done := InsertHere(entry, pos.index, data, k);
      if !done {
        InsertBeyond(entry, pos.index, data, k);
      }
      return 0;
    }

    /** The counting down of DLISTUNR_unlink in a node with several elements. */
    method RemoveSlot(entry: Node<T>, index: nat, ghost k: nat)
      requires Valid() && 0 < k < |nodes| && nodes[k] == entry && index < |parts[k]| && 1 < |parts[k]|
      modifies this`parts, this`elmcount, entry, entry.buffer
      ensures Valid() && nodes == old(nodes) && elmcount == old(elmcount) - 1
      ensures old(|Concat(parts[..k])|) + index < |old(Flat())|
      ensures Flat() == RemoveAt(old(Flat()), old(|Concat(parts[..k])|) + index)
    {
      hide Ring, Concat, Distinct;
      ghost var part := parts[k];
      if index < entry.elmcount - 1 {
        forall i | index <= i < entry.elmcount - 1 {
          entry.buffer[i] := entry.buffer[i + 1];
        }
      }
      entry.elmcount := entry.elmcount - 1;
      RingKept(nodes);
      RemoveInPart(parts, k, index);
      elmcount := elmcount - 1;
      parts := parts[k := RemoveAt(part, index)];
      assert entry.buffer[..|part| - 1] == RemoveAt(part, index);
    }

    /** The unlinking of a node with one element. */
    method RemoveNode(entry: Node<T>, ghost k: nat)
      requires Valid() && 0 < k < |nodes| && nodes[k] == entry && |parts[k]| == 1
      modifies this`nodes, this`parts, this`elmcount, this`entrycount, nodes
      ensures Valid() && elmcount == old(elmcount) - 1
      ensures nodes == RemoveAt(old(nodes), k)
      ensures old(|Concat(parts[..k])|) < |old(Flat())|
      ensures Flat() == RemoveAt(old(Flat()), old(|Concat(parts[..k])|))
    {
      hide Ring, Concat;
      ghost var nodes0, parts0 := nodes, parts;
      RemoveInPart(parts, k, 0);
      UnlinkNode(entry, nodes, k);
      entrycount := entrycount - 1;
      elmcount := elmcount - 1;
      ghost var emptied := parts[k := RemoveAt(parts[k], 0)];
      DropEmptyPart(emptied, k);
      assert RemoveAt(emptied, k) == RemoveAt(parts, k);
      nodes := RemoveAt(nodes, k);
      parts := RemoveAt(parts, k);
      NodeRemoved(nodes0, parts0, k);
    }

    lemma NodeRemoved(nodes0: seq<Node<T>>, parts0: seq<seq<T>>, k: nat)
      requires |nodes0| == |parts0| && 0 < k < |nodes0|
      requires forall i :: 1 <= i < |nodes0| ==> Holds(nodes0[i], parts0[i], elmmaxcount)
      requires forall i, j :: 0 <= i < j < |nodes0| ==> nodes0[i].buffer != nodes0[j].buffer
      ensures var nodes, parts := RemoveAt(nodes0, k), RemoveAt(parts0, k);
              && (forall i :: 1 <= i < |nodes| ==> Holds(nodes[i], parts[i], elmmaxcount))
              && (forall i, j :: 0 <= i < j < |nodes| ==> nodes[i].buffer != nodes[j].buffer)
    {
      var nodes, parts := RemoveAt(nodes0, k), RemoveAt(parts0, k);
      assert forall i :: 0 <= i < k ==> nodes[i] == nodes0[i] && parts[i] == parts0[i];
      assert forall i :: k <= i < |nodes| ==> nodes[i] == nodes0[i + 1] && parts[i] == parts0[i + 1];
    }

    /** DLISTUNR_unlink. */
    method Unlink(pos: Position<T>, ghost k: nat) returns (rc: int)
      requires Valid() && k < |nodes| && (pos.entry != null ==> nodes[k] == pos.entry)
      modifies this, nodes, Buffers()
      ensures Valid()
      ensures rc == if pos.entry == null || k == 0 || pos.index >= old(|parts[k]|) then -1 else 0
      ensures rc == -1 ==> Flat() == old(Flat()) && nodes == old(nodes)
      ensures rc == 0 ==>
                && old(|Concat(parts[..k])|) + pos.index < |old(Flat())|
                && Flat() == RemoveAt(old(Flat()), old(|Concat(parts[..k])|) + pos.index)
      ensures forall n :: n in nodes ==> n in old(nodes)
    {
      hide Ring, Concat;
      if pos.entry == null || pos.index >= pos.entry.elmcount {
        return -1;
      }
      var entry := pos.entry;
      if entry.elmcount == NO_COUNT {
        return -1;
      }
      if entry.elmcount != 1 {
        RemoveSlot(entry, pos.index, k);
      } else {
        RemoveNode(entry, k);
      }
      return 0;
    }

    // ----- positions -----

    /** The position p is at node k of the ring. */
    ghost predicate IsAt(p: Position<T>, k: nat)
      reads this, nodes, Buffers()
    {
      Valid() && k < |nodes| && p.entry == nodes[k] && (0 < k ==> p.index < |parts[k]|)
    }

    /** DLISTUNR_get_first. */
    method GetFirst() returns (p: Position<T>, ghost k: nat)
      requires Valid()
      ensures k == if |nodes| > 1 then 1 else 0
      ensures p.index == 0 && IsAt(p, if |nodes| > 1 then 1 else 0)
    {
      assert LinkAt(nodes, 0);
      k := Succ(0, |nodes|);
      p := Position(root.next, 0);
    }

    /** DLISTUNR_get_last. */
    method GetLast() returns (p: Position<T>, ghost k: nat)
      requires Valid()
      ensures k == |nodes| - 1
      ensures IsAt(p, |nodes| - 1) && (|nodes| > 1 ==> p.index == |parts[|nodes| - 1]| - 1)
    {
      PartsFill();
      if elmcount != 0 {
        assert LinkAt(nodes, |nodes| - 1);
        k := |nodes| - 1;
        p := Position(root.prev, root.prev.elmcount - 1);
      } else {
        p, k := GetFirst();
      }
    }

    /** A list with nodes is not empty. */
    lemma PartsFill()
      requires Valid()
      ensures elmcount > 0 <==> |nodes| > 1
    {
      ConcatAround(parts, |nodes| - 1);
      if |nodes| == 1 {
        assert parts[..0] == [] && parts[1..] == [];
      } else {
        assert Holds(nodes[|nodes| - 1], parts[|nodes| - 1], elmmaxcount);
      }
    }

    /** DLISTUNR_next. */
    method Next(p: Position<T>, ghost k: nat) returns (q: Position<T>, ghost j: nat)
      requires IsAt(p, k) && 0 < k
      ensures j == if p.index + 1 < |parts[k]| then k else Succ(k, |nodes|)
      ensures if p.index + 1 < |parts[k]| then IsAt(q, k) && q.index == p.index + 1
              else IsAt(q, Succ(k, |nodes|)) && q.index == 0
    {
      assert LinkAt(nodes, k);
      assert Holds(nodes[k], parts[k], elmmaxcount);
      q, j := Position(p.entry, p.index + 1), k;
      if q.index >= p.entry.elmcount {
        q, j := Position(p.entry.next, 0), Succ(k, |nodes|);
      }
    }

    /** The index of a position in the flat list; the root stands behind the end. */
    ghost function IndexOf(p: Position<T>, k: nat): nat
      requires k <= |parts|
      reads this
    {
      if k == 0 then |Concat(parts)| else |Concat(parts[..k])| + p.index
    }

    /** DLISTUNR_prev, from a position of the list or from the root. */
    method Prev(p: Position<T>, ghost k: nat) returns (q: Position<T>, ghost j: nat)
      requires IsAt(p, k) && (k == 0 ==> p.index == 0)
      ensures j == if p.index > 0 then k else if k > 0 then k - 1 else |nodes| - 1
      ensures if p.index > 0 then IsAt(q, k) && q.index == p.index - 1
              else var i := if k > 0 then k - 1 else |nodes| - 1; IsAt(q, i) && (0 < i ==> q.index == |parts[i]| - 1)
      ensures Behind(j, q.index) == IndexOf(p, k)
    {
      if p.index > 0 {
        return Position(p.entry, p.index - 1), k;
      }
      j := if k > 0 then k - 1 else |nodes| - 1;
      assert LinkAt(nodes, j);
      FirstParts(parts, parts, j);
      assert parts[..|parts|] == parts;
      assert |Concat(parts[..j])| + |parts[j]| == IndexOf(p, k);
      q := Position(p.entry.prev, 0);
      if q.entry != null && q.entry.elmcount != NO_COUNT {
        RootAtFront(j);
        assert Holds(nodes[j], parts[j], elmmaxcount);
        q := Position(q.entry, q.entry.elmcount - 1);
      }
    }

    /** Prev undoes next inside of the list. */
    method NextAndBack(p: Position<T>, ghost k: nat) returns (inside: bool, q: Position<T>)
      requires IsAt(p, k) && 0 < k
      ensures inside <==> k + 1 < |nodes| || p.index + 1 < |parts[k]|
      ensures inside ==> q == p
    {
      var next; ghost var j;
      next, j := Next(p, k);
      RootAtFront(j);
      inside := next.entry != root;
      q := p;
      if inside {
        q, j := Prev(next, j);
      }
    }

    lemma RootAtFront(j: nat)
      requires Valid() && j < |nodes|
      ensures nodes[j] == root <==> j == 0
    {
      assert Distinct(nodes);
    }

    /** DLISTUNR_FOREACH: the walk from the first position over all next ones sees
        the flat list. */
    method Elements() returns (out: seq<T>)
      requires Valid()
      ensures out == Flat()
    {
      hide Ring;
      out := [];
      var pos; ghost var k;
      pos, k := GetFirst();
      PartsFill();
      assert parts[..1] == [parts[0]] && Concat(parts[..1]) == parts[0] + Concat([]);
      while pos.entry != root
        invariant IsAt(pos, k)
        invariant 0 < k ==> out == Concat(parts[..k]) + parts[k][..pos.index]
        invariant k == 0 ==> pos.entry == root && out == Flat()
        decreases if k == 0 then 0 else |nodes| - k, if k == 0 then 0 else |parts[k]| - pos.index
      {
        assert 0 < k;
        assert Holds(nodes[k], parts[k], elmmaxcount);
        out := out + [pos.entry.buffer[pos.index]];
        assert parts[k][..pos.index + 1] == parts[k][..pos.index] + [parts[k][pos.index]];
        FirstParts(parts, parts, k);
        ghost var k0 := k;
        pos, k := Next(pos, k);
        if k == 0 {
          assert parts[..k0 + 1] == parts;
        }
      }
    }

    /** DLISTUNR_insert_before, from a position of the list or from the root. */
    method InsertBefore(pos: Position<T>, data: T, ghost k: nat) returns (rc: int)
      requires IsAt(pos, k) && (k == 0 ==> pos.index == 0)
      modifies this, nodes, Buffers()
      ensures Valid() && rc == 0
      ensures old(IndexOf(pos, k)) <= |old(Flat())|
      ensures Flat() == InsertAt(old(Flat()), old(IndexOf(pos, k)), data)
      ensures forall n :: n in nodes ==> n in old(nodes) || (fresh(n) && fresh(n.buffer))
    {
      var prev; ghost var j;
      prev, j := Prev(pos, k);
      rc := InsertAfter(prev, data, j);
    }

    /** DLISTUNR_push_front. */
    method PushFront(data: T) returns (rc: int)
      requires Valid()
      modifies this, nodes, Buffers()
      ensures Valid() && rc == 0 && Flat() == [data] + old(Flat())
      ensures forall n :: n in nodes ==> n in old(nodes) || (fresh(n) && fresh(n.buffer))
    {
      PartsFill();
      var first; ghost var k;
      first, k := GetFirst();
      assert parts[..1] == [parts[0]] && Concat(parts[..1]) == parts[0] + Concat([]);
      rc := InsertBefore(first, data, k);
    }

    /** DLISTUNR_push_back. */
    method PushBack(data: T) returns (rc: int)
      requires Valid()
      modifies this, nodes, Buffers()
      ensures Valid() && rc == 0 && Flat() == old(Flat()) + [data]
      ensures forall n :: n in nodes ==> n in old(nodes) || (fresh(n) && fresh(n.buffer))
    {
      var last; ghost var k;
      last, k := GetLast();
      FirstParts(parts, parts, k);
      assert parts[..k + 1] == parts;
      rc := InsertAfter(last, data, k);
    }

    /** DLISTUNR_pop_back. */
    method PopBack() returns (rc: int, data: T)
      requires Valid()
      modifies this, nodes, Buffers()
      ensures Valid() && rc == if old(Flat()) == [] then -1 else 0
      ensures rc == 0 ==> old(Flat()) == Flat() + [data]
      ensures rc == -1 ==> Flat() == []
      ensures forall n :: n in nodes ==> n in old(nodes)
    {
      PartsFill();
      if elmcount == 0 {
        data := *;
        return -1, data;
      }
      var last; ghost var k;
      last, k := GetLast();
      assert Holds(nodes[k], parts[k], elmmaxcount);
      data := last.entry.buffer[last.index];
      FirstParts(parts, parts, k);
      assert parts[..k + 1] == parts;
      rc := Unlink(last, k);
    }

    /** DLISTUNR_pop_front. */
    method PopFront() returns (rc: int, data: T)
      requires Valid()
      modifies this, nodes, Buffers()
      ensures Valid() && rc == if old(Flat()) == [] then -1 else 0
      ensures rc == 0 ==> data == old(Flat())[0] && Flat() == old(Flat())[1..]
      ensures rc == -1 ==> Flat() == []
      ensures forall n :: n in nodes ==> n in old(nodes)
    {
      PartsFill();
      if elmcount == 0 {
        data := *;
        return -1, data;
      }
      var first; ghost var k;
      first, k := GetFirst();
      assert Holds(nodes[1], parts[1], elmmaxcount);
      data := first.entry.buffer[0];
      ConcatAround(parts, 1);
      assert parts[..1] == [parts[0]] && Concat(parts[..1]) == parts[0] + Concat([]);
      rc := Unlink(first, k);
    }
  }

  /** The first k + 1 parts of two lists that agree on them. */
  lemma FirstParts<T>(a: seq<seq<T>>, b: seq<seq<T>>, k: nat)
    requires k < |a| && k < |b| && a[..k + 1] == b[..k + 1]
    ensures a[..k] == b[..k] && a[k] == b[k]
    ensures Concat(b[..k + 1]) == Concat(a[..k]) + a[k]
  {
    assert a[..k + 1][..k] == a[..k] && b[..k + 1][..k] == b[..k];
    assert a[k] == a[..k + 1][k];
    ConcatSplit(a[..k + 1], k);
    assert a[..k + 1][k..] == [a[k]];
    assert Concat([a[k]]) == a[k];
  }

  lemma RingLinks<T(0)>(nodes: seq<Node<T>>, i: nat)
    requires Ring(nodes) && i < |nodes|
    ensures LinkAt(nodes, i)
  {
  }
}
