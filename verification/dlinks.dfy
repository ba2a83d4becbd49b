/** DRING_check of cutils/dring.h on arbitrary pointer graphs. */
module DRing {
  import opened Links

  /** A round of the loop at place k goes on to the next place. */
  ghost predicate GoesOn(nodes: set<Node>, head: Node, k: nat)
    requires Closed(nodes) && head in nodes
    reads nodes
  {
    var n := At(nodes, head, k);
    n != null && n != head && n.next != null && n.next.prev == n
  }

  /** m rounds, and then the head. */
  ghost predicate Accepts(nodes: set<Node>, head: Node, m: nat)
    requires Closed(nodes) && head in nodes
    reads nodes
  {
    && (forall k: nat :: 1 <= k <= m ==> GoesOn(nodes, head, k))
    && At(nodes, head, m + 1) == head && (m == 0 ==> head.prev == head)
  }

  /** The check never comes to an end. */
  ghost predicate Diverges(nodes: set<Node>, head: Node)
    requires Closed(nodes) && head in nodes
    reads nodes
  {
    forall k: nat :: k >= 1 ==> GoesOn(nodes, head, k)
  }

  /** m nodes behind the head form a ring of their own. */
  ghost predicate OwnRing(nodes: set<Node>, head: Node, m: nat)
    requires Closed(nodes) && head in nodes
    reads nodes
  {
    && m >= 1 && At(nodes, head, m + 1) == At(nodes, head, 1)
    && forall k: nat :: 1 <= k <= m ==> GoesOn(nodes, head, k)
  }

  /** DRING_check, where it ends.  It ends with 1 exactly when following next from the
      head comes back to it and every node on the way is the prev of its next. */
  method Check(ghost nodes: set<Node>, head: Node) returns (ok: bool)
    requires Closed(nodes) && head in nodes && !Diverges(nodes, head)
    ensures ok <==> exists m: nat :: Accepts(nodes, head, m)
  {
    ghost var last: nat :| last >= 1 && !GoesOn(nodes, head, last);
    var cur := head.next;
    var sz := 0;
    assert cur == At(nodes, head, 1) by {
      AtNext(nodes, head, 0);
    }
    while cur != head
      invariant cur == At(nodes, head, sz + 1)
      invariant forall k: nat :: 1 <= k <= sz ==> GoesOn(nodes, head, k)
      invariant sz < last
      decreases last - sz
    {
      AtNext(nodes, head, sz + 1);
      if cur == null {
        Stops(nodes, head, sz);
        return false;
      }
      var next := cur.next;
      if next == null || next.prev != cur {
        Stops(nodes, head, sz);
        return false;
      }
      assert GoesOn(nodes, head, sz + 1);
      sz := sz + 1;
      cur := next;
    }
    Returns(nodes, head, sz);
    if sz == 0 {
      if head.next != head.prev || head.next != head {
        return false;
      }
    }
    return true;
  }

  /** Where the rounds end somewhere else, nothing is accepted. */
  lemma Stops(nodes: set<Node>, head: Node, sz: nat)
    requires Closed(nodes) && head in nodes
    requires !GoesOn(nodes, head, sz + 1) && At(nodes, head, sz + 1) != head
    requires forall k: nat :: 1 <= k <= sz ==> GoesOn(nodes, head, k)
    ensures forall m: nat :: !Accepts(nodes, head, m)
  {
    forall m: nat ensures !Accepts(nodes, head, m) {
      if m < sz {
        assert GoesOn(nodes, head, m + 1);
      }
    }
  }

  lemma Returns(nodes: set<Node>, head: Node, sz: nat)
    requires Closed(nodes) && head in nodes && At(nodes, head, sz + 1) == head
    requires forall k: nat :: 1 <= k <= sz ==> GoesOn(nodes, head, k)
    ensures (exists m: nat :: Accepts(nodes, head, m)) <==> (sz == 0 ==> head.prev == head)
  {
    if sz == 0 ==> head.prev == head {
      assert Accepts(nodes, head, sz);
    }
    forall m: nat | Accepts(nodes, head, m) ensures m == sz {
      assert m < sz ==> GoesOn(nodes, head, m + 1);
      assert sz < m ==> GoesOn(nodes, head, sz + 1);
    }
  }

  /** It does not end exactly when the nodes behind the head form a ring of their own. */
  lemma DivergesExactly(nodes: set<Node>, head: Node)
    requires Closed(nodes) && head in nodes
    ensures Diverges(nodes, head) <==> exists m: nat :: OwnRing(nodes, head, m)
  {
    if Diverges(nodes, head) {
      var m := BackToFirst(nodes, head);
    }
    if m: nat :| OwnRing(nodes, head, m) {
      forall k: nat | k >= 1 ensures GoesOn(nodes, head, k) {
        var i := Looping(nodes, head, 1, m + 1, k);
        SameNext(nodes, head, i, k);
      }
    }
  }

  lemma SameNext(nodes: set<Node>, head: Node, i: nat, k: nat)
    requires Closed(nodes) && head in nodes && At(nodes, head, i) == At(nodes, head, k)
    ensures GoesOn(nodes, head, i) <==> GoesOn(nodes, head, k)
  {
  }

  /** A walk that goes on for ever repeats a node, and by the back pointers the first
      one. */
  lemma BackToFirst(nodes: set<Node>, head: Node) returns (m: nat)
    requires Closed(nodes) && head in nodes && Diverges(nodes, head)
    ensures OwnRing(nodes, head, m)
  {
    var s: seq<Node> := [];
    while |s| <= |nodes|
      invariant |s| <= |nodes| + 1
      invariant forall k :: 0 <= k < |s| ==> s[k] == At(nodes, head, k + 1) && s[k] in nodes
    {
      assert GoesOn(nodes, head, |s| + 1);
      s := s + [At(nodes, head, |s| + 1)];
    }
    var i, j := Pigeonhole(nodes, s);
    m := j - i;
    while i > 0
      invariant 0 <= i && m >= 1 && At(nodes, head, i + 1) == At(nodes, head, i + m + 1)
    {
      assert GoesOn(nodes, head, i) && GoesOn(nodes, head, i + m);
      AtNext(nodes, head, i);
      AtNext(nodes, head, i + m);
      i := i - 1;
    }
  }

  /** A head on which the check never ends: the node behind it is a ring of its own. */
  method NeverEnds() returns (head: Node, ghost nodes: set<Node>)
    ensures fresh(nodes) && Closed(nodes) && head in nodes && Diverges(nodes, head)
  {
    head := new Node(0);
    var a := new Node(1);
    head.next := a;
    a.next, a.prev := a, a;
    nodes := {head, a};
    AtNext(nodes, head, 0);
    AtNext(nodes, head, 1);
    assert OwnRing(nodes, head, 1);
    DivergesExactly(nodes, head);
  }

  /** The node after place k points back to it. */
  ghost predicate PointsBack(nodes: set<Node>, head: Node, k: nat)
    requires Closed(nodes) && head in nodes
    reads nodes
  {
    var n := At(nodes, head, k + 1);
    n != null && n.prev == At(nodes, head, k)
  }

  /** A ring in both directions. */
  ghost predicate IsRing(nodes: set<Node>, head: Node, m: nat)
    requires Closed(nodes) && head in nodes
    reads nodes
  {
    && At(nodes, head, m + 1) == head
    && (forall k: nat :: 1 <= k <= m ==> At(nodes, head, k) != null && At(nodes, head, k) != head)
    && (forall k: nat :: k <= m ==> PointsBack(nodes, head, k))
  }

  /** What is accepted is a ring exactly when the first node points back to the head:
      that pointer is not looked at. */
  lemma AcceptedRing(nodes: set<Node>, head: Node, m: nat)
    requires Closed(nodes) && head in nodes
    ensures IsRing(nodes, head, m) <==> Accepts(nodes, head, m) && head.next != null && head.next.prev == head
    ensures Accepts(nodes, head, m) ==> !Diverges(nodes, head)
  {
    AtNext(nodes, head, 0);
    forall k: nat | 1 <= k <= m
      ensures GoesOn(nodes, head, k) <==>
        At(nodes, head, k) != null && At(nodes, head, k) != head && PointsBack(nodes, head, k)
    {
      AtNext(nodes, head, k);
    }
    assert PointsBack(nodes, head, 0) <==> head.next != null && head.next.prev == head;
    assert At(nodes, head, m + 1) == head ==> !GoesOn(nodes, head, m + 1);
  }

  /** A head that is accepted although it is no ring: the first node does not point back
      to it. */
  method AcceptsUnlinked() returns (head: Node, ok: bool, ghost nodes: set<Node>)
    ensures fresh(nodes) && Closed(nodes) && head in nodes && !Diverges(nodes, head) && ok
    ensures head.next == head.prev != null && head.next.prev == null && head.next.next == head
    ensures forall m: nat :: !IsRing(nodes, head, m)
  {
    head := new Node(0);
    var a := new Node(1);
    head.next, head.prev := a, a;
    a.next := head;
    nodes := {head, a};
    AtNext(nodes, head, 0);
    AtNext(nodes, head, 1);
    assert GoesOn(nodes, head, 1);
    AcceptedRing(nodes, head, 1);
    assert Accepts(nodes, head, 1);
    ok := Check(nodes, head);
    assert Accepts(nodes, head, 1);
    forall m: nat ensures !IsRing(nodes, head, m) {
      AcceptedRing(nodes, head, m);
    }
  }
}

/** The doubly linked list of cutils/dlist.h. */
module DList {
  import opened Links
  import opened Seqs

  /** Each node is linked with the one after it, in both directions, and the ends are
      null. */
  ghost predicate Chained(s: seq<Node>)
    reads s
  {
    && (forall i, j :: 0 <= i < j < |s| ==> s[i] != s[j])
    && (forall i, j :: 0 <= i < j < |s| && j == i + 1 ==> s[i].next == s[j] && s[j].prev == s[i])
    && (s != [] ==> s[0].prev == null && s[|s| - 1].next == null)
  }

  lemma Around(s: seq<Node>, i: nat)
    requires Chained(s) && i < |s|
    ensures s[i].next == if i + 1 < |s| then s[i + 1] else null
    ensures s[i].prev == if i > 0 then s[i - 1] else null
  {
  }

  lemma Each(s: seq<Node>)
    requires Chained(s)
    ensures forall i, j :: 0 <= i < j < |s| ==> s[i] != s[j]
  {
  }

  /** An entry stands between its neighbours, and no other link changed. */
  twostate predicate PutIn(s: seq<Node>, new i: nat, new entry: Node)
    requires i <= |s|
    reads s, entry
  {
    && entry.prev == (if i > 0 then s[i - 1] else null) && entry.next == (if i < |s| then s[i] else null)
    && (i > 0 ==> s[i - 1].next == entry) && (i < |s| ==> s[i].prev == entry)
    && (forall j :: 0 <= j < |s| && j + 1 != i ==> s[j].next == old(s[j].next))
    && (forall j :: 0 <= j < |s| && j != i ==> s[j].prev == old(s[j].prev))
  }

  twostate lemma PutInChain(s: seq<Node>, new i: nat, new entry: Node)
    requires i <= |s| && old(Chained(s)) && entry !in s && PutIn(s, i, entry)
    ensures Chained(InsertAt(s, i, entry))
  {
    var r := InsertAt(s, i, entry);
    forall j, k | 0 <= j < k < |r| && k == j + 1 ensures r[j].next == r[k] && r[k].prev == r[j] {
      if k < i {
        assert r[j] == s[j] && r[k] == s[k];
      } else if j > i {
        assert r[j] == s[j - 1] && r[k] == s[k - 1];
      }
    }
    assert r[0] == if i == 0 then entry else s[0];
    assert r[|s|] == if i == |s| then entry else s[|s| - 1];
  }

  class List {
    var elmcount: nat
    /** As in the source, prev of the root is the first entry and next the last one. */
    var prev: Node?
    var next: Node?

    constructor ()
      ensures Holds([])
    {
      elmcount, prev, next := 0, null, null;
    }

    /** The entries of the list, first to last. */
    ghost predicate Holds(s: seq<Node>)
      reads this, s
    {
      && elmcount == |s|
      && prev == (if s == [] then null else s[0])
      && next == (if s == [] then null else s[|s| - 1])
      && Chained(s)
    }

    lemma Alone(entry: Node)
      requires entry.next == null && entry.prev == null
      ensures Chained([entry])
    {
    }

    lemma Ends(s: seq<Node>, i: nat, entry: Node)
      requires s != [] && i <= |s|
      ensures var r := InsertAt(s, i, entry);
              && |r| == |s| + 1 && r[0] == (if i == 0 then entry else s[0])
              && r[|s|] == if i < |s| then s[|s| - 1] else entry
    {
    }

    /** DLIST_insert_before. */
    method InsertBefore(pos: Node?, entry: Node, ghost s: seq<Node>, ghost i: nat) returns (rc: int)
      requires Holds(s) && entry !in s && (pos != null ==> i < |s| && s[i] == pos)
      modifies this, s, entry
      ensures rc == if s != [] && pos == null then -1 else 0
      ensures rc == -1 ==> Holds(s)
      ensures rc == 0 ==> Holds(if s == [] then [entry] else InsertAt(s, i, entry))
    {
      hide Chained, InsertAt;
      if next != null {
        if pos == null {
          return -1;
        }
        Around(s, i);
        Each(s);
        entry.prev := pos.prev;
        pos.prev := entry;
        entry.next := pos;
        if entry.prev != null {
          entry.prev.next := entry;
        }
        PutInChain(s, i, entry);
        if prev == pos {
          prev := entry;
        }
        Ends(s, i, entry);
      } else {
        next, prev := entry, entry;
        entry.next, entry.prev := null, null;
        Alone(entry);
      }
      elmcount := elmcount + 1;
      return 0;
    }

    /** DLIST_insert_after. */
    method InsertAfter(pos: Node?, entry: Node, ghost s: seq<Node>, ghost i: nat)
      requires Holds(s) && entry !in s && (s != [] ==> i < |s| && s[i] == pos)
      modifies this, s, entry
      ensures Holds(if s == [] then [entry] else InsertAt(s, i + 1, entry))
    {
      hide Chained, InsertAt;
      if next != null {
        Around(s, i);
        Each(s);
        entry.next := pos.next;
        pos.next := entry;
        entry.prev := pos;
        if entry.next != null {
          entry.next.prev := entry;
        }
        PutInChain(s, i + 1, entry);
        if next == pos {
          next := entry;
        }
        Ends(s, i + 1, entry);
      } else {
        next, prev := entry, entry;
        entry.next, entry.prev := null, null;
        Alone(entry);
      }
      elmcount := elmcount + 1;
    }

    /** DLIST_unlink. */
    method Unlink(link: Node, ghost s: seq<Node>, ghost i: nat)
      requires Holds(s) && i < |s| && s[i] == link
      modifies this, s
      ensures Holds(RemoveAt(s, i)) && link.next == null && link.prev == null
    {
      Around(s, i);
      ghost var r := RemoveAt(s, i);
      assert r != [] ==> r[|r| - 1] == if i + 1 == |s| then s[i - 1] else s[|s| - 1];
      var after, before := link.next, link.prev;
      if after != null {
        after.prev := link.prev;
      }
      if before != null {
        before.next := link.next;
      }
      if next == link {
        next := before;
      }
      if prev == link {
        prev := after;
      }
      link.prev, link.next := null, null;
      elmcount := elmcount - 1;
    }

    /** DLIST_push_back. */
    method PushBack(entry: Node, ghost s: seq<Node>)
      requires Holds(s) && entry !in s
      modifies this, s, entry
      ensures Holds(s + [entry])
    {
      InsertAfter(next, entry, s, if s == [] then 0 else |s| - 1);
      assert s != [] ==> InsertAt(s, |s|, entry) == s + [entry];
    }

    /** DLIST_push_front. */
    method PushFront(entry: Node, ghost s: seq<Node>)
      requires Holds(s) && entry !in s
      modifies this, s, entry
      ensures Holds([entry] + s)
    {
      var rc := InsertBefore(prev, entry, s, 0);
      assert s != [] ==> InsertAt(s, 0, entry) == [entry] + s;
      assert s == [] ==> [entry] + s == [entry];
    }

    /** DLIST_pop_front. */
    method PopFront(ghost s: seq<Node>) returns (entry: Node?)
      requires Holds(s)
      modifies this, s
      ensures if s == [] then entry == null && Holds(s) else entry == s[0] && Holds(s[1..])
    {
      if next == null {
        return null;
      }
      entry := prev;
      Unlink(entry, s, 0);
      assert RemoveAt(s, 0) == s[1..];
    }

    /** DLIST_pop_back. */
    method PopBack(ghost s: seq<Node>) returns (entry: Node?)
      requires Holds(s)
      modifies this, s
      ensures if s == [] then entry == null && Holds(s) else entry == s[|s| - 1] && Holds(s[..|s| - 1])
    {
      if next == null {
        return null;
      }
      entry := next;
      Unlink(entry, s, |s| - 1);
      assert RemoveAt(s, |s| - 1) == s[..|s| - 1];
    }

    /** The part of a list that was looked at: all is in order up to the node that comes
        next. */
    ghost predicate Seen(s: seq<Node>, cur: Node?)
      reads this, s
    {
      && (forall i, j :: 0 <= i < j < |s| ==> s[i] != s[j])
      && (forall i, j :: 0 <= i < j < |s| && j == i + 1 ==> s[i].next == s[j] && s[j].prev == s[i])
      && (if s == [] then cur == prev else s[0] == prev && s[0].prev == null && s[|s| - 1].next == cur)
    }

    /** A list begins with what was looked at. */
    lemma {:induction false} SeenIsPrefix(s: seq<Node>, cur: Node?, t: seq<Node>, i: nat)
      requires Seen(s, cur) && Holds(t) && i <= |s|
      ensures i <= |t| && s[..i] == t[..i]
      ensures i == |s| ==> cur == if i < |t| then t[i] else null
    {
      if i > 0 {
        SeenIsPrefix(s, cur, t, i - 1);
        if i > 1 {
          Around(t, i - 2);
          assert s[i - 2].next == s[i - 1];
          assert s[..i - 1][i - 2] == t[..i - 1][i - 2];
        }
        Around(t, i - 1);
      }
    }

    /** DLIST_check: ends on every pointer graph, and says exactly whether the root, the
        links in both directions and the counter are those of a list. */
    method Check(ghost nodes: set<Node>) returns (ok: bool, ghost s: seq<Node>)
      requires Closed(nodes) && Within(prev, nodes)
      ensures ok ==> Holds(s)
      ensures !ok ==> forall t: seq<Node> :: !Holds(t)
    {
      s := [];
      if prev != null && next == null {
        return false, s;
      }
      if prev != null && prev.prev != null {
        return false, s;
      }
      if next != null && next.next != null {
        return false, s;
      }
      var cur := prev;
      var last: Node? := null;
      var count := 0;
      ghost var left := nodes;
      while cur != null
        invariant Seen(s, cur) && count == |s| && last == (if s == [] then null else s[|s| - 1])
        invariant Within(cur, nodes) && (forall n :: n in s ==> n in nodes)
        invariant forall n :: n in left <==> n in nodes && n !in s
        decreases left
      {
        var after := cur.next;
        if after != null && after.prev != cur {
          Refused(s, cur);
          return false, s;
        }
        if cur.prev != last {
          Refused(s, cur);
          return false, s;
        }
        NotSeen(s, cur);
        count := count + 1;
        last := cur;
        left := left - {cur};
        s := s + [cur];
        cur := after;
      }
      forall t: seq<Node> | Holds(t) ensures t == s {
        SeenIsPrefix(s, cur, t, |s|);
        assert t[..|s|] == t;
      }
      if next != last {
        return false, s;
      }
      if elmcount != count {
        return false, s;
      }
      return true, s;
    }

    /** The back pointers tell a node that was looked at from a new one. */
    lemma NotSeen(s: seq<Node>, cur: Node)
      requires Seen(s, cur) && cur.prev == if s == [] then null else s[|s| - 1]
      ensures cur !in s
    {
      forall j | 0 <= j < |s| ensures s[j] != cur {
        assert j > 0 ==> s[j].prev == s[j - 1];
      }
    }

    /** Where the next node does not fit, there is no list. */
    lemma Refused(s: seq<Node>, cur: Node)
      requires Seen(s, cur)
      requires (cur.next != null && cur.next.prev != cur) || cur.prev != if s == [] then null else s[|s| - 1]
      ensures forall t: seq<Node> :: !Holds(t)
    {
      forall t: seq<Node> | Holds(t) ensures false {
        SeenIsPrefix(s, cur, t, |s|);
        Around(t, |s|);
      }
    }
  }
}
