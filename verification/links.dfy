/** Chains of next pointers, as the checks of cutils/sring.h and cutils/slist.h follow
    them: in a finite heap a chain ends or comes around. */
module Links {

  /** A node; the singly linked kinds leave prev alone. */
  class Node {
    const data: int
    var next: Node?
    var prev: Node?

    constructor (data: int)
      ensures this.data == data && next == null && prev == null
    {
      this.data, next, prev := data, null, null;
    }
  }

  /** Every pointer of a set of nodes stays in the set. */
  ghost predicate Closed(nodes: set<Node>)
    reads nodes
  {
    forall n :: n in nodes && n.next != null ==> n.next in nodes
  }

  ghost predicate Within(n: Node?, nodes: set<Node>) {
    n == null || n in nodes
  }

  /** The node after k steps; null after the end. */
  ghost function At(nodes: set<Node>, n: Node?, k: nat): (r: Node?)
    requires Closed(nodes) && Within(n, nodes)
    reads nodes
    ensures Within(r, nodes)
    ensures k > 0 && n == null ==> r == null
  {
    if k == 0 || n == null then n else At(nodes, n.next, k - 1)
  }

  /** One step more at the far end. */
  lemma {:induction false} AtNext(nodes: set<Node>, n: Node?, k: nat)
    requires Closed(nodes) && Within(n, nodes)
    ensures At(nodes, n, k + 1) == var m := At(nodes, n, k); if m == null then null else m.next
  {
    if k > 0 && n != null {
      AtNext(nodes, n.next, k - 1);
    }
  }

  /** After the end there is nothing. */
  lemma {:induction false} AtEnd(nodes: set<Node>, n: Node?, k: nat, m: nat)
    requires Closed(nodes) && Within(n, nodes) && At(nodes, n, k) == null && k <= m
    ensures At(nodes, n, m) == null
    decreases m
  {
    if k < m {
      AtEnd(nodes, n, k, m - 1);
      AtNext(nodes, n, m - 1);
    }
  }

  /** Two places with the same node have the same future. */
  lemma {:induction false} SameFuture(nodes: set<Node>, n: Node?, i: nat, j: nat, d: nat)
    requires Closed(nodes) && Within(n, nodes) && At(nodes, n, i) == At(nodes, n, j)
    ensures At(nodes, n, i + d) == At(nodes, n, j + d)
  {
    if d > 0 {
      SameFuture(nodes, n, i, j, d - 1);
      AtNext(nodes, n, i + d - 1);
      AtNext(nodes, n, j + d - 1);
    }
  }

  /** A node met again p steps later is met after every multiple of p steps. */
  lemma {:induction false} Periodic(nodes: set<Node>, n: Node?, i: nat, p: nat, m: nat, c: nat)
    requires Closed(nodes) && Within(n, nodes) && At(nodes, n, i) == At(nodes, n, i + p) && i <= m
    ensures 0 <= m + c * p && At(nodes, n, m + c * p) == At(nodes, n, m)
  {
    if c > 0 {
      Periodic(nodes, n, i, p, m, c - 1);
      var q := (c - 1) * p;
      assert c * p == q + p;
      SameFuture(nodes, n, i, i + p, m + q - i);
    }
  }

  /** More places than nodes: a node comes up twice. */
  lemma {:induction false} Pigeonhole(nodes: set<Node>, s: seq<Node>) returns (i: nat, j: nat)
    requires |s| > |nodes| && forall k :: 0 <= k < |s| ==> s[k] in nodes
    ensures i < j < |s| && s[i] == s[j]
    decreases |s|
  {
    var last := |s| - 1;
    if k :| 0 <= k < last && s[k] == s[last] {
      return k, last;
    }
    i, j := Pigeonhole(nodes - {s[last]}, s[..last]);
  }

  ghost predicate Unending(nodes: set<Node>, n: Node?, upTo: nat)
    requires Closed(nodes) && Within(n, nodes)
    reads nodes
  {
    forall k: nat :: k <= upTo ==> At(nodes, n, k) != null
  }

  /** On a chain that has not ended after as many steps as there are nodes, the step
      lengths that are multiples of the period meet: there is a k, not far, such that k
      steps from place k - 1 lead to the same node. */
  lemma {:induction false} TheyMeet(nodes: set<Node>, n: Node?) returns (k: nat)
    requires Closed(nodes) && Within(n, nodes) && Unending(nodes, n, |nodes|)
    ensures 1 <= k <= 2 * |nodes| + 1
    ensures At(nodes, n, k - 1) == At(nodes, n, k - 1 + k)
    ensures At(nodes, n, k) == At(nodes, n, k + k)
  {
    var s: seq<Node> := [];
    while |s| <= |nodes|
      invariant |s| <= |nodes| + 1
      invariant forall k :: 0 <= k < |s| ==> s[k] == At(nodes, n, k) && s[k] in nodes
    {
      s := s + [At(nodes, n, |s|)];
    }
    var i, j := Pigeonhole(nodes, s);
    var p := j - i;
    var c := i / p + 1;
    k := c * p;
    assert i < k <= i + p by {
      assert i == i / p * p + i % p;
      assert k == i / p * p + p;
    }
    Periodic(nodes, n, i, p, k - 1, c);
    Periodic(nodes, n, i, p, k, c);
  }

  /** What lies on a loop between two places is all that lies after the first. */
  lemma {:induction false} Looping(nodes: set<Node>, n: Node?, i: nat, j: nat, m: nat) returns (k: nat)
    requires Closed(nodes) && Within(n, nodes) && i < j && At(nodes, n, i) == At(nodes, n, j) && i <= m
    ensures i <= k < j && At(nodes, n, k) == At(nodes, n, m)
    decreases m
  {
    if m < j {
      return m;
    }
    k := Looping(nodes, n, i, j, m - (j - i));
    SameFuture(nodes, n, i, j, m - j);
  }
}

/** SRING_check of cutils/sring.h. */
module SRing {
  import opened Links
  import opened Seqs

  /** Following next from the head comes back to the head. */
  ghost predicate ComesBack(nodes: set<Node>, head: Node)
    requires Closed(nodes) && head in nodes
    reads nodes
  {
    exists k: nat :: k >= 1 && At(nodes, head, k) == head
  }

  /** Neither the end nor the head is among the first places. */
  ghost predicate NotYet(nodes: set<Node>, head: Node, upTo: nat)
    requires Closed(nodes) && head in nodes
    reads nodes
  {
    forall k: nat :: 1 <= k <= upTo ==> At(nodes, head, k) != null && At(nodes, head, k) != head
  }

  lemma Ends(nodes: set<Node>, head: Node, k: nat)
    requires Closed(nodes) && head in nodes && k >= 1
    requires NotYet(nodes, head, k - 1) && At(nodes, head, k) == null
    ensures !ComesBack(nodes, head)
  {
    forall m: nat | m >= 1 ensures At(nodes, head, m) != head {
      if m >= k {
        AtEnd(nodes, head, k, m);
      }
    }
  }

  lemma Loops(nodes: set<Node>, head: Node, i: nat, j: nat)
    requires Closed(nodes) && head in nodes && 1 <= i < j
    requires NotYet(nodes, head, j) && At(nodes, head, i) == At(nodes, head, j)
    ensures !ComesBack(nodes, head)
  {
    forall m: nat | m >= 1 ensures At(nodes, head, m) != head {
      if m >= i {
        var k := Looping(nodes, head, i, j, m);
      }
    }
  }

  /** The two pointers did not meet before. */
  ghost predicate NotMet(nodes: set<Node>, head: Node, upTo: nat)
    requires Closed(nodes) && head in nodes
    reads nodes
  {
    forall k: nat :: 1 <= k < upTo ==> At(nodes, head, k) != At(nodes, head, k + k)
  }

  /** But they must. */
  lemma MeetsInTime(nodes: set<Node>, head: Node, k: nat)
    requires Closed(nodes) && head in nodes && k >= 1
    requires NotYet(nodes, head, 2 * k - 1) && NotMet(nodes, head, k)
    ensures k <= 2 * |nodes| + 1
  {
    if k > 2 * |nodes| + 1 {
      var m := TheyMeet(nodes, head);
    }
  }

  /** SRING_check: Floyd's tortoise and hare. */
  method Check(ghost nodes: set<Node>, head: Node) returns (ok: bool)
    requires Closed(nodes) && head in nodes
    ensures ok <==> ComesBack(nodes, head)
  {
    var fast := head.next;
    var slow := head.next;
    ghost var k := 1;
    assert fast == At(nodes, head, 1) by {
      AtNext(nodes, head, 0);
    }
    while slow != head
      invariant k >= 1 && slow == At(nodes, head, k) && fast == At(nodes, head, 2 * k - 1)
      invariant k == 1 || NotYet(nodes, head, 2 * k - 1)
      invariant NotMet(nodes, head, k)
      decreases 2 * |nodes| + 2 - k
    {
      if slow == null {
        Ends(nodes, head, k);
        return false;
      }
      MeetsInTime(nodes, head, k);
      AtNext(nodes, head, 2 * k - 1);
      fast := fast.next;
      if fast == null {
        Ends(nodes, head, 2 * k);
        return false;
      }
      if fast == head {
        return true;
      }
      if fast == slow {
        Loops(nodes, head, k, 2 * k);
        return false;
      }
      AtNext(nodes, head, 2 * k);
      fast := fast.next;
      if fast == null {
        Ends(nodes, head, 2 * k + 1);
        return false;
      }
      if fast == head {
        return true;
      }
      if fast == slow {
        Loops(nodes, head, k, 2 * k + 1);
        return false;
      }
      AtNext(nodes, head, k);
      slow := slow.next;
      k := k + 1;
    }
    return true;
  }

  /** The nodes of a ring, from one of them around. */
  ghost predicate RingOf(r: seq<Node>)
    reads r
  {
    && r != []
    && (forall i, j :: 0 <= i < j < |r| ==> r[i] != r[j])
    && (forall i, j :: 0 <= i < j < |r| && j == i + 1 ==> r[i].next == r[j])
    && r[|r| - 1].next == r[0]
  }

  /** What the check accepts is a ring, and every ring is accepted. */
  lemma RingComesBack(nodes: set<Node>, r: seq<Node>)
    requires Closed(nodes) && RingOf(r) && r[0] in nodes
    ensures ComesBack(nodes, r[0])
  {
    var k := 0;
    while k < |r| - 1
      invariant k < |r| && At(nodes, r[0], k) == r[k]
    {
      AtNext(nodes, r[0], k);
      k := k + 1;
    }
    AtNext(nodes, r[0], k);
  }

  lemma ComesBackIsRing(nodes: set<Node>, head: Node) returns (r: seq<Node>)
    requires Closed(nodes) && head in nodes && ComesBack(nodes, head)
    ensures RingOf(r) && r[0] == head
  {
    var n: nat :| n >= 1 && At(nodes, head, n) == head;
    r := [head];
    while |r| < n && r[|r| - 1].next != head
      invariant 1 <= |r| <= n && r[0] == head
      invariant forall k :: 0 <= k < |r| ==> At(nodes, head, k) == r[k]
      invariant forall k :: 1 <= k < |r| ==> r[k] != head
      invariant forall i, j :: 0 <= i < j < |r| && j == i + 1 ==> r[i].next == r[j]
    {
      AtNext(nodes, head, |r| - 1);
      if r[|r| - 1].next == null {
        AtEnd(nodes, head, |r|, n);
      }
      r := r + [r[|r| - 1].next];
    }
    AtNext(nodes, head, |r| - 1);
    forall i, j | 0 <= i < j < |r| ensures r[i] != r[j] {
      if r[i] == r[j] {
        SameFuture(nodes, head, i, j, |r| - j);
      }
    }
  }

  /** SRING_insert_after. */
  method InsertAfter(list: Node, entry: Node, ghost r: seq<Node>, ghost i: nat)
    requires RingOf(r) && i < |r| && list == r[i] && entry !in r
    modifies list, entry
    ensures RingOf(r[..i + 1] + [entry] + r[i + 1..])
  {
    entry.next := list.next;
    list.next := entry;
    assert (r[..i + 1] + [entry] + r[i + 1..])[|r|] == if i + 1 < |r| then r[|r| - 1] else entry;
  }

  /** SRING_unlink_after: the node after the given one leaves the ring, be it the head. */
  method UnlinkAfter(list: Node, ghost r: seq<Node>, ghost i: nat) returns (entry: Node?)
    requires RingOf(r) && i < |r| && list == r[i]
    modifies list
    ensures |r| == 1 ==> entry == null && RingOf(r)
    ensures |r| > 1 && i + 1 < |r| ==> entry == r[i + 1] && RingOf(r[..i + 1] + r[i + 2..])
    ensures |r| > 1 && i + 1 == |r| ==> entry == r[0] && RingOf(r[1..])
  {
    if list.next == list {
      return null;
    }
    entry := list.next;
    ghost var after := if i + 1 < |r| then r[..i + 1] + r[i + 2..] else r[1..];
    assert i + 2 < |r| ==> r[i + 1].next == r[i + 2];
    assert |r| > 1 ==> r[0].next == r[1];
    assert after[|after| - 1] == if i + 2 == |r| then r[i] else r[|r| - 1];
    list.next := list.next.next;
  }

  /** SRING_reverse: the head stays, the others come in the opposite order. */
  method Reverse(head: Node, ghost r: seq<Node>)
    requires RingOf(r) && r[0] == head
    modifies r
    ensures RingOf([head] + Reversed(r[1..]))
  {
    var cur := head.next;
    assert cur == if |r| > 1 then r[1] else head;
    var after := cur.next;
    cur.next := head;
    ghost var i := if |r| == 1 then 1 else 2;
    while after != head
      invariant 1 <= i <= |r| && (|r| > 1 ==> i > 1) && cur == (if i > 1 then r[i - 1] else head)
      invariant after == if i < |r| then r[i] else head
      invariant |r| > 1 ==> r[1].next == head
      invariant forall j, k :: 1 <= j < k < i && k == j + 1 ==> r[k].next == r[j]
      invariant forall j, k :: i <= j < k < |r| && k == j + 1 ==> r[j].next == r[k]
      invariant i < |r| ==> r[|r| - 1].next == head
      decreases |r| - i
    {
      var tmp := after.next;
      after.next := cur;
      cur := after;
      after := tmp;
      i := i + 1;
    }
    head.next := cur;
  }
}

/** SLIST_check of cutils/slist.h. */
module SList {
  import opened Links
  import opened Seqs

  /** Each node points to the one after it, the last one to nothing. */
  ghost predicate Chained(s: seq<Node>)
    reads s
  {
    && (forall i, j :: 0 <= i < j < |s| ==> s[i] != s[j])
    && (forall i, j :: 0 <= i < j < |s| && j == i + 1 ==> s[i].next == s[j])
    && (s != [] ==> s[|s| - 1].next == null)
  }

  lemma Each(s: seq<Node>)
    requires Chained(s)
    ensures forall i, j :: 0 <= i < j < |s| ==> s[i] != s[j]
  {
  }

  lemma NextOf(s: seq<Node>, i: nat)
    requires Chained(s) && i < |s|
    ensures s[i].next == if i + 1 < |s| then s[i + 1] else null
  {
  }

  /** The nodes that a check does not select. */
  function Kept(s: seq<Node>, check: int -> bool): (r: seq<Node>)
    ensures forall n :: n in r ==> n in s
  {
    if s == [] then []
    else (if check(s[0].data) then [] else [s[0]]) + Kept(s[1..], check)
  }

  /** Exactly these. */
  lemma {:induction false} KeptMeans(s: seq<Node>, check: int -> bool)
    ensures forall n :: n in Kept(s, check) <==> n in s && !check(n.data)
  {
    if s != [] {
      KeptMeans(s[1..], check);
      assert s == [s[0]] + s[1..];
    }
  }

  lemma KeptFirst(s: seq<Node>, check: int -> bool)
    requires s != []
    ensures Kept(s, check) == (if check(s[0].data) then [] else [s[0]]) + Kept(s[1..], check)
  {
  }

  /** And in their order. */
  lemma {:induction false} KeptInOrder(s: seq<Node>, t: seq<Node>, check: int -> bool)
    ensures Kept(s + t, check) == Kept(s, check) + Kept(t, check)
  {
    if s == [] {
      assert s + t == t;
    } else {
      assert (s + t)[0] == s[0] && (s + t)[1..] == s[1..] + t;
      KeptInOrder(s[1..], t, check);
      KeptFirst(s, check);
      KeptFirst(s + t, check);
      hide Kept;
      var one := if check(s[0].data) then [] else [s[0]];
      assert one + (Kept(s[1..], check) + Kept(t, check)) == (one + Kept(s[1..], check)) + Kept(t, check);
    }
  }

  lemma KeptStep(s: seq<Node>, i: nat, check: int -> bool)
    requires i <= |s|
    ensures i == |s| ==> s[..i] + Kept(s[i..], check) == s
    ensures i < |s| ==> var after := s[..i] + s[i + 1..];
                        s[..i] + Kept(s[i..], check) ==
                          if check(s[i].data) then after[..i] + Kept(after[i..], check)
                          else s[..i + 1] + Kept(s[i + 1..], check)
  {
    if i < |s| {
      assert s[i..][1..] == s[i + 1..];
      assert (s[..i] + s[i + 1..])[i..] == s[i + 1..];
    }
  }

  /** The header: as in the source prev is the first entry and next the last one. */
  class Header {
    var elmcount: nat
    var prev: Node?
    var next: Node?

    constructor (elmcount: nat, prev: Node?, next: Node?)
      ensures this.elmcount == elmcount && this.prev == prev && this.next == next
    {
      this.elmcount, this.prev, this.next := elmcount, prev, next;
    }

    /** The entries of the list, first to last. */
    ghost predicate Holds(s: seq<Node>)
      reads this, s
    {
      && elmcount == |s|
      && prev == (if s == [] then null else s[0])
      && next == (if s == [] then null else s[|s| - 1])
      && Chained(s)
    }

    /** SLIST_insert_after; no position stands for the front. */
    method InsertAfter(pos: Node?, entry: Node, ghost s: seq<Node>, ghost i: nat)
      requires Holds(s) && entry !in s && i <= |s|
      requires pos == if i == 0 then null else s[i - 1]
      modifies this, s, entry
      ensures Holds(s[..i] + [entry] + s[i..])
    {
      assert i > 0 ==> pos.next == if i < |s| then s[i] else null;
      ghost var r := s[..i] + [entry] + s[i..];
      assert r[|s|] == if i < |s| then s[|s| - 1] else entry;
      if next != null {
        if pos != null {
          entry.next := pos.next;
          pos.next := entry;
          if entry.next == null {
            next := entry;
          }
        } else {
          entry.next := prev;
          prev := entry;
        }
      } else {
        next, prev := entry, entry;
        entry.next := null;
      }
      elmcount := elmcount + 1;
    }

    /** The chain without entry i. */
    twostate lemma Shorter(s: seq<Node>, new i: nat)
      requires old(Chained(s)) && i < |s|
      requires i > 0 ==> s[i - 1].next == old(s[i].next)
      requires forall n :: n in s && (i == 0 || n != s[i - 1]) ==> n.next == old(n.next)
      ensures Chained(s[..i] + s[i + 1..])
    {
      var r := s[..i] + s[i + 1..];
      forall k | 0 <= k < |r| ensures r[k] == s[if k < i then k else k + 1] {
      }
      forall a, b | 0 <= a < b < |r| && b == a + 1 ensures r[a].next == r[b] {
        assert old(s[i].next) == if i + 1 < |s| then s[i + 1] else null;
        assert a + 1 < i ==> old(s[a].next) == s[a + 1];
        assert a >= i ==> old(s[a + 1].next) == s[a + 2];
      }
      if r != [] {
        assert r[|r| - 1] == if i == |s| - 1 then s[i - 1] else s[|s| - 1];
      }
    }

    /** SLIST_unlink_after; no position stands for the front. */
    method UnlinkAfter(pos: Node?, ghost s: seq<Node>, ghost i: nat) returns (entry: Node?)
      requires Holds(s) && i <= |s|
      requires pos == if i == 0 then null else s[i - 1]
      requires pos == null ==> s != []
      modifies this, s
      ensures i == |s| ==> entry == null && Holds(s)
      ensures i < |s| ==> entry == s[i] && Holds(s[..i] + s[i + 1..])
    {
      hide Chained;
      if i > 0 {
        NextOf(s, i - 1);
      }
      if i < |s| {
        NextOf(s, i);
        Each(s);
      }
      ghost var r := if i < |s| then s[..i] + s[i + 1..] else s;
      assert r != [] ==> r[|r| - 1] == if i == |s| - 1 then s[i - 1] else s[|s| - 1];
      if pos == null {
        entry := prev;
        prev := entry.next;
        if prev == null {
          next := null;
        }
      } else {
        entry := pos.next;
        if entry == null {
          return;
        }
        pos.next := entry.next;
        if pos.next == null {
          next := pos;
        }
      }
      elmcount := elmcount - 1;
      Shorter(s, i);
    }

    /** SLIST_insert_sorted: before the first entry that is greater. */
    method InsertSorted(compare: (int, int) -> int, entry: Node, ghost s: seq<Node>) returns (ghost at: nat)
      requires Holds(s) && entry !in s
      modifies this, s, entry
      ensures at <= |s| && Holds(s[..at] + [entry] + s[at..])
      ensures forall i :: 0 <= i < at ==> compare(s[i].data, entry.data) <= 0
      ensures at < |s| ==> compare(s[at].data, entry.data) > 0
    {
      var before: Node? := null;
      var cur := prev;
      at := 0;
      while cur != null
        invariant at <= |s| && Holds(s)
        invariant cur == if at < |s| then s[at] else null
        invariant before == if at == 0 then null else s[at - 1]
        invariant forall i :: 0 <= i < at ==> compare(s[i].data, entry.data) <= 0
        decreases |s| - at
      {
        if compare(cur.data, entry.data) > 0 {
          InsertAfter(before, entry, s, at);
          return;
        }
        before := cur;
        cur := cur.next;
        at := at + 1;
      }
      InsertAfter(next, entry, s, at);
    }

    /** SLIST_deleteif, without the release of the memory. */
    method DeleteIf(check: int -> bool, ghost s: seq<Node>)
      requires Holds(s)
      modifies this, s
      ensures Holds(Kept(s, check))
    {
      hide Chained, Kept;
      var before: Node? := null;
      var cur := prev;
      ghost var now, i := s, 0;
      while cur != null
        invariant i <= |now| && Holds(now) && (forall j :: 0 <= j < |now| ==> now[j] in s)
        invariant Kept(s, check) == now[..i] + Kept(now[i..], check)
        invariant cur == if i < |now| then now[i] else null
        invariant before == if i == 0 then null else now[i - 1]
        decreases |now| - i
      {
        NextOf(now, i);
        KeptStep(now, i, check);
        if check(cur.data) {
          cur := cur.next;
          var deleted := UnlinkAfter(before, now, i);
          now := now[..i] + now[i + 1..];
        } else {
          before := cur;
          cur := cur.next;
          i := i + 1;
        }
      }
      KeptStep(now, i, check);
    }

    /** SLIST_reverse. */
    method Reverse(ghost s: seq<Node>)
      requires Holds(s)
      modifies this, s
      ensures Holds(Reversed(s))
    {
      var cur := prev;
      if cur != null {
        var after := cur.next;
        cur.next := null;
        ghost var i := 1;
        while after != null
          invariant 1 <= i <= |s| && cur == s[i - 1] && after == if i < |s| then s[i] else null
          invariant elmcount == |s| && prev == s[0] && next == s[|s| - 1]
          invariant s[0].next == null
          invariant forall j, k :: 0 <= j < k < i && k == j + 1 ==> s[k].next == s[j]
          invariant forall j, k :: i <= j < k < |s| && k == j + 1 ==> s[j].next == s[k]
          invariant s[|s| - 1].next == if i < |s| || |s| == 1 then null else s[|s| - 2]
          decreases |s| - i
        {
          var tmp := after.next;
          after.next := cur;
          cur := after;
          after := tmp;
          i := i + 1;
        }
        prev, next := next, prev;
      }
    }
  }

  ghost predicate AtMost(compare: (int, int) -> int, a: int, b: int) {
    compare(a, b) <= 0
  }

  ghost predicate Order(compare: (int, int) -> int) {
    && (forall a, b, c :: AtMost(compare, a, b) && AtMost(compare, b, c) ==> AtMost(compare, a, c))
    && (forall a, b :: AtMost(compare, a, b) || AtMost(compare, b, a))
  }

  ghost predicate Sorted(compare: (int, int) -> int, s: seq<Node>) {
    forall i, j :: 0 <= i < j < |s| ==> AtMost(compare, s[i].data, s[j].data)
  }

  /** Insertion keeps a list sorted, and puts the entry after its equals. */
  lemma {:induction false} InsertKeepsSorted(s: seq<Node>, x: Node, at: nat, compare: (int, int) -> int)
    requires Order(compare) && Sorted(compare, s)
    requires at <= |s| && forall i :: 0 <= i < at ==> compare(s[i].data, x.data) <= 0
    requires at < |s| ==> compare(s[at].data, x.data) > 0
    ensures Sorted(compare, s[..at] + [x] + s[at..])
    ensures forall i :: at <= i < |s| ==> compare(s[i].data, x.data) > 0
  {
    if at < |s| {
      assert !AtMost(compare, s[at].data, x.data);
      assert AtMost(compare, x.data, s[at].data);
      forall i | at < i < |s|
        ensures AtMost(compare, x.data, s[i].data) && !AtMost(compare, s[i].data, x.data)
      {
        assert AtMost(compare, s[at].data, s[i].data);
      }
    }
  }

  /** The chain from a node has exactly n nodes, and then ends. */
  ghost predicate HasLength(nodes: set<Node>, first: Node?, n: nat)
    requires Closed(nodes) && Within(first, nodes)
    reads nodes
  {
    At(nodes, first, n) == null && forall k: nat :: k < n ==> At(nodes, first, k) != null
  }

  /** The header describes the chain. */
  ghost predicate Describes(nodes: set<Node>, header: Header)
    requires Closed(nodes) && Within(header.prev, nodes)
    reads nodes, header
  {
    HasLength(nodes, header.prev, header.elmcount) && header.next ==
      if header.elmcount == 0 then null else At(nodes, header.prev, header.elmcount - 1)
  }

  /** An empty list with a wrong counter. */
  ghost predicate MiscountedEmpty(header: Header)
    reads header
  {
    header.prev == null && header.next == null && header.elmcount != 0
  }

  lemma OneLength(nodes: set<Node>, first: Node?, m: nat, n: nat)
    requires Closed(nodes) && Within(first, nodes) && HasLength(nodes, first, m) && HasLength(nodes, first, n)
    ensures m == n
  {
  }

  lemma Loops(nodes: set<Node>, header: Header, i: nat, j: nat)
    requires Closed(nodes) && Within(header.prev, nodes) && i < j
    requires Unending(nodes, header.prev, j) && At(nodes, header.prev, i) == At(nodes, header.prev, j)
    ensures !Describes(nodes, header)
  {
    if HasLength(nodes, header.prev, header.elmcount) {
      var n := header.elmcount;
      assert j < n;
      var k := Looping(nodes, header.prev, i, j, n);
    }
  }

  /** The two pointers did not meet before. */
  ghost predicate NotMet(nodes: set<Node>, first: Node?, upTo: nat)
    requires Closed(nodes) && Within(first, nodes)
    reads nodes
  {
    forall k: nat :: k < upTo ==> At(nodes, first, k) != At(nodes, first, k + (k + 1))
  }

  lemma MeetsInTime(nodes: set<Node>, first: Node?, k: nat)
    requires Closed(nodes) && Within(first, nodes)
    requires Unending(nodes, first, 2 * k) && NotMet(nodes, first, k)
    ensures k <= 2 * |nodes| + 1
  {
    if k > 2 * |nodes| + 1 {
      var m := TheyMeet(nodes, first);
    }
  }

  lemma NothingThere(nodes: set<Node>, header: Header)
    requires Closed(nodes) && Within(header.prev, nodes)
    ensures At(nodes, header.prev, 0) == header.prev
    ensures (header.prev == null) != (header.next == null) ==> !Describes(nodes, header)
    ensures header.prev == null && header.next == null ==> Describes(nodes, header) || MiscountedEmpty(header)
  {
    assert header.prev == null ==> HasLength(nodes, header.prev, 0);
    assert header.elmcount > 0 && Describes(nodes, header) ==> At(nodes, header.prev, 0) != null;
  }

  /** What is left to compare when the end was found. */
  lemma Verdict(nodes: set<Node>, header: Header, count: nat, last: Node?)
    requires Closed(nodes) && Within(header.prev, nodes) && count > 0
    requires Unending(nodes, header.prev, count - 1) && At(nodes, header.prev, count) == null
    requires last == At(nodes, header.prev, count - 1)
    ensures Describes(nodes, header) <==> header.next == last && header.elmcount == count
  {
    hide At;
    assert HasLength(nodes, header.prev, count);
    if Describes(nodes, header) {
      OneLength(nodes, header.prev, count, header.elmcount);
    }
  }

  /** SLIST_check.  It says that the header describes the list, but for one thing: of
      an empty list it does not look at the counter. */
  method Check(ghost nodes: set<Node>, header: Header) returns (ok: bool)
    requires Closed(nodes) && Within(header.prev, nodes)
    ensures ok <==> Describes(nodes, header) || MiscountedEmpty(header)
  {
    hide At, Describes, HasLength;
    ghost var first := header.prev;
    NothingThere(nodes, header);
    if header.prev == null || header.next == null {
      if header.prev != null || header.next != null {
        return false;
      }
      return true;
    }
    var fast, cur := header.prev, header.prev;
    var prev: Node? := null;
    var count := 0;
    ghost var k := 0;
    while cur != null
      invariant cur == At(nodes, first, k) && fast == At(nodes, first, 2 * k) && count == 2 * k
      invariant Unending(nodes, first, 2 * k) && NotMet(nodes, first, k)
      decreases 2 * |nodes| + 2 - k
    {
      MeetsInTime(nodes, first, k);
      AtNext(nodes, first, 2 * k);
      AtNext(nodes, first, 2 * k + 1);
      AtNext(nodes, first, k);
      count := count + 1;
      prev := fast;
      fast := fast.next;
      if fast == null {
        break;
      }
      if fast == cur {
        Loops(nodes, header, k, 2 * k + 1);
        return false;
      }
      count := count + 1;
      prev := fast;
      fast := fast.next;
      if fast == null {
        break;
      }
      if fast == cur {
        Loops(nodes, header, k, 2 * k + 2);
        return false;
      }
      cur := cur.next;
      k := k + 1;
    }
    Verdict(nodes, header, count, prev);
    if header.next != prev {
      return false;
    }
    if header.elmcount != count {
      return false;
    }
    return true;
  }

  /** The check accepts every list that the operations make. */
  lemma HoldsDescribes(nodes: set<Node>, header: Header, s: seq<Node>)
    requires Closed(nodes) && header.Holds(s) && forall n :: n in s ==> n in nodes
    ensures Within(header.prev, nodes) && Describes(nodes, header)
  {
    var k := 0;
    while k < |s|
      invariant k <= |s|
      invariant At(nodes, header.prev, k) == if k < |s| then s[k] else null
      invariant forall j: nat :: j < k ==> At(nodes, header.prev, j) == s[j]
    {
      AtNext(nodes, header.prev, k);
      k := k + 1;
    }
  }

  /** A header that the check accepts and that describes no list. */
  method AcceptsMiscounted() returns (header: Header, ok: bool)
    ensures fresh(header) && header.elmcount == 3 && header.prev == null && ok
    ensures !Describes({}, header)
  {
    header := new Header(3, null, null);
    ok := Check({}, header);
  }
}
