/** The array heap of cutils/heap.c.  Positions count from 1 as in the source: the
    children of position p are 2p and 2p + 1. */
module Heap {

  ghost predicate TotalPreorder<T(!new)>(compare: (T, T) -> int) {
    && (forall a, b :: compare(a, b) > 0 <==> compare(b, a) < 0)
    && (forall a, b, c :: compare(a, b) <= 0 && compare(b, c) <= 0 ==> compare(a, c) <= 0)
  }

  /** The element at position p of a list. */
  function El<T>(s: seq<T>, p: nat): T
    requires 1 <= p <= |s|
  {
    s[p - 1]
  }

  ghost predicate Le<T(!new)>(compare: (T, T) -> int, s: seq<T>, p: nat, q: nat)
    requires 1 <= p <= |s| && 1 <= q <= |s|
  {
    compare(El(s, p), El(s, q)) <= 0
  }

  /** No element is smaller than its parent. */
  ghost predicate HeapOrder<T(!new)>(compare: (T, T) -> int, s: seq<T>) {
    forall p :: 2 <= p <= |s| ==> Le(compare, s, p / 2, p)
  }

  /** Heap order but for position hole and its parent; the children of the hole are
      not smaller than that parent. */
  ghost predicate OrderAbove<T(!new)>(compare: (T, T) -> int, s: seq<T>, hole: nat) {
    && 1 <= hole <= |s|
    && (forall p :: 2 <= p <= |s| && p != hole ==> Le(compare, s, p / 2, p))
    && (2 <= hole ==> forall p :: 2 <= p <= |s| && p / 2 == hole ==> Le(compare, s, hole / 2, p))
  }

  /** Heap order but for position hole and its children; these are not smaller than
      the parent of the hole. */
  ghost predicate OrderBelow<T(!new)>(compare: (T, T) -> int, s: seq<T>, hole: nat) {
    && 1 <= hole <= |s|
    && (forall p :: 2 <= p <= |s| && p / 2 != hole ==> Le(compare, s, p / 2, p))
    && (2 <= hole ==> forall p :: 2 <= p <= |s| && p / 2 == hole ==> Le(compare, s, hole / 2, p))
  }

  function Swap<T>(s: seq<T>, p: nat, q: nat): (t: seq<T>)
    requires 1 <= p <= |s| && 1 <= q <= |s|
    ensures |t| == |s|
  {
    s[p - 1 := El(s, q)][q - 1 := El(s, p)]
  }

  lemma SwapKeeps<T>(s: seq<T>, p: nat, q: nat)
    requires 1 <= p <= |s| && 1 <= q <= |s|
    ensures multiset(Swap(s, p, q)) == multiset(s)
  {
  }

  lemma SwapAt<T>(s: seq<T>, p: nat, q: nat, r: nat)
    requires 1 <= p <= |s| && 1 <= q <= |s| && 1 <= r <= |s|
    ensures El(Swap(s, p, q), r) == if r == q then El(s, p) else if r == p then El(s, q) else El(s, r)
  {
  }

  lemma SwapAll<T>(s: seq<T>, p: nat, q: nat)
    requires 1 <= p <= |s| && 1 <= q <= |s|
    ensures forall r: nat :: 1 <= r <= |s| ==>
              El(Swap(s, p, q), r) == if r == q then El(s, p) else if r == p then El(s, q) else El(s, r)
  {
  }

  lemma Transitive<T(!new)>(compare: (T, T) -> int, s: seq<T>, p: nat, q: nat, r: nat)
    requires TotalPreorder(compare) && 1 <= p <= |s| && 1 <= q <= |s| && 1 <= r <= |s|
    requires Le(compare, s, p, q) && Le(compare, s, q, r)
    ensures Le(compare, s, p, r)
  {
  }

  lemma Total<T(!new)>(compare: (T, T) -> int, s: seq<T>, p: nat, q: nat)
    requires TotalPreorder(compare) && 1 <= p <= |s| && 1 <= q <= |s|
    ensures Le(compare, s, p, q) || Le(compare, s, q, p)
    ensures Le(compare, s, p, p)
  {
    assert compare(El(s, p), El(s, p)) > 0 <==> compare(El(s, p), El(s, p)) < 0;
  }

  /** Moving the new element one level up. */
  lemma UpStep<T(!new)>(compare: (T, T) -> int, s: seq<T>, hole: nat)
    requires TotalPreorder(compare) && OrderAbove(compare, s, hole) && 2 <= hole
    requires !Le(compare, s, hole / 2, hole)
    ensures OrderAbove(compare, Swap(s, hole, hole / 2), hole / 2)
  {
    hide TotalPreorder, Swap, El;
    var parent := hole / 2;
    var t := Swap(s, hole, parent);
    Total(compare, s, parent, hole);
    SwapAt(s, hole, parent, hole);
    SwapAt(s, hole, parent, parent);
    forall p | 2 <= p <= |t| && p != parent
      ensures Le(compare, t, p / 2, p)
    {
      SwapAt(s, hole, parent, p);
      SwapAt(s, hole, parent, p / 2);
      if p != hole {
        assert Le(compare, s, p / 2, p);
        if p / 2 == parent {
          Transitive(compare, s, hole, parent, p);
        } else if p / 2 == hole {
          assert Le(compare, s, hole / 2, p);
        }
      }
    }
    if 2 <= parent {
      assert Le(compare, s, parent / 2, parent);
      SwapAt(s, hole, parent, parent / 2);
      forall p | 2 <= p <= |t| && p / 2 == parent
        ensures Le(compare, t, parent / 2, p)
      {
        SwapAt(s, hole, parent, p);
        if p != hole {
          assert Le(compare, s, p / 2, p);
          Transitive(compare, s, parent / 2, parent, p);
        }
      }
    }
  }

  lemma UpEnds<T(!new)>(compare: (T, T) -> int, s: seq<T>, hole: nat)
    requires OrderAbove(compare, s, hole) && (hole == 1 || Le(compare, s, hole / 2, hole))
    ensures HeapOrder(compare, s)
  {
  }

  lemma DownEnds<T(!new)>(compare: (T, T) -> int, s: seq<T>, hole: nat, next: nat)
    requires TotalPreorder(compare) && OrderBelow(compare, s, hole)
    requires 2 * hole <= |s| ==>
               && 1 <= next <= |s| && Le(compare, s, hole, next)
               && forall p :: 2 <= p <= |s| && p / 2 == hole ==> Le(compare, s, next, p)
    ensures HeapOrder(compare, s)
  {
    hide TotalPreorder;
    forall p | 2 <= p <= |s|
      ensures Le(compare, s, p / 2, p)
    {
      if p / 2 == hole {
        Transitive(compare, s, hole, next, p);
      }
    }
  }

  /** Moving the smaller child up into the hole. */
  lemma DownStep<T(!new)>(compare: (T, T) -> int, s: seq<T>, hole: nat, next: nat)
    requires TotalPreorder(compare) && OrderBelow(compare, s, hole)
    requires next <= |s| && (next == 2 * hole || next == 2 * hole + 1)
    requires forall p :: 2 <= p <= |s| && p / 2 == hole ==> Le(compare, s, next, p)
    requires !Le(compare, s, hole, next)
    ensures OrderBelow(compare, Swap(s, hole, next), next)
  {
    hide TotalPreorder, Swap, El;
    var t := Swap(s, hole, next);
    SwapAt(s, hole, next, hole);
    SwapAt(s, hole, next, next);
    forall p | 2 <= p <= |t| && p / 2 != next
      ensures Le(compare, t, p / 2, p)
    {
      SwapAt(s, hole, next, p);
      SwapAt(s, hole, next, p / 2);
      if p == next {
        Total(compare, s, hole, next);
      } else if p / 2 == hole {
        assert Le(compare, s, next, p);
      } else {
        assert Le(compare, s, p / 2, p);
        assert p == hole ==> Le(compare, s, hole / 2, next);
      }
    }
    forall p | 2 <= p <= |t| && p / 2 == next
      ensures Le(compare, t, next / 2, p)
    {
      SwapAt(s, hole, next, p);
      assert Le(compare, s, p / 2, p);
    }
  }

  /** The top of a heap is a minimum. */
  lemma {:induction false} TopIsMin<T(!new)>(compare: (T, T) -> int, s: seq<T>, p: nat)
    requires TotalPreorder(compare) && HeapOrder(compare, s) && 1 <= p <= |s|
    ensures Le(compare, s, 1, p)
  {
    Total(compare, s, p, p);
    if p > 1 {
      TopIsMin(compare, s, p / 2);
      Transitive(compare, s, 1, p / 2, p);
    }
  }

  class Heap<T(0, !new)> {
    const compare: (T, T) -> int
    var buffer: array<T>
    var elmcount: nat

    ghost predicate Valid()
      reads this, buffer
    {
      && TotalPreorder(compare)
      && 1 <= buffer.Length && elmcount < buffer.Length
      && HeapOrder(compare, Elements())
    }

    /** The elements in buffer order. */
    ghost function Elements(): seq<T>
      requires elmcount <= buffer.Length
      reads this, buffer
    {
      buffer[..elmcount]
    }

    constructor (elmcount: nat, compare: (T, T) -> int)
      requires 1 <= elmcount && TotalPreorder(compare)
      ensures Valid() && Elements() == [] && this.compare == compare && fresh(buffer)
    {
      this.compare := compare;
      buffer := new T[elmcount];
      this.elmcount := 0;
    }

    /** The growth of HEAP_push. */
    method Grow()
      requires Valid()
      modifies this`buffer
      ensures Valid() && Elements() == old(Elements()) && elmcount < buffer.Length - 1
      ensures buffer == old(buffer) || fresh(buffer)
    {
      if elmcount >= buffer.Length - 1 {
        var bigger := new T[2 * buffer.Length];
        forall i | 0 <= i < elmcount {
          bigger[i] := buffer[i];
        }
        ghost var s := Elements();
        buffer := bigger;
        assert Elements() == s;
      }
    }

    /** HEAP_push: a hole moves up from the new last position until the element fits
        into it. */
    method Push(element: T)
      requires Valid()
      modifies this, buffer
      ensures Valid() && multiset(Elements()) == multiset(old(Elements())) + multiset{element}
      ensures elmcount == old(elmcount) + 1 && (buffer == old(buffer) || fresh(buffer))
    {
      Grow();
      ghost var s0 := Elements();
      elmcount := elmcount + 1;
      Appended(compare, s0, element);
      var pos := SiftUp(element, s0 + [element]);
    }

    method SiftUp(element: T, ghost start: seq<T>) returns (pos: nat)
      requires TotalPreorder(compare) && 1 <= elmcount < buffer.Length && |start| == elmcount
      requires OrderAbove(compare, start, elmcount) && El(start, elmcount) == element
      requires forall p: nat :: 1 <= p < elmcount ==> buffer[p - 1] == El(start, p)
      modifies buffer
      ensures HeapOrder(compare, Elements()) && multiset(Elements()) == multiset(start)
    {
      hide TotalPreorder, OrderAbove, HeapOrder, Swap;
      ghost var s := start;
      pos := elmcount;
      while pos > 1
        invariant 1 <= pos <= elmcount && elmcount == |s|
        invariant multiset(s) == multiset(start)
        invariant El(s, pos) == element && OrderAbove(compare, s, pos)
        invariant forall p: nat :: 1 <= p <= elmcount && p != pos ==> buffer[p - 1] == El(s, p)
      {
        var parent := pos / 2;
        if compare(buffer[parent - 1], element) > 0 {
          UpStep(compare, s, pos);
          buffer[pos - 1] := buffer[parent - 1];
          SwapKeeps(s, pos, parent);
          SwapAll(s, pos, parent);
          s := Swap(s, pos, parent);
          pos := parent;
        } else {
          break;
        }
      }
      UpEnds(compare, s, pos);
      buffer[pos - 1] := element;
      SameElements(s);
    }

    lemma SameElements(s: seq<T>)
      requires |s| == elmcount <= buffer.Length
      requires forall p: nat :: 1 <= p <= elmcount ==> buffer[p - 1] == El(s, p)
      ensures Elements() == s
    {
      forall i | 0 <= i < elmcount
        ensures buffer[i] == s[i]
      {
        assert buffer[(i + 1) - 1] == El(s, i + 1);
      }
    }

    /** HEAP_top. */
    method Top() returns (top: T)
      requires Valid() && elmcount > 0
      ensures top == Elements()[0]
      ensures forall x :: x in Elements() ==> compare(top, x) <= 0
    {
      top := buffer[0];
      forall x | x in Elements()
        ensures compare(top, x) <= 0
      {
        var i :| 0 <= i < elmcount && Elements()[i] == x;
        TopIsMin(compare, Elements(), i + 1);
      }
    }

    /** The child of pos that goes up, as HEAP_pop chooses it. */
    method SmallerChild(pos: nat, ghost s: seq<T>) returns (next: nat)
      requires TotalPreorder(compare) && 1 <= pos && 2 * pos <= elmcount < buffer.Length && |s| == elmcount
      requires forall p :: 1 <= p <= elmcount && p != pos ==> buffer[p - 1] == El(s, p)
      ensures (next == 2 * pos || next == 2 * pos + 1) && next <= elmcount
      ensures forall p :: 2 <= p <= |s| && p / 2 == pos ==> Le(compare, s, next, p)
    {
      var left := 2 * pos;
      var right := left + 1;
      if left != elmcount && compare(buffer[right - 1], buffer[left - 1]) < 0 {
        next := right;
      } else {
        next := left;
      }
      Total(compare, s, left, left);
      if left != elmcount {
        Total(compare, s, left, right);
        Total(compare, s, right, right);
      }
      assert forall p :: p / 2 == pos ==> p == left || p == right;
    }

    /** HEAP_pop: a hole moves down from the top until the last element fits into
        it. */
    method Pop() returns (rc: int)
      requires Valid()
      modifies this, buffer
      ensures Valid() && buffer == old(buffer)
      ensures rc == if old(elmcount) == 0 then -1 else 0
      ensures rc == -1 ==> Elements() == old(Elements())
      ensures rc == 0 ==>
                multiset(Elements()) + multiset{old(Elements())[0]} == multiset(old(Elements()))
                && elmcount == old(elmcount) - 1
    {
      if elmcount == 0 {
        return -1;
      }
      ghost var s0 := Elements();
      var last := elmcount;
      elmcount := elmcount - 1;
      StartOfPopOk(compare, s0);
      if elmcount > 0 {
        assert forall p: nat :: 2 <= p <= elmcount ==> buffer[p - 1] == El(s0, p);
        SiftDown(last, StartOfPop(s0));
      }
      rc := 0;
    }

    method SiftDown(last: nat, ghost start: seq<T>)
      requires TotalPreorder(compare) && 1 <= elmcount == last - 1 && last <= buffer.Length && |start| == elmcount
      requires OrderBelow(compare, start, 1) && El(start, 1) == buffer[last - 1]
      requires forall p: nat :: 2 <= p <= elmcount ==> buffer[p - 1] == El(start, p)
      modifies buffer
      ensures HeapOrder(compare, Elements()) && multiset(Elements()) == multiset(start)
    {
      hide TotalPreorder, OrderBelow, HeapOrder, Swap;
      var pos := 1;
      ghost var next := 1;
      ghost var s := start;
      while true
        invariant 1 <= pos <= elmcount && elmcount == |s|
        invariant buffer[last - 1] == old(buffer[last - 1])
        invariant multiset(s) == multiset(start)
        invariant El(s, pos) == buffer[last - 1] && OrderBelow(compare, s, pos)
        invariant forall p: nat :: 1 <= p <= elmcount && p != pos ==> buffer[p - 1] == El(s, p)
        decreases elmcount - pos
      {
        if 2 * pos > elmcount {
          break;
        }
        var child := SmallerChild(pos, s);
        next := child;
        if compare(buffer[last - 1], buffer[child - 1]) > 0 {
          buffer[pos - 1] := buffer[child - 1];
          DownStep(compare, s, pos, child);
          SwapKeeps(s, pos, child);
          SwapAll(s, pos, child);
          s := Swap(s, pos, child);
        } else {
          break;
        }
        pos := child;
      }
      DownEnds(compare, s, pos, next);
      if pos != last {
        buffer[pos - 1] := buffer[last - 1];
      }
      SameElements(s);
    }
  }

  lemma Appended<T(!new)>(compare: (T, T) -> int, s: seq<T>, x: T)
    requires HeapOrder(compare, s)
    ensures OrderAbove(compare, s + [x], |s| + 1)
  {
    var t := s + [x];
    forall p | 2 <= p <= |t| && p != |s| + 1
      ensures Le(compare, t, p / 2, p)
    {
      assert Le(compare, s, p / 2, p);
    }
  }

  /** The elements that stay, with the last one in the place of the top. */
  ghost function StartOfPop<T>(s0: seq<T>): (s: seq<T>)
    requires s0 != []
    ensures |s| == |s0| - 1
    ensures forall p: nat :: 1 <= p <= |s| ==> El(s, p) == if p == 1 then El(s0, |s0|) else El(s0, p)
  {
    var n := |s0| - 1;
    if n == 0 then [] else s0[..n][0 := s0[n]]
  }

  lemma StartOfPopOk<T(!new)>(compare: (T, T) -> int, s0: seq<T>)
    requires s0 != [] && HeapOrder(compare, s0)
    ensures var s := StartOfPop(s0);
            multiset(s) + multiset{s0[0]} == multiset(s0) && (s != [] ==> OrderBelow(compare, s, 1))
  {
    var n := |s0| - 1;
    assert s0 == s0[..n] + [s0[n]];
    var s := StartOfPop(s0);
    forall p | 2 <= p <= |s| && p / 2 != 1
      ensures Le(compare, s, p / 2, p)
    {
      assert Le(compare, s0, p / 2, p);
    }
  }

  ghost predicate Sorted<T(!new)>(compare: (T, T) -> int, s: seq<T>) {
    forall i, j :: 0 <= i < j < |s| ==> compare(s[i], s[j]) <= 0
  }

  /** Popping a heap until it is empty yields its elements in order. */
  method Drain<T(0, !new)>(heap: Heap<T>) returns (out: seq<T>)
    requires heap.Valid()
    modifies heap, heap.buffer
    ensures heap.Valid() && heap.Elements() == []
    ensures Sorted(heap.compare, out) && multiset(out) == multiset(old(heap.Elements()))
  {
    hide TotalPreorder, HeapOrder;
    out := [];
    while heap.elmcount > 0
      invariant heap.Valid() && heap.buffer == old(heap.buffer)
      invariant multiset(out) + multiset(heap.Elements()) == multiset(old(heap.Elements()))
      invariant Sorted(heap.compare, out)
      invariant forall x, y :: x in out && y in multiset(heap.Elements()) ==> heap.compare(x, y) <= 0
      decreases heap.elmcount
    {
      ghost var ms := multiset(heap.Elements());
      var top := heap.Top();
      assert top in ms;
      var _ := heap.Pop();
      assert forall y :: y in multiset(heap.Elements()) ==> y in ms;
      out := out + [top];
    }
    assert heap.Elements() == [];
  }
}
